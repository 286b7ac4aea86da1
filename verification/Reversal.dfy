/** Reversing a posted entry: lines 591-665 of zavora-erp-core/src/services/journal.rs. */
module Reversal {
  import opened Prelude
  import opened Money
  import opened Journal

  /** Each stored line with its document amounts swapped, at its own rate. */
  function Reverse(lines: seq<Line>): (rs: seq<Request>)
    ensures |rs| == |lines|
    ensures forall i | 0 <= i < |lines| ::
              rs[i] == Request(lines[i].account, lines[i].credit, lines[i].debit, lines[i].currency,
                               Some(lines[i].fxRate))
  {
    if lines == [] then []
    else
      var l := lines[0];
      [Request(l.account, l.credit, l.debit, l.currency, Some(l.fxRate))] + Reverse(lines[1..])
  }

  /** What a line moves its account by. */
  function Movement(l: Line): real {
    OrZero(l.functionalDebit) - OrZero(l.functionalCredit)
  }

  /** What the reversal of a stored line moves its account by: the stored amounts, converted again. */
  function Undone(l: Line): real {
    OrZero(MapMoney(l.credit, l.fxRate)) - OrZero(MapMoney(l.debit, l.fxRate))
  }

  /** What the reversal of a stored line fails to undo. */
  function Slip(l: Line): real {
    Movement(l) + Undone(l)
  }

  function AccountMovement(lines: seq<Line>, account: string): real {
    if lines == [] then 0.0
    else (if lines[0].account == account then Movement(lines[0]) else 0.0) + AccountMovement(lines[1..], account)
  }

  function AccountSlip(lines: seq<Line>, account: string): real {
    if lines == [] then 0.0
    else (if lines[0].account == account then Slip(lines[0]) else 0.0) + AccountSlip(lines[1..], account)
  }

  function TotalSlip(lines: seq<Line>): real {
    if lines == [] then 0.0 else Slip(lines[0]) + TotalSlip(lines[1..])
  }

  lemma {:induction false} MovementAppend(a: seq<Line>, b: seq<Line>, account: string)
    ensures AccountMovement(a + b, account) == AccountMovement(a, account) + AccountMovement(b, account)
  {
    if a == [] {
      assert a + b == b;
    } else {
      MovementAppend(a[1..], b, account);
      assert (a + b)[1..] == a[1..] + b;
    }
  }

  lemma {:induction false} SlipAppend(a: seq<Line>, l: Line, account: string)
    ensures TotalSlip(a + [l]) == TotalSlip(a) + Slip(l)
    ensures AccountSlip(a + [l], account) == AccountSlip(a, account) + (if l.account == account then Slip(l) else 0.0)
  {
    if a == [] {
      assert (a + [l])[1..] == [];
    } else {
      SlipAppend(a[1..], l, account);
      assert (a + [l])[1..] == a[1..] + [l];
    }
  }

  lemma FirstLine(l: Line, rest: seq<Line>, account: string)
    ensures Debits([l] + rest) == OrZero(l.functionalDebit) + Debits(rest)
    ensures Credits([l] + rest) == OrZero(l.functionalCredit) + Credits(rest)
    ensures TotalSlip([l] + rest) == Slip(l) + TotalSlip(rest)
    ensures AccountSlip([l] + rest, account) ==
              (if l.account == account then Slip(l) else 0.0) + AccountSlip(rest, account)
  {
    assert ([l] + rest)[1..] == rest;
  }

  lemma TwoLines(x: Line, y: Line, account: string)
    ensures Debits([x, y]) == OrZero(x.functionalDebit) + OrZero(y.functionalDebit)
    ensures Credits([x, y]) == OrZero(x.functionalCredit) + OrZero(y.functionalCredit)
    ensures TotalSlip([x, y]) == Slip(x) + Slip(y)
    ensures AccountSlip([x, y], account) ==
              (if x.account == account then Slip(x) else 0.0) + (if y.account == account then Slip(y) else 0.0)
  {
    FirstLine(y, [], account);
    FirstLine(x, [y], account);
    assert [y] + [] == [y] && [x] + [y] == [x, y];
  }

  // ----- What a reversal does, exactly -----

  lemma {:induction false} ReversedMovement(lines: seq<Line>, account: string)
    ensures var back := WriteAll(Reverse(lines));
            && Debits(back) - Credits(back) == TotalSlip(lines) - (Debits(lines) - Credits(lines))
            && AccountMovement(back, account) == AccountSlip(lines, account) - AccountMovement(lines, account)
  {
    if lines == [] {
    } else {
      ReversedMovement(lines[1..], account);
      var rs := Reverse(lines);
      assert rs[1..] == Reverse(lines[1..]);
      assert WriteAll(rs)[0] == Write(rs[0]) && WriteAll(rs)[1..] == WriteAll(rs[1..]);
      assert Movement(Write(rs[0])) == Undone(lines[0]);
    }
  }

  lemma AdjustmentMoves(roundingAccount: string, base: string, debit: bool, amount: real, account: string)
    ensures AccountMovement([AdjustmentLine(roundingAccount, base, debit, amount)], account) ==
              if account == roundingAccount then (if debit then amount else -amount) else 0.0
  {
    var l := AdjustmentLine(roundingAccount, base, debit, amount);
    assert [l][1..] == [];
  }

  /** The rounding account's share of a reversal: its adjustment takes the whole slip back. */
  function Absorbed(lines: seq<Line>, roundingAccount: string, account: string): real {
    if account == roundingAccount then TotalSlip(lines) else 0.0
  }

  /** The reversal of a balanced entry is refused if and only if its lines slip by more
      than a cent together. When it posts, an account is left off by its own slip, less, on
      the rounding account, the slip of all; so it is restored if and only if the two are equal. */
  lemma ReversalExactly(lines: seq<Line>, roundingAccount: string, base: string, account: string)
    requires Debits(lines) == Credits(lines)
    ensures var back := Post(Reverse(lines), roundingAccount, base);
            && (back.Refused? <==> Abs(TotalSlip(lines)) > ROUNDING_TOLERANCE)
            && (back.Posted? ==>
                  && AccountMovement(lines + back.lines, account) ==
                       AccountSlip(lines, account) - Absorbed(lines, roundingAccount, account)
                  && (|back.lines| == |lines| <==> TotalSlip(lines) == 0.0))
  {
    ReversedMovement(lines, account);
    var rs := Reverse(lines);
    var written := WriteAll(rs);
    var back := Post(rs, roundingAccount, base);
    match Outcome(Debits(written), Credits(written)) {
      case Balanced =>
        MovementAppend(lines, written, account);
      case Adjust(debit, amount) =>
        var extra := [AdjustmentLine(roundingAccount, base, debit, amount)];
        AdjustmentMoves(roundingAccount, base, debit, amount, account);
        MovementAppend(written, extra, account);
        MovementAppend(lines, written + extra, account);
      case Unbalanced =>
    }
  }

  // ----- Entries that are restored -----

  /** A line requested for `d` and stored as `kept` is reversed, at this rate, by what it moved. */
  predicate RestoredAt(kept: real, d: real, rate: real) {
    RoundMoney(Convert(kept, rate)) == RoundMoney(Convert(d, rate))
  }

  /** Storing the document amounts in cents changes neither side at the line's rate. */
  predicate LineRestored(r: Request) {
    && (r.debit.Some? ==> RestoredAt(RoundMoney(r.debit.value), r.debit.value, Rate(r)))
    && (r.credit.Some? ==> RestoredAt(RoundMoney(r.credit.value), r.credit.value, Rate(r)))
  }

  lemma ByOne(x: real)
    ensures Convert(x, 1.0) == x
  {
  }

  lemma WholeCentLineRestored(r: Request)
    requires WholeCents(r.debit) && WholeCents(r.credit)
    ensures LineRestored(r)
  {
  }

  lemma RateOneLineRestored(r: Request)
    requires Rate(r) == 1.0
    ensures LineRestored(r)
  {
    if r.debit.Some? {
      ByOne(r.debit.value);
      ByOne(RoundMoney(r.debit.value));
      RoundMoneyProperties(r.debit.value, 0);
    }
    if r.credit.Some? {
      ByOne(r.credit.value);
      ByOne(RoundMoney(r.credit.value));
      RoundMoneyProperties(r.credit.value, 0);
    }
  }

  /** A one-sided line slips exactly when it is not restored. */
  lemma SlipOfLine(r: Request)
    ensures LineRestored(r) ==> Slip(Write(r)) == 0.0
    ensures r.debit.None? || r.credit.None? ==> (LineRestored(r) <==> Slip(Write(r)) == 0.0)
  {
    if r.debit.Some? {
      ByOne(r.debit.value);
    }
    if r.credit.Some? {
      ByOne(r.credit.value);
    }
  }

  lemma AdjustmentSlips(account: string, base: string, debit: bool)
    ensures Slip(AdjustmentLine(account, base, debit, 0.01)) == 0.0
  {
    ByOne(0.01);
    WholeCentsAreKept(1);
    assert Amount(1) == 0.01;
  }

  lemma {:induction false} NoSlip(lines: seq<Line>, account: string)
    requires forall i | 0 <= i < |lines| :: Slip(lines[i]) == 0.0
    ensures TotalSlip(lines) == 0.0 && AccountSlip(lines, account) == 0.0
  {
    if lines == [] {
    } else {
      NoSlip(lines[1..], account);
    }
  }

  lemma PostedLinesDoNotSlip(rs: seq<Request>, roundingAccount: string, base: string)
    requires Post(rs, roundingAccount, base).Posted? && forall i | 0 <= i < |rs| :: LineRestored(rs[i])
    ensures forall i | 0 <= i < |Post(rs, roundingAccount, base).lines| ::
              Slip(Post(rs, roundingAccount, base).lines[i]) == 0.0
  {
    var lines := Post(rs, roundingAccount, base).lines;
    var d, c := TotalsAreCents(WriteAll(rs), rs);
    OutcomeInCents(d, c);
    forall i | 0 <= i < |lines| ensures Slip(lines[i]) == 0.0 {
      if i < |rs| {
        SlipOfLine(rs[i]);
      } else {
        AdjustmentSlips(roundingAccount, base, c > d);
      }
    }
  }

  /** Reversing an entry whose every line is restored at its own rate posts without
      adjustment and returns every account, the rounding account included, to where it was. */
  lemma ReversalRestores(rs: seq<Request>, roundingAccount: string, base: string, account: string)
    requires Post(rs, roundingAccount, base).Posted?
    requires forall i | 0 <= i < |rs| :: LineRestored(rs[i])
    ensures var lines := Post(rs, roundingAccount, base).lines;
            var back := Post(Reverse(lines), roundingAccount, base);
            && back.Posted? && |back.lines| == |lines|
            && AccountMovement(lines + back.lines, account) == 0.0
  {
    var lines := Post(rs, roundingAccount, base).lines;
    PostedBalances(rs, roundingAccount, base);
    PostedLinesDoNotSlip(rs, roundingAccount, base);
    NoSlip(lines, account);
    ReversalExactly(lines, roundingAccount, base, account);
  }

  /** In particular entries in whole cents, at any rates, and entries at rate one, in any amounts. */
  lemma WholeCentsOrRateOneRestored(rs: seq<Request>, roundingAccount: string, base: string, account: string)
    requires Post(rs, roundingAccount, base).Posted?
    requires forall i | 0 <= i < |rs| :: Rate(rs[i]) == 1.0 || (WholeCents(rs[i].debit) && WholeCents(rs[i].credit))
    ensures var lines := Post(rs, roundingAccount, base).lines;
            var back := Post(Reverse(lines), roundingAccount, base);
            back.Posted? && |back.lines| == |lines| && AccountMovement(lines + back.lines, account) == 0.0
  {
    forall i | 0 <= i < |rs| ensures LineRestored(rs[i]) {
      if Rate(rs[i]) == 1.0 {
        RateOneLineRestored(rs[i]);
      } else {
        WholeCentLineRestored(rs[i]);
      }
    }
    ReversalRestores(rs, roundingAccount, base, account);
  }

  // ----- Entries that are not -----

  /** A transfer of one amount between two accounts, at one rate. */
  function Transfer(from: string, to: string, d: real, rate: real, currency: string): seq<Request> {
    [Request(to, Some(d), None, currency, Some(rate)), Request(from, None, Some(d), currency, Some(rate))]
  }

  lemma TransferPosts(from: string, to: string, d: real, rate: real, currency: string, roundingAccount: string,
          base: string)
    ensures var rs := Transfer(from, to, d, rate, currency);
            Post(rs, roundingAccount, base) == Posted([Write(rs[0]), Write(rs[1])])
  {
    var rs := Transfer(from, to, d, rate, currency);
    var lines := [Write(rs[0]), Write(rs[1])];
    assert WriteAll(rs) == lines;
    TwoLines(lines[0], lines[1], to);
  }

  lemma TransferSlips(from: string, to: string, d: real, rate: real, currency: string)
    requires from != to
    ensures var rs := Transfer(from, to, d, rate, currency); var lines := [Write(rs[0]), Write(rs[1])];
            && TotalSlip(lines) == 0.0
            && AccountSlip(lines, to) == Slip(lines[0])
  {
    var rs := Transfer(from, to, d, rate, currency);
    var lines := [Write(rs[0]), Write(rs[1])];
    TwoLines(lines[0], lines[1], to);
    assert Slip(lines[1]) == -Slip(lines[0]);
  }

  /** A transfer always posts and its reversal always posts; it is undone if and only if
      the amount, stored in cents, converts as it did. */
  lemma TransferRestoredExactly(from: string, to: string, d: real, rate: real, currency: string,
                                roundingAccount: string, base: string)
    requires from != to
    ensures var posted := Post(Transfer(from, to, d, rate, currency), roundingAccount, base);
            && posted.Posted?
            && var back := Post(Reverse(posted.lines), roundingAccount, base);
               && back.Posted?
               && (AccountMovement(posted.lines + back.lines, to) == 0.0 <==> RestoredAt(RoundMoney(d), d, rate))
  {
    var rs := Transfer(from, to, d, rate, currency);
    TransferPosts(from, to, d, rate, currency, roundingAccount, base);
    TransferSlips(from, to, d, rate, currency);
    var lines := [Write(rs[0]), Write(rs[1])];
    PostedBalances(rs, roundingAccount, base);
    ReversalExactly(lines, roundingAccount, base, to);
    SlipOfLine(rs[0]);
  }

  /** A whole rate that magnifies the cents lost in storing an amount to a unit or more. */
  lemma LostCentsShow(d: real) returns (rate: nat)
    requires RoundMoney(d) != d
    ensures rate > 0 && !RestoredAt(RoundMoney(d), d, rate as real)
  {
    var kept := RoundMoney(d);
    var gap := Abs(kept - d);
    rate := (1.0 / gap).Floor + 1;
    UnitGap(kept, d, gap, rate);
    RoundingIsClose(Convert(kept, rate as real));
    RoundingIsClose(Convert(d, rate as real));
  }

  lemma UnitGap(a: real, b: real, gap: real, rate: nat)
    requires gap == Abs(a - b) > 0.0 && rate as real >= 1.0 / gap
    ensures Abs(Convert(a, rate as real) - Convert(b, rate as real)) >= 1.0
  {
    var r := rate as real;
    assert 1.0 / gap * gap == 1.0;
    GrowsWith(1.0 / gap, r, gap);
    assert r * gap >= 1.0;
    Spread(a, b, r);
    if a >= b {
      assert (a - b) * r == r * gap;
    } else {
      assert (b - a) * r == r * gap;
      Spread(b, a, r);
    }
  }

  lemma GrowsWith(x: real, y: real, gap: real)
    requires x <= y && gap > 0.0
    ensures x * gap <= y * gap
  {
    assert (y - x) * gap >= 0.0;
  }

  lemma Spread(a: real, b: real, rate: real)
    ensures Convert(a, rate) - Convert(b, rate) == (a - b) * rate
  {
  }

  predicate RestoredAtWhole(d: real, rate: nat) {
    RestoredAt(RoundMoney(d), d, rate as real)
  }

  /** A line is restored at every rate if and only if its amount is a whole number of
      cents; otherwise some whole rate shows the loss. */
  lemma RestoredAtEveryRate(d: real)
    ensures RoundMoney(d) == d ==> forall rate: real :: RestoredAt(RoundMoney(d), d, rate)
    ensures (forall rate: nat | rate > 0 :: RestoredAtWhole(d, rate)) <==> RoundMoney(d) == d
  {
    if RoundMoney(d) != d {
      var rate := LostCentsShow(d);
      assert !RestoredAtWhole(d, rate);
    }
  }

  /** An entry can post and be impossible to reverse: two debits of 10.005, stored as
      10.00 each, against a credit of 20.01, at rate 100. */
  lemma ReversalRefused(roundingAccount: string, base: string, currency: string) returns (rs: seq<Request>)
    ensures Post(rs, roundingAccount, base) == Posted(WriteAll(rs))
    ensures Post(Reverse(WriteAll(rs)), roundingAccount, base).Refused?
  {
    var d := Request("5000", Some(10.005), None, currency, Some(100.0));
    var c := Request("1000", None, Some(20.01), currency, Some(100.0));
    rs := [d, d, c];
    var x, y := Write(d), Write(c);
    var lines := [x, x, y];
    ReversalRefusedAmounts(x, y, d, c);
    assert WriteAll(rs) == lines;
    TwoLines(x, y, "5000");
    FirstLine(x, [x, y], "5000");
    assert [x] + [x, y] == lines;
    ReversalExactly(lines, roundingAccount, base, "5000");
  }

  lemma ReversalRefusedAmounts(x: Line, y: Line, d: Request, c: Request)
    requires d.debit == Some(10.005) && d.credit == None && d.fxRate == Some(100.0) && x == Write(d)
    requires c.debit == None && c.credit == Some(20.01) && c.fxRate == Some(100.0) && y == Write(c)
    ensures x.functionalDebit == Some(1000.5) && y.functionalCredit == Some(2001.0)
    ensures x.functionalCredit == None && y.functionalDebit == None
    ensures Slip(x) == 0.5 && Slip(y) == 0.0
  {
    RoundHalfEvenCharacterised(1000.5, 1000);
    RoundHalfEvenCharacterised(100050.0, 100050);
    RoundHalfEvenCharacterised(100000.0, 100000);
    RoundHalfEvenCharacterised(2001.0, 2001);
    RoundHalfEvenCharacterised(200100.0, 200100);
    assert Convert(10.005, 1.0) * 100.0 == 1000.5 && Convert(10.005, 100.0) * 100.0 == 100050.0;
    assert Convert(10.0, 100.0) * 100.0 == 100000.0;
    assert Convert(20.01, 1.0) * 100.0 == 2001.0 && Convert(20.01, 100.0) * 100.0 == 200100.0;
  }
}

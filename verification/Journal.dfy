/** The journal poster of zavora-erp-core/src/services/journal.rs: the lines it
    writes and the entries it refuses. */
module Journal {
  import opened Prelude
  import opened Money

  /** A requested line: amounts in the document currency. */
  datatype Request = Request(account: string, debit: Option<real>, credit: Option<real>, currency: string,
      fxRate: Option<real>)

  /** A written line: rounded document amounts and functional (base currency) amounts. */
  datatype Line = Line(account: string, debit: Option<real>, credit: Option<real>, currency: string, fxRate: real,
                       functionalDebit: Option<real>, functionalCredit: Option<real>)

  datatype Posting = Posted(lines: seq<Line>) | Refused(debits: real, credits: real)

  function Rate(r: Request): real {
    if r.fxRate.Some? then r.fxRate.value else 1.0
  }

  /** An amount in another currency. */
  function Convert(amount: real, rate: real): real {
    amount * rate
  }

  function MapMoney(x: Option<real>, rate: real): Option<real> {
    if x.Some? then Some(RoundMoney(Convert(x.value, rate))) else None
  }

  /** Lines 312-331: round the document amount and, separately, the functional amount. */
  function Write(r: Request): Line {
    Line(r.account, MapMoney(r.debit, 1.0), MapMoney(r.credit, 1.0), r.currency, Rate(r),
         MapMoney(r.debit, Rate(r)), MapMoney(r.credit, Rate(r)))
  }

  function WriteAll(rs: seq<Request>): (lines: seq<Line>)
    ensures |lines| == |rs| && forall i | 0 <= i < |rs| :: lines[i] == Write(rs[i])
  {
    if rs == [] then [] else [Write(rs[0])] + WriteAll(rs[1..])
  }

  function OrZero(x: Option<real>): real {
    if x.Some? then x.value else 0.0
  }

  function Debits(lines: seq<Line>): real {
    if lines == [] then 0.0 else OrZero(lines[0].functionalDebit) + Debits(lines[1..])
  }

  function Credits(lines: seq<Line>): real {
    if lines == [] then 0.0 else OrZero(lines[0].functionalCredit) + Credits(lines[1..])
  }

  function AdjustmentLine(account: string, base: string, debit: bool, amount: real): Line {
    var (d, c) := if debit then (Some(amount), None) else (None, Some(amount));
    Line(account, d, c, base, 1.0, d, c)
  }

  /** Lines 312-367: write, check the balance, absorb one cent or refuse. */
  function Post(rs: seq<Request>, roundingAccount: string, base: string): Posting {
    var lines := WriteAll(rs);
    match Outcome(Debits(lines), Credits(lines))
    case Balanced => Posted(lines)
    case Adjust(debit, amount) => Posted(lines + [AdjustmentLine(roundingAccount, base, debit, amount)])
    case Unbalanced => Refused(Debits(lines), Credits(lines))
  }

  lemma {:induction false} TotalsAppend(a: seq<Line>, b: seq<Line>)
    ensures Debits(a + b) == Debits(a) + Debits(b) && Credits(a + b) == Credits(a) + Credits(b)
  {
    if a == [] {
      assert a + b == b;
    } else {
      TotalsAppend(a[1..], b);
      assert (a + b)[1..] == a[1..] + b;
    }
  }

  /** Whatever is written balances to the cent; every requested line is in it, in
      order, with at most one line of one cent added. */
  lemma PostedBalances(rs: seq<Request>, roundingAccount: string, base: string)
    requires Post(rs, roundingAccount, base).Posted?
    ensures var lines := Post(rs, roundingAccount, base).lines;
            && Debits(lines) == Credits(lines)
            && |rs| <= |lines| <= |rs| + 1
            && (forall i | 0 <= i < |rs| :: lines[i] == Write(rs[i]))
            && (|lines| == |rs| + 1 ==>
                  lines[|rs|].account == roundingAccount &&
                  OrZero(lines[|rs|].functionalDebit) + OrZero(lines[|rs|].functionalCredit) == 0.01)
  {
    var lines := WriteAll(rs);
    var d, c := TotalsAreCents(lines, rs);
    OutcomeInCents(d, c);
    if |Post(rs, roundingAccount, base).lines| == |rs| + 1 {
      var extra := Post(rs, roundingAccount, base).lines[|rs|];
      TotalsAppend(lines, [extra]);
      assert [extra][1..] == [];
    }
  }

  /** Functional totals are whole cents. */
  lemma {:induction false} TotalsAreCents(lines: seq<Line>, rs: seq<Request>) returns (d: int, c: int)
    requires lines == WriteAll(rs)
    ensures Debits(lines) == Amount(d) && Credits(lines) == Amount(c)
  {
    if rs == [] {
      d, c := 0, 0;
    } else {
      assert lines[0] == Write(rs[0]) && lines[1..] == WriteAll(rs[1..]);
      d, c := TotalsAreCents(lines[1..], rs[1..]);
      if rs[0].debit.Some? {
        d := d + Cents(Convert(rs[0].debit.value, Rate(rs[0])));
      }
      if rs[0].credit.Some? {
        c := c + Cents(Convert(rs[0].credit.value, Rate(rs[0])));
      }
    }
  }

  // ----- Which entries are refused -----

  /** The exact base-currency amounts of an entry, debits positive and credits negative. */
  function Signed(rs: seq<Request>): seq<real> {
    if rs == [] then [] else SignedLine(rs[0]) + Signed(rs[1..])
  }

  function SignedLine(r: Request): seq<real> {
    (if r.debit.Some? then [Convert(r.debit.value, Rate(r))] else [])
    + (if r.credit.Some? then [-Convert(r.credit.value, Rate(r))] else [])
  }

  /** An entry is refused exactly when rounding its amounts one by one misses balance by two cents or more. */
  lemma RefusedExactly(rs: seq<Request>, roundingAccount: string, base: string)
    ensures Post(rs, roundingAccount, base).Refused? <==> CentsSum(Signed(rs)) >= 2 || CentsSum(Signed(rs)) <= -2
  {
    var d, c := TotalsAreCents(WriteAll(rs), rs);
    SignedResidual(rs);
    OutcomeInCents(d, c);
    assert Amount(d) - Amount(c) == Amount(d - c);
    assert Amount(d - c) * 100.0 == (d - c) as real;
    assert Amount(CentsSum(Signed(rs))) * 100.0 == CentsSum(Signed(rs)) as real;
  }

  predicate AllIn(lines: seq<Line>, active: set<string>) {
    forall i | 0 <= i < |lines| :: lines[i].account in active
  }

  /** The adjustment is written exactly when the rounded amounts do not balance. */
  lemma {:induction false} AdjustedExactly(rs: seq<Request>, roundingAccount: string, base: string)
    requires Post(rs, roundingAccount, base).Posted?
    ensures var lines := Post(rs, roundingAccount, base).lines;
            if CentsSum(Signed(rs)) == 0 then lines == WriteAll(rs)
            else exists l :: lines == WriteAll(rs) + [l] && l.account == roundingAccount
  {
    SignedResidual(rs);
    assert Amount(CentsSum(Signed(rs))) * 100.0 == CentsSum(Signed(rs)) as real;
  }

  /** When the requested accounts are active, all accounts written to are if and only if no
      adjustment is needed or the rounding account is active too. */
  lemma {:induction false} WrittenAccountsExactly(rs: seq<Request>, active: set<string>, roundingAccount: string,
          base: string)
    requires forall i | 0 <= i < |rs| :: rs[i].account in active
    requires Post(rs, roundingAccount, base).Posted?
    ensures AllIn(Post(rs, roundingAccount, base).lines, active) <==>
              CentsSum(Signed(rs)) == 0 || roundingAccount in active
  {
    var lines := Post(rs, roundingAccount, base).lines;
    AdjustedExactly(rs, roundingAccount, base);
    assert CentsSum(Signed(rs)) != 0 ==> lines[|rs|].account == roundingAccount;
  }

  /** An instance that fails: a cent against two halves of it, which are written as nothing. */
  lemma {:induction false} UnknownAccountWritten(account: string, roundingAccount: string, base: string)
    returns (rs: seq<Request>)
    requires account != roundingAccount
    ensures Sum(Signed(rs)) == 0.0 && forall i | 0 <= i < |rs| :: rs[i].account == account
    ensures Post(rs, roundingAccount, base).Posted? && !AllIn(Post(rs, roundingAccount, base).lines, {account})
  {
    var half, whole := Request(account, Some(0.005), None, base, None), Request(account, None, Some(0.01), base, None);
    rs := [half, half, whole];
    assert rs[1..] == [half, whole] && [half, whole][1..] == [whole] && [whole][1..] == [];
    assert Convert(0.005, 1.0) == 0.005 && Convert(0.01, 1.0) == 0.01;
    assert Signed([]) == [] && Signed([whole]) == [-0.01] && Signed([half, whole]) == [0.005, -0.01];
    HalvesAgainstWhole(Signed(rs));
    RefusedExactly(rs, roundingAccount, base);
    WrittenAccountsExactly(rs, {account}, roundingAccount, base);
  }

  lemma HalvesAgainstWhole(xs: seq<real>)
    requires xs == [0.005, 0.005, -0.01]
    ensures Sum(xs) == 0.0 && CentsSum(xs) == -1
  {
    RoundHalfEvenCharacterised(0.5, 0);
    RoundHalfEvenCharacterised(-1.0, -1);
    assert xs[1..] == [0.005, -0.01] && xs[1..][1..] == [-0.01] && [-0.01][1..] == [];
    assert CentsSum([-0.01]) == -1 && Sum([-0.01]) == -0.01;
  }

  lemma LineResidual(r: Request)
    ensures OrZero(Write(r).functionalDebit) - OrZero(Write(r).functionalCredit) == Amount(CentsSum(SignedLine(r)))
  {
    var d := if r.debit.Some? then [Convert(r.debit.value, Rate(r))] else [];
    var c := if r.credit.Some? then [-Convert(r.credit.value, Rate(r))] else [];
    CentsAppend(d, c);
    if r.debit.Some? {
      assert d[1..] == [];
    }
    if r.credit.Some? {
      assert c[1..] == [];
      NegatedCents(Convert(r.credit.value, Rate(r)));
    }
  }

  lemma {:induction false} SignedResidual(rs: seq<Request>)
    ensures Debits(WriteAll(rs)) - Credits(WriteAll(rs)) == Amount(CentsSum(Signed(rs)))
  {
    if rs == [] {
    } else {
      SignedResidual(rs[1..]);
      assert WriteAll(rs)[0] == Write(rs[0]) && WriteAll(rs)[1..] == WriteAll(rs[1..]);
      LineResidual(rs[0]);
      CentsAppend(SignedLine(rs[0]), Signed(rs[1..]));
    }
  }

  /** An entry whose exact amounts balance posts whenever it has at most three of
      them, and never misses balance by more than MaxResidual cents. */
  lemma BalancedEntryResidual(rs: seq<Request>, roundingAccount: string, base: string)
    requires Sum(Signed(rs)) == 0.0
    ensures var n := |Signed(rs)|;
            && -MaxResidual(n) <= CentsSum(Signed(rs)) <= MaxResidual(n)
            && (n <= 3 ==> Post(rs, roundingAccount, base).Posted?)
  {
    ResidualBound(Signed(rs));
    RefusedExactly(rs, roundingAccount, base);
  }

  /** Four amounts suffice: three debits of 1.5 cents, each written as 2, against a credit of 4.5, written as 4. */
  lemma ThreeAgainstOneRefused(d: Request, c: Request, roundingAccount: string, base: string)
    requires d.debit.Some? && d.credit.None? && Convert(d.debit.value, Rate(d)) == 0.015
    requires c.debit.None? && c.credit.Some? && Convert(c.credit.value, Rate(c)) == 0.045
    ensures Post([d, d, d, c], roundingAccount, base).Refused?
  {
    assert [d, d, d, c][1..] == [d, d, c] && [d, d, c][1..] == [d, c] && [d, c][1..] == [c] && [c][1..] == [];
    assert Signed([]) == [] && Signed([c]) == [-0.045] && Signed([d, c]) == [0.015, -0.045];
    assert Signed([d, d, c]) == [0.015, 0.015, -0.045] && Signed([d, d, d, c]) == [0.015, 0.015, 0.015, -0.045];
    RoundHalfEvenCharacterised(1.5, 2);
    RoundHalfEvenCharacterised(-4.5, -4);
    CentsAppend([0.015], [0.015, 0.015, -0.045]);
    CentsAppend([0.015], [0.015, -0.045]);
    CentsAppend([0.015], [-0.045]);
    assert CentsSum([0.015]) == 2 && CentsSum([-0.045]) == -4;
    assert [0.015] + [-0.045] == [0.015, -0.045] && [0.015] + [0.015, -0.045] == [0.015, 0.015, -0.045];
    assert [0.015] + [0.015, 0.015, -0.045] == [0.015, 0.015, 0.015, -0.045];
    RefusedExactly([d, d, d, c], roundingAccount, base);
  }

  // ----- Totals in the document currency -----

  function DebitTotal(rs: seq<Request>): real {
    if rs == [] then 0.0 else OrZero(rs[0].debit) + DebitTotal(rs[1..])
  }

  function CreditTotal(rs: seq<Request>): real {
    if rs == [] then 0.0 else OrZero(rs[0].credit) + CreditTotal(rs[1..])
  }

  /** What is debited to one account. */
  function DebitTo(rs: seq<Request>, account: string): real {
    if rs == [] then 0.0
    else
      (if rs[0].account == account then OrZero(rs[0].debit) else 0.0)
      + DebitTo(rs[1..], account)
  }

  /** What is credited to one account. */
  function CreditTo(rs: seq<Request>, account: string): real {
    if rs == [] then 0.0
    else
      (if rs[0].account == account then OrZero(rs[0].credit) else 0.0)
      + CreditTo(rs[1..], account)
  }

  lemma {:induction false} RequestTotalsAppend(a: seq<Request>, r: Request)
    ensures DebitTotal(a + [r]) == DebitTotal(a) + OrZero(r.debit)
    ensures CreditTotal(a + [r]) == CreditTotal(a) + OrZero(r.credit)
    ensures forall account ::
              DebitTo(a + [r], account) == DebitTo(a, account) + (if r.account == account then OrZero(r.debit) else 0.0)
    ensures forall account ::
              CreditTo(a + [r], account) ==
                CreditTo(a, account) + (if r.account == account then OrZero(r.credit) else 0.0)
  {
    if a == [] {
      assert (a + [r])[1..] == [];
    } else {
      RequestTotalsAppend(a[1..], r);
      assert (a + [r])[1..] == a[1..] + [r];
    }
  }

  // ----- Whole cents -----

  predicate WholeCents(x: Option<real>) {
    x.Some? ==> RoundMoney(x.value) == x.value
  }

  /** The line that repeats a request, in the document currency and the base currency. */
  function AsRequested(r: Request): Line {
    Line(r.account, r.debit, r.credit, r.currency, 1.0, r.debit, r.credit)
  }

  /** At rate one, whole-cent requests are written as they are. */
  lemma {:induction false} WholeCentTotals(rs: seq<Request>)
    requires forall i | 0 <= i < |rs| :: rs[i].fxRate == Some(1.0)
    requires forall i | 0 <= i < |rs| :: WholeCents(rs[i].debit) && WholeCents(rs[i].credit)
    ensures |WriteAll(rs)| == |rs| && forall i | 0 <= i < |rs| :: WriteAll(rs)[i] == AsRequested(rs[i])
    ensures Debits(WriteAll(rs)) == DebitTotal(rs) && Credits(WriteAll(rs)) == CreditTotal(rs)
  {
    if rs == [] {
    } else {
      WholeCentTotals(rs[1..]);
      assert WriteAll(rs)[0] == Write(rs[0]) && WriteAll(rs)[1..] == WriteAll(rs[1..]);
      assert WholeCents(rs[0].debit) && WholeCents(rs[0].credit);
    }
  }
}

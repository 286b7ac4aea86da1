/** The opening trial balance of zavora-erp-api/src/routes/onboarding.rs. */
module OpeningBalances {
  import opened Prelude
  import opened Money
  import opened Journal

  datatype Input = Input(account: string, debit: Option<real>, credit: Option<real>)

  datatype Result =
    | Entry(lines: seq<Request>, totalDebit: real, totalCredit: real)
    | TooFewAccounts
    | DoesNotBalance(difference: real)

  predicate IsBlank(l: Input) {
    OrZero(l.debit) == 0.0 && OrZero(l.credit) == 0.0
  }

  function PositivePart(x: Option<real>): Option<real> {
    if OrZero(x) > 0.0 then x else None
  }

  function Emit(l: Input, base: string): Request {
    Request(l.account, PositivePart(l.debit), PositivePart(l.credit), base, Some(1.0))
  }

  // ----- Reference sums over the input -----

  function SumDebits(ls: seq<Input>): real {
    if ls == [] then 0.0 else SumDebits(ls[..|ls| - 1]) + OrZero(ls[|ls| - 1].debit)
  }

  function SumCredits(ls: seq<Input>): real {
    if ls == [] then 0.0 else SumCredits(ls[..|ls| - 1]) + OrZero(ls[|ls| - 1].credit)
  }

  function NonBlank(ls: seq<Input>): nat {
    if ls == [] then 0 else NonBlank(ls[..|ls| - 1]) + (if IsBlank(ls[|ls| - 1]) then 0 else 1)
  }

  /** The amounts that lines drop because they are negative. */
  function NegativeDebits(ls: seq<Input>): real {
    if ls == [] then 0.0
    else
      NegativeDebits(ls[..|ls| - 1])
      + (if OrZero(ls[|ls| - 1].debit) < 0.0 then -OrZero(ls[|ls| - 1].debit) else 0.0)
  }

  function NegativeCredits(ls: seq<Input>): real {
    if ls == [] then 0.0
    else
      NegativeCredits(ls[..|ls| - 1])
      + (if OrZero(ls[|ls| - 1].credit) < 0.0 then -OrZero(ls[|ls| - 1].credit) else 0.0)
  }

  predicate NonNegative(ls: seq<Input>) {
    forall i | 0 <= i < |ls| :: OrZero(ls[i].debit) >= 0.0 && OrZero(ls[i].credit) >= 0.0
  }

  /** The journal lines of the non-blank inputs, in order. */
  function Emitted(ls: seq<Input>, base: string): seq<Request> {
    if ls == [] then []
    else
      var before := Emitted(ls[..|ls| - 1], base);
      if IsBlank(ls[|ls| - 1]) then before else before + [Emit(ls[|ls| - 1], base)]
  }

  /** `post_opening_balances`, up to handing the entry to the poster. */
  method BuildEntry(ls: seq<Input>, base: string) returns (result: Result)
    ensures result.TooFewAccounts? <==> NonBlank(ls) < 2
    ensures result.Entry? <==> NonBlank(ls) >= 2 && Abs(SumDebits(ls) - SumCredits(ls)) < 0.01
    ensures result.DoesNotBalance? ==> result.difference == SumDebits(ls) - SumCredits(ls)
    ensures result.Entry? ==>
              result == Entry(Emitted(ls, base), SumDebits(ls), SumCredits(ls)) && |result.lines| == NonBlank(ls)
  {
    var lines: seq<Request> := [];
    var totalDebit, totalCredit := 0.0, 0.0;
    for n := 0 to |ls|
      invariant totalDebit == SumDebits(ls[..n]) && totalCredit == SumCredits(ls[..n])
      invariant lines == Emitted(ls[..n], base) && |lines| == NonBlank(ls[..n])
    {
      assert ls[..n + 1][..n] == ls[..n];
      var debit, credit := OrZero(ls[n].debit), OrZero(ls[n].credit);
      if debit == 0.0 && credit == 0.0 {
        continue;
      }
      totalDebit, totalCredit := totalDebit + debit, totalCredit + credit;
      lines := lines + [Emit(ls[n], base)];
    }
    assert ls[..|ls|] == ls;
    if |lines| < 2 {
      return TooFewAccounts;
    }
    var difference := totalDebit - totalCredit;
    if Abs(difference) >= 0.01 {
      return DoesNotBalance(difference);
    }
    return Entry(lines, totalDebit, totalCredit);
  }

  // ----- What acceptance guarantees -----

  /** What is emitted exceeds what is checked by the negative amounts, which are counted but dropped. */
  lemma {:induction false} EmittedTotals(ls: seq<Input>, base: string)
    ensures DebitTotal(Emitted(ls, base)) == SumDebits(ls) + NegativeDebits(ls)
    ensures CreditTotal(Emitted(ls, base)) == SumCredits(ls) + NegativeCredits(ls)
  {
    if ls == [] {
    } else {
      EmittedTotals(ls[..|ls| - 1], base);
      RequestTotalsAppend(Emitted(ls[..|ls| - 1], base), Emit(ls[|ls| - 1], base));
    }
  }

  /** The positive debits of one account over the inputs. */
  function DebitsOf(ls: seq<Input>, account: string): real {
    if ls == [] then 0.0
    else
      var l := ls[|ls| - 1];
      DebitsOf(ls[..|ls| - 1], account)
      + if l.account == account && l.debit.Some? && l.debit.value > 0.0 then l.debit.value else 0.0
  }

  function CreditsOf(ls: seq<Input>, account: string): real {
    if ls == [] then 0.0
    else
      var l := ls[|ls| - 1];
      CreditsOf(ls[..|ls| - 1], account)
      + if l.account == account && l.credit.Some? && l.credit.value > 0.0 then l.credit.value else 0.0
  }

  /** Each account is debited and credited with its own positive amounts, in base currency at rate one,
      and no other amount is emitted. */
  lemma {:induction false} EmittedPerAccount(ls: seq<Input>, base: string, account: string)
    ensures DebitTo(Emitted(ls, base), account) == DebitsOf(ls, account)
    ensures CreditTo(Emitted(ls, base), account) == CreditsOf(ls, account)
    ensures forall r | r in Emitted(ls, base) ::
              && r.currency == base && r.fxRate == Some(1.0)
              && (r.debit.Some? ==> r.debit.value > 0.0) && (r.credit.Some? ==> r.credit.value > 0.0)
  {
    if ls == [] {
    } else {
      EmittedPerAccount(ls[..|ls| - 1], base, account);
      RequestTotalsAppend(Emitted(ls[..|ls| - 1], base), Emit(ls[|ls| - 1], base));
    }
  }

  lemma {:induction false} NoNegativesDropped(ls: seq<Input>)
    ensures NegativeDebits(ls) >= 0.0 && NegativeCredits(ls) >= 0.0
    ensures NegativeDebits(ls) == 0.0 && NegativeCredits(ls) == 0.0 <==> NonNegative(ls)
  {
    if ls == [] {
    } else {
      NoNegativesDropped(ls[..|ls| - 1]);
    }
  }

  /** The totals checked are the totals emitted if and only if no amount is negative. */
  lemma NothingDroppedExactly(ls: seq<Input>, base: string)
    ensures DebitTotal(Emitted(ls, base)) == SumDebits(ls) && CreditTotal(Emitted(ls, base)) == SumCredits(ls) <==>
              NonNegative(ls)
  {
    EmittedTotals(ls, base);
    NoNegativesDropped(ls);
  }

  /** What the opening misses balance by, in cents, once each of its amounts is rounded. */
  function RoundedDifference(ls: seq<Input>): int {
    if ls == [] then 0
    else
      var l := ls[|ls| - 1];
      RoundedDifference(ls[..|ls| - 1]) + Cents(OrZero(PositivePart(l.debit))) - Cents(OrZero(PositivePart(l.credit)))
  }

  lemma ZeroCents()
    ensures Cents(0.0) == 0
  {
    RoundHalfEvenCharacterised(0.0 * 100.0, 0);
  }

  lemma SignedEmit(l: Input, base: string)
    ensures CentsSum(Signed([Emit(l, base)])) ==
              Cents(OrZero(PositivePart(l.debit))) - Cents(OrZero(PositivePart(l.credit)))
  {
    var r := Emit(l, base);
    assert [r][1..] == [] && Signed([]) == [];
    var d := if r.debit.Some? then [Convert(r.debit.value, 1.0)] else [];
    var c := if r.credit.Some? then [-Convert(r.credit.value, 1.0)] else [];
    assert Signed([r]) == d + c;
    ZeroCents();
    CentsAppend(d, c);
    if r.credit.Some? {
      NegatedCents(r.credit.value);
      assert c[1..] == [];
    }
    if r.debit.Some? {
      assert d[1..] == [];
    }
  }

  lemma Associates(a: seq<real>, b: seq<real>, c: seq<real>)
    ensures a + (b + c) == a + b + c
  {
  }

  lemma {:induction false} SignedAppend(rs: seq<Request>, r: Request)
    ensures Signed(rs + [r]) == Signed(rs) + Signed([r])
  {
    if rs == [] {
      assert rs + [r] == [r];
    } else {
      var more := rs + [r];
      assert more[0] == rs[0] && more[1..] == rs[1..] + [r];
      SignedAppend(rs[1..], r);
      Associates(SignedLine(rs[0]), Signed(rs[1..]), Signed([r]));
    }
  }

  lemma {:induction false} EmittedResidual(ls: seq<Input>, base: string)
    ensures CentsSum(Signed(Emitted(ls, base))) == RoundedDifference(ls)
  {
    if ls == [] {
    } else {
      var before, l := ls[..|ls| - 1], ls[|ls| - 1];
      EmittedResidual(before, base);
      if IsBlank(l) {
        ZeroCents();
      } else {
        SignedAppend(Emitted(before, base), Emit(l, base));
        CentsAppend(Signed(Emitted(before, base)), Signed([Emit(l, base)]));
        SignedEmit(l, base);
      }
    }
  }

  /** What is emitted posts if and only if the amounts, each rounded to cents, balance to within one cent. */
  lemma OpeningPostsExactly(ls: seq<Input>, roundingAccount: string, base: string)
    ensures Post(Emitted(ls, base), roundingAccount, base).Posted? <==> -1 <= RoundedDifference(ls) <= 1
  {
    EmittedResidual(ls, base);
    RefusedExactly(Emitted(ls, base), roundingAccount, base);
  }

  lemma {:induction false} EmittedAreWhole(ls: seq<Input>, base: string)
    requires forall i | 0 <= i < |ls| :: WholeCents(ls[i].debit) && WholeCents(ls[i].credit)
    ensures forall i | 0 <= i < |Emitted(ls, base)| ::
              var r := Emitted(ls, base)[i]; r.fxRate == Some(1.0) && WholeCents(r.debit) && WholeCents(r.credit)
  {
    if ls == [] {
    } else {
      var before := ls[..|ls| - 1];
      assert forall i | 0 <= i < |before| :: before[i] == ls[i];
      EmittedAreWhole(before, base);
      assert WholeCents(ls[|ls| - 1].debit) && WholeCents(ls[|ls| - 1].credit);
    }
  }

  /** An accepted opening of non-negative whole-cent amounts posts as emitted, with no adjustment. */
  lemma WholeCentOpeningPosts(ls: seq<Input>, roundingAccount: string, base: string)
    requires NonNegative(ls) && Abs(SumDebits(ls) - SumCredits(ls)) < 0.01
    requires forall i | 0 <= i < |ls| :: WholeCents(ls[i].debit) && WholeCents(ls[i].credit)
    ensures Post(Emitted(ls, base), roundingAccount, base) == Posted(WriteAll(Emitted(ls, base)))
  {
    var lines := Emitted(ls, base);
    NothingDroppedExactly(ls, base);
    EmittedAreWhole(ls, base);
    WholeCentTotals(lines);
    var d, c := TotalsAreCents(WriteAll(lines), lines);
    OutcomeInCents(d, c);
    assert (Amount(d) - Amount(c)) * 100.0 == (d - c) as real;
  }

  lemma InputSums(ls: seq<Input>, l: Input)
    ensures SumDebits(ls + [l]) == SumDebits(ls) + OrZero(l.debit)
    ensures SumCredits(ls + [l]) == SumCredits(ls) + OrZero(l.credit)
    ensures NonBlank(ls + [l]) == NonBlank(ls) + (if IsBlank(l) then 0 else 1)
  {
    assert (ls + [l])[..|ls|] == ls;
  }

  lemma EmittedOne(ls: seq<Input>, l: Input, base: string)
    requires !IsBlank(l)
    ensures Emitted(ls + [l], base) == Emitted(ls, base) + [Emit(l, base)]
  {
    assert (ls + [l])[..|ls|] == ls;
  }

  /** Below a cent, acceptance is not enough: three debits of 0.015 against 0.045
      balance exactly, and the poster refuses them after rounding each. */
  lemma SubCentOpeningRefused(roundingAccount: string, base: string) returns (ls: seq<Input>)
    ensures NonNegative(ls) && NonBlank(ls) == 4 && SumDebits(ls) == SumCredits(ls)
    ensures Post(Emitted(ls, base), roundingAccount, base).Refused?
  {
    var x, y := Input("1000", Some(0.015), None), Input("3000", None, Some(0.045));
    ls := [] + [x] + [x] + [x] + [y];
    InputSums([], x);
    InputSums([] + [x], x);
    InputSums([] + [x] + [x], x);
    InputSums([] + [x] + [x] + [x], y);
    SubCentEmits(x, y, base);
    var d, c := Emit(x, base), Emit(y, base);
    assert Convert(0.015, 1.0) == 0.015 && Convert(0.045, 1.0) == 0.045;
    ThreeAgainstOneRefused(d, c, roundingAccount, base);
  }

  lemma SubCentEmits(x: Input, y: Input, base: string)
    requires !IsBlank(x) && !IsBlank(y)
    ensures Emitted([] + [x] + [x] + [x] + [y], base) == [Emit(x, base), Emit(x, base), Emit(x, base), Emit(y, base)]
  {
    EmittedOne([], x, base);
    EmittedOne([] + [x], x, base);
    EmittedOne([] + [x] + [x], x, base);
    EmittedOne([] + [x] + [x] + [x], y, base);
  }
}

/** Rounding policy and tolerance of zavora-erp-core/src/money.rs. An amount is
    an exact decimal, held here as a real. */
module Money {

  function Abs(x: real): real {
    if x < 0.0 then -x else x
  }

  /** The nearest integer, the even one of two equally near. */
  function RoundHalfEven(x: real): int {
    var low := x.Floor;
    var rest := x - low as real;
    if rest < 0.5 then low
    else if rest > 0.5 then low + 1
    else if low % 2 == 0 then low else low + 1
  }

  /** The rounded amount as a whole number of cents. */
  function Cents(x: real): int {
    RoundHalfEven(x * 100.0)
  }

  function Amount(cents: int): real {
    cents as real / 100.0
  }

  /** `round_money`: two decimal places, half to even. */
  function RoundMoney(x: real): real {
    Amount(Cents(x))
  }

  /** `round_paye`: whole shillings, half to even. */
  function RoundPaye(x: real): real {
    RoundHalfEven(x) as real
  }

  const ROUNDING_TOLERANCE: real := 0.01

  datatype RoundingOutcome = Balanced | Adjust(debit: bool, amount: real) | Unbalanced

  /** `rounding_outcome`. */
  function Outcome(totalDebits: real, totalCredits: real): RoundingOutcome {
    var diff := totalDebits - totalCredits;
    if diff == 0.0 then Balanced
    else if Abs(diff) <= ROUNDING_TOLERANCE then Adjust(diff < 0.0, Abs(diff))
    else Unbalanced
  }

  // ----- Rounding one amount -----

  /** The definition of rounding half to even, free of any way to compute it. */
  predicate IsHalfEven(x: real, n: int) {
    && -0.5 <= x - n as real <= 0.5
    && (Abs(x - n as real) == 0.5 ==> n % 2 == 0)
  }

  /** RoundHalfEven meets that definition, and nothing else does. */
  lemma RoundHalfEvenCharacterised(x: real, n: int)
    ensures IsHalfEven(x, n) <==> n == RoundHalfEven(x)
  {
    var low := x.Floor;
    if IsHalfEven(x, n) {
      assert n == low || n == low + 1;
    }
  }

  lemma RoundsSymmetrically(x: real)
    ensures RoundHalfEven(-x) == -RoundHalfEven(x)
  {
    RoundHalfEvenCharacterised(x, RoundHalfEven(x));
    RoundHalfEvenCharacterised(-x, -RoundHalfEven(x));
  }

  lemma RoundsMonotonically(x: real, y: real)
    requires x <= y
    ensures RoundHalfEven(x) <= RoundHalfEven(y)
  {
    RoundHalfEvenCharacterised(x, RoundHalfEven(x));
    RoundHalfEvenCharacterised(y, RoundHalfEven(y));
  }

  lemma WholeCentsAreKept(c: int)
    ensures Cents(Amount(c)) == c && RoundMoney(Amount(c)) == Amount(c)
  {
    assert Amount(c) * 100.0 == c as real;
    RoundHalfEvenCharacterised(Amount(c) * 100.0, c);
  }

  lemma RoundingIsClose(x: real)
    ensures Abs(RoundMoney(x) - x) <= 0.005
  {
    var y := x * 100.0;
    RoundHalfEvenCharacterised(y, Cents(x));
    assert Abs(Cents(x) as real - y) <= 0.5;
  }

  /** Rounding money keeps whole cents, is within half a cent, and commutes with sign. */
  lemma RoundMoneyProperties(x: real, c: int)
    ensures RoundMoney(Amount(c)) == Amount(c)
    ensures Abs(RoundMoney(x) - x) <= 0.005
    ensures RoundMoney(-x) == -RoundMoney(x)
    ensures RoundMoney(RoundMoney(x)) == RoundMoney(x)
  {
    WholeCentsAreKept(c);
    WholeCentsAreKept(Cents(x));
    RoundingIsClose(x);
    NegatedCents(x);
  }

  /** Rounded PAYE is whole shillings within half a shilling, and more tax never rounds to less. */
  lemma PayeProperties(x: real, y: real)
    ensures RoundPaye(x) == RoundPaye(x).Floor as real
    ensures Abs(RoundPaye(x) - x) <= 0.5
    ensures x <= y ==> RoundPaye(x) <= RoundPaye(y)
  {
    RoundHalfEvenCharacterised(x, RoundHalfEven(x));
    if x <= y {
      RoundsMonotonically(x, y);
    }
  }

  // ----- Rounding many amounts that balance -----

  function Sum(xs: seq<real>): real {
    if xs == [] then 0.0 else xs[0] + Sum(xs[1..])
  }

  function CentsSum(xs: seq<real>): int {
    if xs == [] then 0 else Cents(xs[0]) + CentsSum(xs[1..])
  }

  lemma NegatedCents(x: real)
    ensures Cents(-x) == -Cents(x)
  {
    RoundsSymmetrically(x * 100.0);
    assert (-x) * 100.0 == -(x * 100.0);
  }

  lemma {:induction false} CentsAppend(a: seq<real>, b: seq<real>)
    ensures CentsSum(a + b) == CentsSum(a) + CentsSum(b) && Sum(a + b) == Sum(a) + Sum(b)
  {
    if a == [] {
      assert a + b == b;
    } else {
      CentsAppend(a[1..], b);
      assert (a + b)[1..] == a[1..] + b;
    }
  }

  /** The largest residual, in cents, that rounding n balanced amounts can leave:
      half of them, except that it cannot be odd when every amount would have to be a tie. */
  function MaxResidual(n: nat): int {
    if n % 4 == 2 then n / 2 - 1 else n / 2
  }

  lemma {:induction false} ErrorsAccumulate(xs: seq<real>)
    ensures -(|xs| as real) / 2.0 <= CentsSum(xs) as real - Sum(xs) * 100.0 <= (|xs| as real) / 2.0
  {
    if xs == [] {
    } else {
      ErrorsAccumulate(xs[1..]);
      RoundHalfEvenCharacterised(xs[0] * 100.0, Cents(xs[0]));
    }
  }

  /** When the error is as large as it can be, every amount was a tie, so every rounded amount is even. */
  lemma {:induction false} ExtremeIsEven(xs: seq<real>, up: bool)
    requires CentsSum(xs) as real - Sum(xs) * 100.0 == (if up then 1.0 else -1.0) * (|xs| as real) / 2.0
    ensures CentsSum(xs) % 2 == 0
  {
    if xs == [] {
    } else {
      ErrorsAccumulate(xs[1..]);
      RoundHalfEvenCharacterised(xs[0] * 100.0, Cents(xs[0]));
      ExtremeIsEven(xs[1..], up);
    }
  }

  lemma WithinHalf(c: int, n: nat)
    requires -(n as real) / 2.0 <= c as real <= n as real / 2.0
    ensures -(n / 2) <= c <= n / 2
  {
    assert -(n as real) <= (2 * c) as real <= n as real;
  }

  lemma NotExtreme(xs: seq<real>)
    requires Sum(xs) == 0.0 && |xs| % 4 == 2
    ensures CentsSum(xs) != |xs| / 2 && CentsSum(xs) != -(|xs| / 2)
  {
    var n, c := |xs|, CentsSum(xs);
    if c == n / 2 || c == -(n / 2) {
      assert (2 * c) as real == (if c > 0 then n else -n) as real;
      ExtremeIsEven(xs, c > 0);
    }
  }

  lemma ResidualCases(c: int, n: nat)
    requires -(n / 2) <= c <= n / 2 && (n % 4 == 2 ==> c != n / 2 && c != -(n / 2))
    ensures -MaxResidual(n) <= c <= MaxResidual(n)
  {
  }

  /** If n exact amounts sum to zero, their rounded values miss zero by at most MaxResidual(n) cents. */
  lemma ResidualBound(xs: seq<real>)
    requires Sum(xs) == 0.0
    ensures -MaxResidual(|xs|) <= CentsSum(xs) <= MaxResidual(|xs|)
  {
    ErrorsAccumulate(xs);
    WithinHalf(CentsSum(xs), |xs|);
    if |xs| % 4 == 2 {
      NotExtreme(xs);
    }
    ResidualCases(CentsSum(xs), |xs|);
  }

  /** An amount with at most three decimal places, the third of them 0 or 5. */
  predicate HalfCents(x: real) {
    x * 200.0 == (x * 200.0).Floor as real
  }

  /** `n` amounts of half a cent, each rounded away. */
  function HalfCentsDown(n: nat): seq<real> {
    if n == 0 then [] else [-0.005] + HalfCentsDown(n - 1)
  }

  lemma {:induction false} HalfCentsDownSums(n: nat)
    ensures |HalfCentsDown(n)| == n && CentsSum(HalfCentsDown(n)) == 0
    ensures Sum(HalfCentsDown(n)) * 200.0 == -(n as real)
    ensures forall x | x in HalfCentsDown(n) :: HalfCents(x)
  {
    if n == 0 {
    } else {
      HalfCentsDownSums(n - 1);
      RoundHalfEvenCharacterised(-0.5, 0);
      assert Cents(-0.005) == 0;
    }
  }

  /** `m` cents, or for even `m` the tie just below, round to `m`. */
  lemma LastRounds(m: int, tie: bool)
    requires tie ==> m % 2 == 0
    ensures var x := if tie then Amount(m) - 0.005 else Amount(m);
            Cents(x) == m && HalfCents(x) && x * 200.0 == (if tie then 2 * m - 1 else 2 * m) as real
  {
    var x := if tie then Amount(m) - 0.005 else Amount(m);
    var y := x * 100.0;
    assert y == if tie then m as real - 0.5 else m as real;
    RoundHalfEvenCharacterised(y, m);
    WholeIsFloor(x * 200.0, if tie then 2 * m - 1 else 2 * m);
  }

  lemma WholeIsFloor(y: real, k: int)
    requires y == k as real
    ensures y == y.Floor as real
  {
  }

  lemma AppendOne(xs: seq<real>, x: real)
    ensures Sum(xs + [x]) == Sum(xs) + x && CentsSum(xs + [x]) == CentsSum(xs) + Cents(x)
  {
    CentsAppend(xs, [x]);
    assert [x][1..] == [];
  }

  /** `m` cents against as many half cents as it takes, one fewer with a tie. */
  lemma DownAgainst(m: nat, tie: bool) returns (xs: seq<real>)
    requires tie ==> m > 0 && m % 2 == 0
    ensures |xs| == (if tie then 2 * m else 2 * m + 1)
    ensures Sum(xs) == 0.0 && CentsSum(xs) == m
    ensures forall x | x in xs :: HalfCents(x)
  {
    var k := if tie then 2 * m - 1 else 2 * m;
    var last := if tie then Amount(m) - 0.005 else Amount(m);
    LastRounds(m, tie);
    HalfCentsDownSums(k);
    AppendOne(HalfCentsDown(k), last);
    xs := HalfCentsDown(k) + [last];
  }

  lemma WithZero(xs: seq<real>) returns (ys: seq<real>)
    requires forall x | x in xs :: HalfCents(x)
    ensures |ys| == |xs| + 1 && Sum(ys) == Sum(xs) && CentsSum(ys) == CentsSum(xs)
    ensures forall y | y in ys :: HalfCents(y)
  {
    LastRounds(0, false);
    AppendOne(xs, Amount(0));
    ys := xs + [Amount(0)];
  }

  /** The residual for `n` amounts, and whether it takes a tie. */
  lemma SizeFor(n: nat) returns (m: nat, tie: bool)
    ensures m == MaxResidual(n)
    ensures tie <==> n > 0 && n % 4 == 0
    ensures tie ==> m > 0 && m % 2 == 0 && n == 2 * m
    ensures n > 0 && !tie ==> n == 2 * m + 1 + if n % 4 == 2 then 1 else 0
  {
    m, tie := MaxResidual(n), n > 0 && n % 4 == 0;
    assert n == n / 4 * 4 + n % 4;
  }

  /** The bound is attained, for every number of amounts, in half cents. */
  lemma ResidualAttained(n: nat) returns (xs: seq<real>)
    ensures |xs| == n && Sum(xs) == 0.0 && CentsSum(xs) == MaxResidual(n)
    ensures forall x | x in xs :: HalfCents(x)
  {
    var m, tie := SizeFor(n);
    if n == 0 {
      xs := [];
    } else {
      xs := DownAgainst(m, tie);
      if n % 4 == 2 {
        xs := WithZero(xs);
      }
    }
  }

  // ----- The tolerance -----

  /** Whole-cent totals are refused exactly when they differ by two cents or more. */
  lemma OutcomeInCents(debits: int, credits: int)
    ensures Outcome(Amount(debits), Amount(credits)) ==
              if debits == credits then Balanced
              else if debits == credits + 1 then Adjust(false, 0.01)
              else if credits == debits + 1 then Adjust(true, 0.01)
              else Unbalanced
  {
    assert (Amount(debits) - Amount(credits)) * 100.0 == (debits - credits) as real;
  }
}

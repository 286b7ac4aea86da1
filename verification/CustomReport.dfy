/** The custom-report evaluator of zavora-erp-api/src/routes/custom_reports.rs. */
module CustomReport {
  import opened Prelude

  /** A journal line as the movement query sees it. */
  datatype Posting = Posting(account: string, date: int, debit: real, credit: real)

  datatype RowDef =
    | Accounts(key: string, fromCode: string, toCode: string, creditNatural: bool)
    | Subtotal(key: string, refs: seq<string>)
    | Header(key: string)

  /** Account code order, as the database collates it. */
  type CodeOrder = (string, string) -> bool

  type Amounts = map<string, real>

  function InRange(le: CodeOrder, p: Posting, r: RowDef): bool
    requires r.Accounts?
  {
    le(r.fromCode, p.account) && le(p.account, r.toCode)
  }

  /** The query: debits less credits of the lines dated and coded within bounds. */
  function Movement(le: CodeOrder, ledger: seq<Posting>, r: RowDef, from: int, to: int): real
    requires r.Accounts?
  {
    if ledger == [] then 0.0
    else
      var p := ledger[|ledger| - 1];
      Movement(le, ledger[..|ledger| - 1], r, from, to)
      + (if from <= p.date <= to && InRange(le, p, r) then p.debit - p.credit else 0.0)
  }

  /** An account row's amount, in the sign the row asks for. */
  function Leaf(le: CodeOrder, ledger: seq<Posting>, r: RowDef, from: int, to: int): real
    requires r.Accounts?
  {
    var movement := Movement(le, ledger, r, from, to);
    if r.creditNatural then -movement else movement
  }

  function Lookup(amounts: Amounts, key: string): real {
    if key in amounts then amounts[key] else 0.0
  }

  function SumRefs(amounts: Amounts, refs: seq<string>): real {
    if refs == [] then 0.0 else SumRefs(amounts, refs[..|refs| - 1]) + Lookup(amounts, refs[|refs| - 1])
  }

  // ----- The meaning of a definition, row by row, with no map -----

  /** The last row before `n` that sets `key`; headers set nothing. */
  function LastSetter(rows: seq<RowDef>, n: nat, key: string): Option<nat>
    requires n <= |rows|
    ensures LastSetter(rows, n, key).Some? ==>
              var j := LastSetter(rows, n, key).value; j < n && !rows[j].Header? && rows[j].key == key
  {
    if n == 0 then None
    else if !rows[n - 1].Header? && rows[n - 1].key == key then Some(n - 1)
    else LastSetter(rows, n - 1, key)
  }

  /** How often the leaf row `j` is counted in row `i`, once every subtotal is unfolded. */
  function Coefficient(rows: seq<RowDef>, i: nat, j: nat): int
    requires i < |rows|
    decreases i, 1, 0
  {
    match rows[i]
    case Accounts(_, _, _, _) => if i == j then 1 else 0
    case Subtotal(_, refs) => RefsCoefficient(rows, i, refs, j)
    case Header(_) => 0
  }

  function RefsCoefficient(rows: seq<RowDef>, i: nat, refs: seq<string>, j: nat): int
    requires i < |rows|
    decreases i, 0, |refs|
  {
    if refs == [] then 0
    else
      RefsCoefficient(rows, i, refs[..|refs| - 1], j)
      + (match LastSetter(rows, i, refs[|refs| - 1])
         case Some(s) => Coefficient(rows, s, j)
         case None => 0)
  }

  function LeafAmount(le: CodeOrder, ledger: seq<Posting>, rows: seq<RowDef>, j: nat, from: int, to: int): real
    requires j < |rows|
  {
    if rows[j].Accounts? then Leaf(le, ledger, rows[j], from, to) else 0.0
  }

  function Scale(k: int, x: real): real {
    k as real * x
  }

  /** The coefficient sum of row `i` over the first `n` rows. */
  function Combination(le: CodeOrder, ledger: seq<Posting>, rows: seq<RowDef>, i: nat, n: nat, from: int, to: int): real
    requires i < |rows| && n <= |rows|
  {
    if n == 0 then 0.0
    else
      Combination(le, ledger, rows, i, n - 1, from, to)
      + Scale(Coefficient(rows, i, n - 1), LeafAmount(le, ledger, rows, n - 1, from, to))
  }

  function RefsCombination(le: CodeOrder, ledger: seq<Posting>, rows: seq<RowDef>, i: nat, refs: seq<string>, n: nat,
          from: int, to: int): real
    requires i < |rows| && n <= |rows|
  {
    if n == 0 then 0.0
    else RefsCombination(le, ledger, rows, i, refs, n - 1, from, to)
         + Scale(RefsCoefficient(rows, i, refs, n - 1), LeafAmount(le, ledger, rows, n - 1, from, to))
  }

  /** The amount a row should show: none for a header, else its coefficient sum. */
  function Expected(le: CodeOrder, ledger: seq<Posting>, rows: seq<RowDef>, i: nat, from: int, to: int): Option<real>
    requires i < |rows|
  {
    if rows[i].Header? then None else Some(Combination(le, ledger, rows, i, |rows|, from, to))
  }

  /** The map holds, for each key, the amount of the last row that set it. */
  ghost predicate Holds(amounts: Amounts, le: CodeOrder, ledger: seq<Posting>, rows: seq<RowDef>, n: nat, from: int,
          to: int)
    requires n <= |rows|
  {
    forall key :: Lookup(amounts, key) ==
      match LastSetter(rows, n, key)
      case Some(j) => Combination(le, ledger, rows, j, |rows|, from, to)
      case None => 0.0
  }

  // ----- The evaluator -----

  /** `run`, lines 119-161: one pass over the rows. */
  method Run(le: CodeOrder, ledger: seq<Posting>, rows: seq<RowDef>, from: int, to: int)
    returns (out: seq<Option<real>>)
    ensures |out| == |rows|
    ensures forall i | 0 <= i < |rows| :: out[i] == Expected(le, ledger, rows, i, from, to)
  {
    var amounts: Amounts := map[];
    out := [];
    for n := 0 to |rows|
      invariant |out| == n && forall i | 0 <= i < n :: out[i] == Expected(le, ledger, rows, i, from, to)
      invariant Holds(amounts, le, ledger, rows, n, from, to)
    {
      var r := rows[n];
      match r {
        case Accounts(key, _, _, _) =>
          var val := Leaf(le, ledger, r, from, to);
          LeafCombination(le, ledger, rows, n, |rows|, from, to);
          out := out + [Some(val)];
          amounts := amounts[key := val];
        case Subtotal(key, refs) =>
          var sum := 0.0;
          for m := 0 to |refs|
            invariant sum == SumRefs(amounts, refs[..m])
          {
            assert refs[..m + 1][..m] == refs[..m];
            sum := sum + Lookup(amounts, refs[m]);
          }
          assert refs[..|refs|] == refs;
          RefsAmount(le, ledger, rows, n, refs, amounts, from, to);
          SubtotalCombination(le, ledger, rows, n, refs, |rows|, from, to);
          out := out + [Some(sum)];
          amounts := amounts[key := sum];
        case Header(_) =>
          out := out + [None];
      }
    }
  }

  lemma {:induction false} LeafCombination(le: CodeOrder, ledger: seq<Posting>, rows: seq<RowDef>, i: nat, n: nat,
          from: int, to: int)
    requires i < |rows| && n <= |rows| && rows[i].Accounts?
    ensures Combination(le, ledger, rows, i, n, from, to) == if i < n then Leaf(le, ledger, rows[i], from, to) else 0.0
  {
    if n == 0 {
    } else {
      LeafCombination(le, ledger, rows, i, n - 1, from, to);
    }
  }

  lemma {:induction false} SubtotalCombination(le: CodeOrder, ledger: seq<Posting>, rows: seq<RowDef>, i: nat,
          refs: seq<string>, n: nat, from: int, to: int)
    requires i < |rows| && n <= |rows| && rows[i].Subtotal? && rows[i].refs == refs
    ensures Combination(le, ledger, rows, i, n, from, to) == RefsCombination(le, ledger, rows, i, refs, n, from, to)
  {
    if n == 0 {
    } else {
      SubtotalCombination(le, ledger, rows, i, refs, n - 1, from, to);
    }
  }

  /** Summing looked-up amounts is the coefficient sum of the references. */
  lemma {:induction false} RefsAmount(le: CodeOrder, ledger: seq<Posting>, rows: seq<RowDef>, i: nat, refs: seq<string>,
          amounts: Amounts, from: int, to: int)
    requires i < |rows| && Holds(amounts, le, ledger, rows, i, from, to)
    ensures SumRefs(amounts, refs) == RefsCombination(le, ledger, rows, i, refs, |rows|, from, to)
    decreases |refs|
  {
    RefsSplit(le, ledger, rows, i, refs, |rows|, from, to);
    if refs == [] {
    } else {
      RefsAmount(le, ledger, rows, i, refs[..|refs| - 1], amounts, from, to);
      assert Lookup(amounts, refs[|refs| - 1]) ==
        match LastSetter(rows, i, refs[|refs| - 1])
        case Some(j) => Combination(le, ledger, rows, j, |rows|, from, to)
        case None => 0.0;
    }
  }

  lemma {:induction false} RefsSplit(le: CodeOrder, ledger: seq<Posting>, rows: seq<RowDef>, i: nat, refs: seq<string>,
          n: nat, from: int, to: int)
    requires i < |rows| && n <= |rows|
    ensures RefsCombination(le, ledger, rows, i, refs, n, from, to) ==
              if refs == [] then 0.0
              else RefsCombination(le, ledger, rows, i, refs[..|refs| - 1], n, from, to)
                   + (match LastSetter(rows, i, refs[|refs| - 1])
                      case Some(s) => Combination(le, ledger, rows, s, n, from, to)
                      case None => 0.0)
    decreases n
  {
    if n == 0 {
    } else {
      RefsSplit(le, ledger, rows, i, refs, n - 1, from, to);
      var leaf := LeafAmount(le, ledger, rows, n - 1, from, to);
      if refs != [] {
        match LastSetter(rows, i, refs[|refs| - 1]) {
          case Some(s) =>
            ScaleAdds(RefsCoefficient(rows, i, refs[..|refs| - 1], n - 1), Coefficient(rows, s, n - 1), leaf);
          case None =>
        }
      }
    }
  }

  lemma ScaleAdds(a: int, b: int, x: real)
    ensures Scale(a + b, x) == Scale(a, x) + Scale(b, x)
  {
  }

  // ----- What one posting does -----

  /** An account row starts from nothing, and one posting dated and coded within its bounds moves it
      by debit less credit, or the negative of that where the row is credit-natural; others do not. */
  lemma PostingMovesRow(le: CodeOrder, ledger: seq<Posting>, p: Posting, rows: seq<RowDef>, i: nat, from: int, to: int)
    requires i < |rows| && rows[i].Accounts?
    ensures Expected(le, [], rows, i, from, to) == Some(0.0)
    ensures var was, now := Expected(le, ledger, rows, i, from, to), Expected(le, ledger + [p], rows, i, from, to);
            && was.Some? && now.Some?
            && now.value - was.value ==
                 if from <= p.date && p.date <= to && le(rows[i].fromCode, p.account) && le(p.account, rows[i].toCode)
                 then (if rows[i].creditNatural then p.credit - p.debit else p.debit - p.credit) else 0.0
  {
    LeafCombination(le, [], rows, i, |rows|, from, to);
    LeafCombination(le, ledger, rows, i, |rows|, from, to);
    LeafCombination(le, ledger + [p], rows, i, |rows|, from, to);
    assert (ledger + [p])[..|ledger|] == ledger;
  }

  // ----- Linearity in the ledger -----

  /** Splitting the period splits every movement. */
  lemma {:induction false} MovementTiles(le: CodeOrder, ledger: seq<Posting>, r: RowDef, from: int, mid: int, to: int)
    requires r.Accounts? && from <= mid + 1 && mid <= to
    ensures Movement(le, ledger, r, from, to) ==
              Movement(le, ledger, r, from, mid) + Movement(le, ledger, r, mid + 1, to)
  {
    if ledger == [] {
    } else {
      MovementTiles(le, ledger[..|ledger| - 1], r, from, mid, to);
    }
  }

  /** Every row of every definition, whatever it refers to, is additive over adjacent periods. */
  lemma {:induction false} PeriodsTile(le: CodeOrder, ledger: seq<Posting>, rows: seq<RowDef>, i: nat, n: nat,
          from: int, mid: int, to: int)
    requires i < |rows| && n <= |rows| && from <= mid + 1 && mid <= to
    ensures Combination(le, ledger, rows, i, n, from, to) ==
              Combination(le, ledger, rows, i, n, from, mid) + Combination(le, ledger, rows, i, n, mid + 1, to)
  {
    if n == 0 {
    } else {
      PeriodsTile(le, ledger, rows, i, n - 1, from, mid, to);
      var k := Coefficient(rows, i, n - 1);
      if rows[n - 1].Accounts? {
        MovementTiles(le, ledger, rows[n - 1], from, mid, to);
      }
      ScaleSplits(k, LeafAmount(le, ledger, rows, n - 1, from, mid), LeafAmount(le, ledger, rows, n - 1, mid + 1, to));
    }
  }

  lemma ScaleSplits(k: int, x: real, y: real)
    ensures Scale(k, x + y) == Scale(k, x) + Scale(k, y)
  {
  }

  lemma {:induction false} MovementMerges(le: CodeOrder, l1: seq<Posting>, l2: seq<Posting>, r: RowDef, from: int,
          to: int)
    requires r.Accounts?
    ensures Movement(le, l1 + l2, r, from, to) == Movement(le, l1, r, from, to) + Movement(le, l2, r, from, to)
    decreases |l2|
  {
    if l2 == [] {
      assert l1 + l2 == l1;
    } else {
      MovementMerges(le, l1, l2[..|l2| - 1], r, from, to);
      assert (l1 + l2)[..|l1 + l2| - 1] == l1 + l2[..|l2| - 1];
    }
  }

  /** Every row of the merged ledger is the sum of the row over the two ledgers. */
  lemma {:induction false} LedgersMerge(le: CodeOrder, l1: seq<Posting>, l2: seq<Posting>, rows: seq<RowDef>, i: nat,
          n: nat, from: int, to: int)
    requires i < |rows| && n <= |rows|
    ensures Combination(le, l1 + l2, rows, i, n, from, to) ==
              Combination(le, l1, rows, i, n, from, to) + Combination(le, l2, rows, i, n, from, to)
  {
    if n == 0 {
    } else {
      LedgersMerge(le, l1, l2, rows, i, n - 1, from, to);
      if rows[n - 1].Accounts? {
        MovementMerges(le, l1, l2, rows[n - 1], from, to);
      }
      ScaleSplits(Coefficient(rows, i, n - 1), LeafAmount(le, l1, rows, n - 1, from, to),
          LeafAmount(le, l2, rows, n - 1, from, to));
    }
  }

  // ----- References forward, and to nothing -----

  /** With distinct keys, a reference to an earlier row finds that row. */
  lemma {:induction false} EarlierReferenceFound(rows: seq<RowDef>, n: nat, s: nat)
    requires s < n <= |rows| && !rows[s].Header?
    requires forall a, b | 0 <= a < b < |rows| :: rows[a].key != rows[b].key
    ensures LastSetter(rows, n, rows[s].key) == Some(s)
  {
    if s == n - 1 {
    } else {
      EarlierReferenceFound(rows, n - 1, s);
    }
  }

  /** A reference finds something exactly when some earlier non-header row has the key; otherwise it counts zero. */
  lemma {:induction false} ReferenceFoundExactly(rows: seq<RowDef>, n: nat, key: string)
    requires n <= |rows|
    ensures LastSetter(rows, n, key).Some? <==> exists j | 0 <= j < n :: !rows[j].Header? && rows[j].key == key
  {
    if n == 0 {
    } else {
      ReferenceFoundExactly(rows, n - 1, key);
    }
  }

  // ----- What a subtotal shows -----

  /** Row `j` is the last before row `i` that is not a header and has the key. */
  predicate LatestWith(rows: seq<RowDef>, i: nat, key: string, j: nat) {
    j < i <= |rows| && !rows[j].Header? && rows[j].key == key
    && forall m | j < m < i :: rows[m].Header? || rows[m].key != key
  }

  lemma {:induction false} LatestFound(rows: seq<RowDef>, i: nat, key: string)
    requires i <= |rows|
    ensures match LastSetter(rows, i, key)
            case Some(j) => LatestWith(rows, i, key, j)
            case None => forall m | 0 <= m < i :: rows[m].Header? || rows[m].key != key
  {
    if i == 0 {
    } else {
      LatestFound(rows, i - 1, key);
    }
  }

  /** What a reference shows: the amount of the latest earlier row with the key, zero if there is none. */
  predicate Shows(le: CodeOrder, ledger: seq<Posting>, rows: seq<RowDef>, i: nat, key: string, from: int, to: int,
          x: real)
    requires i < |rows|
  {
    || (exists j | 0 <= j < i :: LatestWith(rows, i, key, j) && Expected(le, ledger, rows, j, from, to) == Some(x))
    || (x == 0.0 && forall m | 0 <= m < i :: rows[m].Header? || rows[m].key != key)
  }

  function Sum(xs: seq<real>): real {
    if xs == [] then 0.0 else Sum(xs[..|xs| - 1]) + xs[|xs| - 1]
  }

  /** A subtotal is the sum of what its references show. */
  lemma SubtotalAddsUp(le: CodeOrder, ledger: seq<Posting>, rows: seq<RowDef>, i: nat, from: int, to: int,
          shown: seq<real>)
    requires i < |rows| && rows[i].Subtotal? && |shown| == |rows[i].refs|
    requires forall m | 0 <= m < |shown| :: Shows(le, ledger, rows, i, rows[i].refs[m], from, to, shown[m])
    ensures Expected(le, ledger, rows, i, from, to) == Some(Sum(shown))
  {
    SubtotalCombination(le, ledger, rows, i, rows[i].refs, |rows|, from, to);
    RefsAddUp(le, ledger, rows, i, rows[i].refs, from, to, shown);
  }

  lemma {:induction false} RefsAddUp(le: CodeOrder, ledger: seq<Posting>, rows: seq<RowDef>, i: nat, refs: seq<string>,
          from: int, to: int, shown: seq<real>)
    requires i < |rows| && |shown| == |refs|
    requires forall m | 0 <= m < |shown| :: Shows(le, ledger, rows, i, refs[m], from, to, shown[m])
    ensures RefsCombination(le, ledger, rows, i, refs, |rows|, from, to) == Sum(shown)
    decreases |refs|
  {
    RefsSplit(le, ledger, rows, i, refs, |rows|, from, to);
    if refs == [] {
    } else {
      var last := |refs| - 1;
      RefsAddUp(le, ledger, rows, i, refs[..last], from, to, shown[..last]);
      ShownOnce(le, ledger, rows, i, refs[last], from, to, shown[last]);
    }
  }

  lemma ShownOnce(le: CodeOrder, ledger: seq<Posting>, rows: seq<RowDef>, i: nat, key: string, from: int, to: int,
          x: real)
    requires i < |rows| && Shows(le, ledger, rows, i, key, from, to, x)
    ensures x == match LastSetter(rows, i, key)
                 case Some(s) => Combination(le, ledger, rows, s, |rows|, from, to)
                 case None => 0.0
  {
    LatestFound(rows, i, key);
  }
}

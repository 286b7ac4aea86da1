/** Books whose consolidation misses balance by as much as ConsolidationBound allows. */
module ConsolidationReach {
  import opened Prelude
  import opened Money
  import opened Consolidation

  /** Distinct account codes. */
  function Code(i: nat): string {
    seq(i + 1, _ => '1')
  }

  /** A row of whole-cent amounts, given in cents. */
  function CentRow(i: nat, debit: int, credit: int): Row {
    Row(Code(i), Amount(debit), Amount(credit))
  }

  /** Accounts in whole cents under codes of their own. */
  predicate Plain(rows: seq<Row>) {
    forall i | 0 <= i < |rows| ::
      rows[i].account == Code(i) && RoundMoney(rows[i].debit) == rows[i].debit
          && RoundMoney(rows[i].credit) == rows[i].credit
  }

  lemma HalfRate(cents: int, rounded: int)
    requires IsHalfEven(cents as real / 2.0, rounded)
    ensures RoundMoney(Translate(Amount(cents), 0.5)) == Amount(rounded)
  {
    var y := Translate(Amount(cents), 0.5) * 100.0;
    assert y == cents as real / 2.0;
    RoundHalfEvenCharacterised(y, rounded);
  }

  /** One more account, with amounts that half rate rounds to known cents. */
  lemma AddAccount(rows: seq<Row>, debit: int, credit: int, d: int, c: int) returns (more: seq<Row>)
    requires Plain(rows) && IsHalfEven(debit as real / 2.0, d) && IsHalfEven(credit as real / 2.0, c)
    ensures more == rows + [CentRow(|rows|, debit, credit)] && Plain(more)
    ensures RowNet(more, 0.5) == RowNet(rows, 0.5) + Amount(d) - Amount(c)
    ensures SumRowDebits(more) == SumRowDebits(rows) + Amount(debit)
    ensures SumRowCredits(more) == SumRowCredits(rows) + Amount(credit)
  {
    var r := CentRow(|rows|, debit, credit);
    more := rows + [r];
    assert more[..|rows|] == rows;
    HalfRate(debit, d);
    HalfRate(credit, c);
    WholeCentsAreKept(debit);
    WholeCentsAreKept(credit);
  }

  /** Pairs of accounts: 1.5 cents against 0.5 and 1.5 against 2.5, once translated. */
  lemma {:induction false} Pairs(m: nat) returns (rows: seq<Row>)
    ensures |rows| == 2 * m && Plain(rows) && SumRowDebits(rows) == SumRowCredits(rows)
    ensures RowNet(rows, 0.5) == Amount(2 * m)
  {
    if m == 0 {
      rows := [];
    } else {
      var fewer := Pairs(m - 1);
      var half := AddAccount(fewer, 3, 1, 2, 0);
      rows := AddAccount(half, 3, 5, 2, 2);
    }
  }

  lemma CodesDiffer(rows: seq<Row>)
    requires Plain(rows)
    ensures forall i, j | 0 <= i < j < |rows| :: rows[i].account != rows[j].account
  {
    forall i, j | 0 <= i < j < |rows| ensures rows[i].account != rows[j].account {
      assert |Code(i)| != |Code(j)|;
    }
  }

  lemma OneMember(m: Member)
    requires SumRowDebits(m.rows) == SumRowCredits(m.rows)
    ensures BooksBalance([m]) && RowCount([m]) == |m.rows| && GroupNet([m]) == RowNet(m.rows, RateOf(m))
  {
    assert [m][..0] == [];
  }

  /** For every number of rows, some balanced books of that many whole-cent accounts, at
      half rate, miss balance by as much as the bound allows. */
  lemma BoundIsReached(n: nat) returns (m: Member)
    ensures |m.rows| == n && m.rate == Some(0.5) && BooksBalance([m]) && RowCount([m]) == n
    ensures Plain(m.rows) && forall i, j | 0 <= i < j < n :: m.rows[i].account != m.rows[j].account
    ensures GroupNet([m]) == Amount(if n % 2 == 0 then n else n - 1)
  {
    var rows := Pairs(n / 2);
    if n % 2 == 1 {
      rows := AddAccount(rows, 0, 0, 0, 0);
    }
    m := Member(Some(0.5), rows, None, [], []);
    CodesDiffer(rows);
    OneMember(m);
  }
}

/** One entity's ledger with its balance snapshots: the write half of
    zavora-erp-core/src/services/journal.rs. */
module Ledger {
  import opened Prelude
  import opened Money
  import opened Journal

  datatype Entry = Entry(period: int, lines: seq<Line>)

  datatype Result = Done(lines: seq<Line>) | OutOfBalance(debits: real, credits: real) | InvalidAccounts

  // ----- Totals over lines and entries -----

  function AccountDebits(lines: seq<Line>, account: string): real {
    if lines == [] then 0.0
    else
      (if lines[0].account == account then OrZero(lines[0].functionalDebit) else 0.0)
      + AccountDebits(lines[1..], account)
  }

  function AccountCredits(lines: seq<Line>, account: string): real {
    if lines == [] then 0.0
    else
      (if lines[0].account == account then OrZero(lines[0].functionalCredit) else 0.0)
      + AccountCredits(lines[1..], account)
  }

  function PeriodDebits(entries: seq<Entry>, account: string, period: int): real {
    if entries == [] then 0.0
    else PeriodDebits(entries[..|entries| - 1], account, period)
         + (if entries[|entries| - 1].period != period then 0.0
            else AccountDebits(entries[|entries| - 1].lines, account))
  }

  function PeriodCredits(entries: seq<Entry>, account: string, period: int): real {
    if entries == [] then 0.0
    else PeriodCredits(entries[..|entries| - 1], account, period)
         + (if entries[|entries| - 1].period != period then 0.0
            else AccountCredits(entries[|entries| - 1].lines, account))
  }

  predicate EntriesBalance(entries: seq<Entry>) {
    forall i | 0 <= i < |entries| :: Debits(entries[i].lines) == Credits(entries[i].lines)
  }

  lemma {:induction false} AccountAppend(a: seq<Line>, l: Line, account: string)
    ensures AccountDebits(a + [l], account) ==
              AccountDebits(a, account) + (if l.account == account then OrZero(l.functionalDebit) else 0.0)
    ensures AccountCredits(a + [l], account) ==
              AccountCredits(a, account) + (if l.account == account then OrZero(l.functionalCredit) else 0.0)
  {
    if a == [] {
      assert (a + [l])[1..] == [];
    } else {
      AccountAppend(a[1..], l, account);
      assert (a + [l])[1..] == a[1..] + [l];
    }
  }

  lemma PeriodAppend(entries: seq<Entry>, e: Entry, account: string, period: int)
    ensures PeriodDebits(entries + [e], account, period) ==
              PeriodDebits(entries, account, period)
                  + (if e.period == period then AccountDebits(e.lines, account) else 0.0)
    ensures PeriodCredits(entries + [e], account, period) ==
              PeriodCredits(entries, account, period)
                  + (if e.period == period then AccountCredits(e.lines, account) else 0.0)
  {
    assert (entries + [e])[..|entries|] == entries;
  }

  // ----- The ledger -----

  type Key = (string, int)

  function Snapshot(balances: map<Key, (real, real)>, key: Key): (real, real) {
    if key in balances then balances[key] else (0.0, 0.0)
  }

  function TotalOf(totals: map<string, (real, real)>, account: string): (real, real) {
    if account in totals then totals[account] else (0.0, 0.0)
  }

  function Plus(x: (real, real), y: (real, real)): (real, real) {
    (x.0 + y.0, x.1 + y.1)
  }

  function Sides(line: Line): (real, real) {
    (OrZero(line.functionalDebit), OrZero(line.functionalCredit))
  }

  predicate TotalFor(totals: map<string, (real, real)>, lines: seq<Line>, account: string) {
    TotalOf(totals, account) == (AccountDebits(lines, account), AccountCredits(lines, account))
  }

  ghost predicate TotalsFor(totals: map<string, (real, real)>, lines: seq<Line>) {
    forall account :: TotalFor(totals, lines, account)
  }

  function AddLine(totals: map<string, (real, real)>, line: Line): map<string, (real, real)> {
    totals[line.account := Plus(TotalOf(totals, line.account), Sides(line))]
  }

  lemma AddLineTotal(totals: map<string, (real, real)>, line: Line, account: string)
    ensures TotalOf(AddLine(totals, line), account) ==
              if account == line.account then Plus(TotalOf(totals, account), Sides(line)) else TotalOf(totals, account)
  {
  }

  lemma TotalsStep(totals: map<string, (real, real)>, lines: seq<Line>, line: Line)
    requires TotalsFor(totals, lines)
    ensures TotalsFor(AddLine(totals, line), lines + [line])
  {
    forall account ensures TotalFor(AddLine(totals, line), lines + [line], account) {
      assert TotalFor(totals, lines, account);
      AccountAppend(lines, line, account);
      AddLineTotal(totals, line, account);
    }
  }

  class Book {
    var entries: seq<Entry>
    var balances: map<Key, (real, real)>

    /** Every entry balances, and every snapshot equals what the journal lines sum to. */
    ghost predicate Valid()
      reads this
    {
      && EntriesBalance(entries)
      && forall account, period ::
           Snapshot(balances, (account, period)) ==
               (PeriodDebits(entries, account, period), PeriodCredits(entries, account, period))
    }

    constructor ()
      ensures Valid() && entries == []
    {
      entries, balances := [], map[];
    }

    /** `create_and_post_in_tx`: refused requests leave no trace; posted ones append
        the lines of `Post` and move the snapshots with them. */
    method CreateAndPost(rs: seq<Request>, period: int, active: set<string>, roundingAccount: string, base: string)
      returns (result: Result)
      requires Valid()
      modifies this
      ensures Valid()
      ensures result.InvalidAccounts? <==> exists i | 0 <= i < |rs| :: rs[i].account !in active
      ensures !result.InvalidAccounts? ==>
                match Post(rs, roundingAccount, base)
                case Posted(lines) => result == Done(lines) && entries == old(entries) + [Entry(period, lines)]
                case Refused(d, c) => result == OutOfBalance(d, c)
      ensures !result.Done? ==> entries == old(entries) && balances == old(balances)
    {
      if i :| 0 <= i < |rs| && rs[i].account !in active {
        return InvalidAccounts;
      }
      var posting := Post(rs, roundingAccount, base);
      if posting.Refused? {
        return OutOfBalance(posting.debits, posting.credits);
      }
      var lines := posting.lines;
      PostedBalances(rs, roundingAccount, base);
      var byAccount := ByAccount(lines);
      ghost var before := entries;
      entries := entries + [Entry(period, lines)];
      MergeSnapshots(byAccount, period);
      forall account, p
        ensures Snapshot(balances, (account, p)) ==
                  (PeriodDebits(entries, account, p), PeriodCredits(entries, account, p))
      {
        PeriodAppend(before, Entry(period, lines), account, p);
        assert TotalFor(byAccount, lines, account);
      }
      return Done(lines);
    }

    /** The snapshot upsert: each account of the entry, in the entry's period. */
    method MergeSnapshots(totals: map<string, (real, real)>, period: int)
      modifies this`balances
      ensures forall account, p ::
                Snapshot(balances, (account, p)) ==
                if p == period then Plus(Snapshot(old(balances), (account, p)), TotalOf(totals, account))
                else Snapshot(old(balances), (account, p))
    {
      var pending := totals.Keys;
      while pending != {}
        invariant pending <= totals.Keys
        invariant forall account, p ::
                    Snapshot(balances, (account, p)) ==
                    if p == period && account !in pending
                        then Plus(Snapshot(old(balances), (account, p)), TotalOf(totals, account))
                    else Snapshot(old(balances), (account, p))
      {
        var code :| code in pending;
        ghost var was := balances;
        balances := balances[(code, period) := Plus(Snapshot(balances, (code, period)), totals[code])];
        forall key
          ensures Snapshot(balances, key) ==
                  if key == (code, period) then Plus(Snapshot(was, key), TotalOf(totals, code)) else Snapshot(was, key)
        {
        }
        pending := pending - {code};
      }
    }

    /** The per-account totals of one entry. */
    method ByAccount(lines: seq<Line>) returns (totals: map<string, (real, real)>)
      ensures TotalsFor(totals, lines)
    {
      totals := map[];
      for n := 0 to |lines|
        invariant TotalsFor(totals, lines[..n])
      {
        var line := lines[n];
        TotalsStep(totals, lines[..n], line);
        assert lines[..n + 1] == lines[..n] + [line];
        totals := AddLine(totals, line);
      }
      assert lines[..|lines|] == lines;
    }
  }
}

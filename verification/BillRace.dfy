/** Concurrent posts of one bill: zavora-erp-api/src/routes/bills.rs reads the status
    before its transaction, and the update inside does not test it again. */
module BillRace {

  /** A bill that starts approved: whether it is posted, its journal entries, and the
      calls between their read and the end of their transaction. */
  datatype Race = Race(posted: bool, entries: nat, ready: set<nat>)

  const RACE_START: Race := Race(false, 0, {})

  /** The status is read and is approved. */
  predicate Reads(s: Race, t: Race, call: nat) {
    !s.posted && call !in s.ready && t == s.(ready := s.ready + {call})
  }

  /** The status is read and is not approved any more. */
  predicate TurnedAway(s: Race, t: Race, call: nat) {
    s.posted && call !in s.ready && t == s
  }

  /** Entry and status are written together. */
  predicate Commits(s: Race, t: Race, call: nat) {
    call in s.ready && t == Race(true, s.entries + 1, s.ready - {call})
  }

  /** The poster refuses, the transaction fails, or the request is dropped: nothing is written. */
  predicate Fails(s: Race, t: Race, call: nat) {
    call in s.ready && t == s.(ready := s.ready - {call})
  }

  predicate Moves(s: Race, t: Race, call: nat) {
    Reads(s, t, call) || TurnedAway(s, t, call) || Commits(s, t, call) || Fails(s, t, call)
  }

  ghost predicate RaceStep(s: Race, t: Race) {
    exists call :: Moves(s, t, call)
  }

  /** A run with at most `k` calls between their two steps at any time. */
  ghost predicate RaceRun(run: seq<Race>, k: nat) {
    && |run| > 0 && run[0] == RACE_START
    && (forall i | 0 <= i < |run| - 1 :: RaceStep(run[i], run[i + 1]))
    && (forall i | 0 <= i < |run| :: |run[i].ready| <= k)
  }

  function Last(run: seq<Race>): Race
    requires run != []
  {
    run[|run| - 1]
  }

  /** A bill gets at most as many journal entries as there were overlapping posts, and
      as long as it has none a post can still be read as approved. */
  lemma {:induction false} EntriesBoundedByOverlap(run: seq<Race>, k: nat)
    requires RaceRun(run, k)
    ensures Last(run).entries + |Last(run).ready| <= k && (Last(run).posted <==> Last(run).entries > 0)
    decreases |run|
  {
    if |run| == 1 {
    } else {
      EntriesBoundedByOverlap(run[..|run| - 1], k);
      var s, t := run[|run| - 2], Last(run);
      assert RaceStep(s, t);
      var call :| Moves(s, t, call);
    }
  }

  // ----- A run that reaches the bound -----

  /** The first `n` calls. */
  function FirstCalls(n: nat): (calls: set<nat>)
    ensures |calls| == n && forall c: nat :: c in calls <==> c < n
  {
    if n == 0 then {} else FirstCalls(n - 1) + {n - 1}
  }

  /** All `k` calls read, in turn, and then all commit, the last first. */
  function AllAtOnce(k: nat, i: nat): Race
    requires i <= 2 * k
  {
    if i <= k then Race(false, 0, FirstCalls(i)) else Race(true, i - k, FirstCalls(2 * k - i))
  }

  lemma AllAtOnceStep(k: nat, i: nat)
    requires i < 2 * k
    ensures RaceStep(AllAtOnce(k, i), AllAtOnce(k, i + 1))
  {
    var s, t := AllAtOnce(k, i), AllAtOnce(k, i + 1);
    if i < k {
      assert Moves(s, t, i);
    } else {
      assert t.ready == s.ready - {2 * k - i - 1};
      assert Moves(s, t, 2 * k - i - 1);
    }
  }

  lemma AllAtOnceSmall(k: nat, i: nat)
    requires i <= 2 * k
    ensures |AllAtOnce(k, i).ready| <= k
  {
  }

  lemma ExtendRun(run: seq<Race>, k: nat, t: Race) returns (more: seq<Race>)
    requires RaceRun(run, k) && RaceStep(Last(run), t) && |t.ready| <= k
    ensures more == run + [t] && RaceRun(more, k)
  {
    more := run + [t];
    forall i | 0 <= i < |more| - 1 ensures RaceStep(more[i], more[i + 1]) {
      assert i < |run| - 1 ==> RaceStep(run[i], run[i + 1]);
    }
  }

  lemma {:induction false} OverlapRuns(k: nat, n: nat) returns (run: seq<Race>)
    requires n <= 2 * k
    ensures RaceRun(run, k) && |run| == n + 1 && Last(run) == AllAtOnce(k, n)
    decreases n
  {
    AllAtOnceSmall(k, n);
    if n == 0 {
      run := [RACE_START];
    } else {
      var before := OverlapRuns(k, n - 1);
      AllAtOnceStep(k, n - 1);
      run := ExtendRun(before, k, AllAtOnce(k, n));
    }
  }

  /** For every `k`, `k` overlapping posts can all write their entry. */
  lemma OverlapReached(k: nat) returns (run: seq<Race>)
    ensures RaceRun(run, k) && Last(run).entries == k
  {
    run := OverlapRuns(k, 2 * k);
  }

  /** With at most `k` posts of a bill overlapping, it is sure to get at most `n` entries
      if and only if k is at most n; so one entry is sure exactly when no two overlap. */
  lemma EntriesExactly(k: nat, n: nat)
    ensures (forall run: seq<Race> :: RaceRun(run, k) ==> Last(run).entries <= n) <==> k <= n
  {
    if k <= n {
      forall run: seq<Race> | RaceRun(run, k) ensures Last(run).entries <= n {
        EntriesBoundedByOverlap(run, k);
      }
    } else {
      var run := OverlapReached(k);
      assert RaceRun(run, k);
    }
  }
}

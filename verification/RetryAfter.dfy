/** What a client may rely on after waiting as long as `Retry-After` says. */
module RetryAfter {
  import opened Prelude
  import opened RateLimit

  /** The requests of `ip` after request `i`. */
  function Since(reqs: seq<Request>, i: nat, ip: Ip): nat {
    if |reqs| <= i + 1 then 0
    else Since(reqs[..|reqs| - 1], i, ip) + if reqs[|reqs| - 1].ip == ip then 1 else 0
  }

  /** All readings up to request `i` are `wait` behind the last: the answer to `i` was sent after
      they were taken, and the client waited from there. */
  predicate Behind(reqs: seq<Request>, i: nat, wait: nat)
    requires reqs != []
  {
    forall j | 0 <= j <= i && j < |reqs| :: reqs[j].time + wait <= reqs[|reqs| - 1].time
  }

  /** The last request of the run comes from the client of request `i`, which was refused,
      `wait` after that answer and `n` other requests of its address. */
  ghost predicate Waited(c: Config, d: nat, reqs: seq<Request>, i: nat, n: nat, wait: nat) {
    && Lagging(reqs, d) && i < |reqs| - 1
    && reqs[i].ip == reqs[|reqs| - 1].ip
    && Limited(c, true, reqs[..i + 1])
    && Since(reqs[..|reqs| - 1], i, reqs[i].ip) == n
    && Behind(reqs, i, wait)
  }

  /** Whoever waits so is let in. */
  ghost predicate Rewarded(c: Config, d: nat, n: nat, wait: nat) {
    forall reqs, i :: Waited(c, d, reqs, i, n, wait) ==> !Limited(c, true, reqs)
  }

  // ----- When the wait is enough -----

  /** An entry was opened up to request `i`, or counts requests after it only. */
  lemma {:induction false} OldOrRecent(c: Config, reqs: seq<Request>, i: nat, ip: Ip, top: int)
    requires forall j | 0 <= j <= i && j < |reqs| :: reqs[j].time <= top
    ensures var e := Find(After(c, true, reqs), ip);
            e.None? || e.value.start <= top || 0 < e.value.count <= Since(reqs, i, ip)
    decreases |reqs|
  {
    if reqs == [] {
    } else {
      var before, r := reqs[..|reqs| - 1], reqs[|reqs| - 1];
      OldOrRecent(c, before, i, ip, top);
      NextAt(c, true, After(c, true, before), r.ip, r.time, ip);
    }
  }

  lemma WaitSuffices(c: Config, d: nat, reqs: seq<Request>, i: nat, n: nat, wait: nat)
    requires Waited(c, d, reqs, i, n, wait) && n < c.max && wait >= c.window
    ensures !Limited(c, true, reqs)
  {
    var before, r := reqs[..|reqs| - 1], reqs[|reqs| - 1];
    OldOrRecent(c, before, i, r.ip, r.time - wait);
    OwnStep(c, true, reqs);
  }

  /** Empty windows refuse nobody. */
  lemma NeverRefused(c: Config, reqs: seq<Request>)
    requires c.max > 0 && c.window == 0 && reqs != []
    ensures !Limited(c, true, reqs)
  {
    OwnStep(c, true, reqs);
  }

  // ----- When it is not -----

  /** One address asks `max` + 1 times at 0 and from then on at `t`. */
  predicate TwoBursts(c: Config, reqs: seq<Request>, t: int) {
    forall j | 0 <= j < |reqs| :: reqs[j] == Request(0, if j <= c.max then 0 else t)
  }

  /** The entry after `n` of these requests. */
  function BurstEntry(c: Config, n: nat, t: nat): Option<Window> {
    if n == 0 then None
    else if n <= c.max + 1 || t < c.window then Some(Window(0, n))
    else Some(Window(t, n - c.max - 1))
  }

  lemma BurstEntryNext(c: Config, n: nat, t: nat)
    requires c.window > 0
    ensures BurstEntry(c, n + 1, t) == Some(Advance(c, BurstEntry(c, n, t), if n <= c.max then 0 else t))
  {
  }

  lemma {:induction false} TwoBurstsLeave(c: Config, reqs: seq<Request>, t: nat)
    requires c.window > 0 && TwoBursts(c, reqs, t)
    ensures Since(reqs, c.max, 0) == if |reqs| > c.max then |reqs| - c.max - 1 else 0
    ensures Find(After(c, true, reqs), 0) == BurstEntry(c, |reqs|, t)
    decreases |reqs|
  {
    if reqs == [] {
    } else {
      TwoBurstsLeave(c, reqs[..|reqs| - 1], t);
      OwnStep(c, true, reqs);
      BurstEntryNext(c, |reqs| - 1, t);
    }
  }

  lemma TwoBurstsRefuse(c: Config, reqs: seq<Request>, t: nat)
    requires c.window > 0 && TwoBursts(c, reqs, t) && |reqs| > c.max
    requires |reqs| > 2 * c.max + 1 || |reqs| == c.max + 1 || t < c.window
    ensures Limited(c, true, reqs)
  {
    TwoBurstsLeave(c, reqs, t);
  }

  lemma TwoBurstsWaited(c: Config, d: nat, reqs: seq<Request>, n: nat, wait: nat)
    requires c.window > 0 && TwoBursts(c, reqs, wait) && |reqs| == c.max + n + 2
    ensures Waited(c, d, reqs, c.max, n, wait)
  {
    TwoBurstsRefuse(c, reqs[..c.max + 1], wait);
    TwoBurstsLeave(c, reqs[..|reqs| - 1], wait);
  }

  lemma WaitFails(c: Config, d: nat, n: nat, wait: nat) returns (reqs: seq<Request>)
    requires c.max > 0 && c.window > 0 && (n >= c.max || wait < c.window)
    ensures Waited(c, d, reqs, c.max, n, wait) && Limited(c, true, reqs)
  {
    reqs := seq(c.max + n + 2, j requires j >= 0 => Request(0, if j <= c.max then 0 else wait));
    TwoBurstsWaited(c, d, reqs, n, wait);
    TwoBurstsRefuse(c, reqs, wait);
  }

  /** At any lag, to have waited after a refusal is rewarded if and only if the wait was a whole
      window, as `Retry-After` says, and fewer than `max` others used the address meanwhile. */
  lemma RetryAfterExactly(c: Config, d: nat, n: nat, wait: nat)
    requires c.max > 0
    ensures Rewarded(c, d, n, wait) <==> c.window == 0 || (n < c.max && wait >= c.window)
  {
    if c.window == 0 {
      forall reqs, i | Waited(c, d, reqs, i, n, wait) ensures !Limited(c, true, reqs) {
        NeverRefused(c, reqs);
      }
    } else if n < c.max && wait >= c.window {
      forall reqs, i | Waited(c, d, reqs, i, n, wait) ensures !Limited(c, true, reqs) {
        WaitSuffices(c, d, reqs, i, n, wait);
      }
    } else {
      var reqs := WaitFails(c, d, n, wait);
    }
  }
}

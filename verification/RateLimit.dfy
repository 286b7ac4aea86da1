/** The per-address fixed-window limiter of zavora-erp-api/src/middleware/rate_limit.rs. */
module RateLimit {
  import opened Prelude

  type Ip = nat

  datatype Window = Window(start: int, count: nat)

  /** `LOGIN_RATE_LIMIT` and `LOGIN_RATE_WINDOW_SECS`, the latter in clock ticks. */
  datatype Config = Config(max: nat, window: nat)

  type Buckets = map<Ip, Window>

  const CLEANUP_ABOVE: nat := 10_000

  /** `Instant::duration_since`, which saturates at zero. */
  function Elapsed(now: int, start: int): nat {
    if now >= start then now - start else 0
  }

  /** The entry of one address after one more request. */
  function Advance(c: Config, entry: Option<Window>, now: int): Window {
    if entry.None? || Elapsed(now, entry.value.start) >= c.window then Window(now, 1)
    else Window(entry.value.start, entry.value.count + 1)
  }

  function Find(buckets: Buckets, ip: Ip): Option<Window> {
    if ip in buckets then Some(buckets[ip]) else None
  }

  function Retain(c: Config, buckets: Buckets, now: int): Buckets {
    map ip | ip in buckets && Elapsed(now, buckets[ip].start) < c.window :: buckets[ip]
  }

  /** The map one request later, with or without the opportunistic cleanup. */
  function Next(c: Config, cleanup: bool, buckets: Buckets, ip: Ip, now: int): Buckets {
    var kept := if cleanup && |buckets| > CLEANUP_ABOVE then Retain(c, buckets, now) else buckets;
    kept[ip := Advance(c, Find(kept, ip), now)]
  }

  class Limiter {
    const config: Config
    var buckets: Buckets

    constructor (config: Config)
      ensures this.config == config && buckets == map[]
    {
      this.config := config;
      buckets := map[];
    }

    method IsRateLimited(ip: Ip, now: int) returns (limited: bool)
      modifies this`buckets
      ensures config.max == 0 ==> !limited && buckets == old(buckets)
      ensures config.max > 0 ==>
                buckets == Next(config, true, old(buckets), ip, now) && (limited <==> buckets[ip].count > config.max)
    {
      if config.max == 0 {
        return false;
      }
      if |buckets| > CLEANUP_ABOVE {
        buckets := map k | k in buckets && Elapsed(now, buckets[k].start) < config.window :: buckets[k];
      }
      if ip !in buckets {
        buckets := buckets[ip := Window(now, 0)];
      }
      if Elapsed(now, buckets[ip].start) >= config.window {
        buckets := buckets[ip := Window(now, 0)];
      }
      buckets := buckets[ip := Window(buckets[ip].start, buckets[ip].count + 1)];
      return buckets[ip].count > config.max;
    }
  }

  // ----- Runs -----

  /** A request and the clock reading it took, before it took the lock; a run lists
      requests in the order in which they held the lock. */
  datatype Request = Request(ip: Ip, time: int)

  /** No reading is more than `d` behind one that was used before it. */
  predicate Lagging(reqs: seq<Request>, d: nat) {
    forall i, j | 0 <= i < j < |reqs| :: reqs[i].time <= reqs[j].time + d
  }

  /** Request `i` entered at `entered[i]`, at most `d` after its reading; the clock does not go back. */
  predicate Entered(reqs: seq<Request>, entered: seq<int>, d: nat) {
    && |entered| == |reqs|
    && (forall i | 0 <= i < |reqs| :: reqs[i].time <= entered[i] <= reqs[i].time + d)
    && (forall i, j | 0 <= i < j < |reqs| :: entered[i] <= entered[j])
  }

  /** The moments at which requests can have entered: the latest reading used so far, that of `top` at the end. */
  lemma {:induction false} LaggingEntered(reqs: seq<Request>, d: nat) returns (entered: seq<int>, top: nat)
    requires Lagging(reqs, d)
    ensures Entered(reqs, entered, d)
    ensures reqs != [] ==> top < |reqs| && entered[|reqs| - 1] == reqs[top].time
  {
    if |reqs| <= 1 {
      entered, top := seq(|reqs|, i requires 0 <= i < |reqs| => reqs[i].time), 0;
    } else {
      var last := |reqs| - 1;
      entered, top := LaggingEntered(reqs[..last], d);
      top := if reqs[top].time < reqs[last].time then last else top;
      entered := entered + [reqs[top].time];
    }
  }

  /** Readings lag by at most `d` in lock order exactly when every request can have
      entered within `d` of its reading. */
  lemma LagIsDelay(reqs: seq<Request>, d: nat)
    ensures Lagging(reqs, d) <==> exists entered :: Entered(reqs, entered, d)
  {
    if Lagging(reqs, d) {
      var entered, top := LaggingEntered(reqs, d);
    }
  }

  function After(c: Config, cleanup: bool, reqs: seq<Request>): Buckets {
    if reqs == [] then map[]
    else
      var r := reqs[|reqs| - 1];
      Next(c, cleanup, After(c, cleanup, reqs[..|reqs| - 1]), r.ip, r.time)
  }

  /** The decision on the last request of a run. */
  predicate Limited(c: Config, cleanup: bool, reqs: seq<Request>)
    requires reqs != []
  {
    var r := reqs[|reqs| - 1];
    r.ip in After(c, cleanup, reqs) && After(c, cleanup, reqs)[r.ip].count > c.max
  }

  /** Admitted requests of `ip` read in [from, to). */
  function Admitted(c: Config, cleanup: bool, reqs: seq<Request>, ip: Ip, from: int, to: int): nat {
    if reqs == [] then 0
    else
      var r := reqs[|reqs| - 1];
      Admitted(c, cleanup, reqs[..|reqs| - 1], ip, from, to)
      + if r.ip == ip && from <= r.time < to && !Limited(c, cleanup, reqs) then 1 else 0
  }

  /** The part of an entry that can still matter at a reading: an expired one is as good as none. */
  function Live(c: Config, entry: Option<Window>, now: int): Option<Window> {
    if entry.Some? && Elapsed(now, entry.value.start) < c.window then entry else None
  }

  lemma AdvanceSeesLive(c: Config, e: Option<Window>, f: Option<Window>, now: int)
    requires Live(c, e, now) == Live(c, f, now)
    ensures Advance(c, e, now) == Advance(c, f, now)
  {
  }

  /** A request advances its own entry, cleaned or not, and leaves another as it was or, expired, removes it. */
  lemma NextAt(c: Config, cleanup: bool, buckets: Buckets, ip: Ip, now: int, other: Ip)
    ensures var m := Next(c, cleanup, buckets, ip, now);
            && Find(m, ip) == Some(Advance(c, Find(buckets, ip), now))
            && (other != ip ==>
                  || Find(m, other) == Find(buckets, other)
                  || (cleanup && Find(m, other) == Live(c, Find(buckets, other), now)))
  {
    var kept := if cleanup && |buckets| > CLEANUP_ABOVE then Retain(c, buckets, now) else buckets;
    assert Live(c, Find(kept, ip), now) == Live(c, Find(buckets, ip), now);
    AdvanceSeesLive(c, Find(kept, ip), Find(buckets, ip), now);
  }

  /** Another address's entry goes exactly when it is over and more than 10,000 are held. */
  lemma CleanedExactly(c: Config, buckets: Buckets, ip: Ip, now: int, other: Ip)
    requires other != ip && other in buckets
    ensures var m := Next(c, true, buckets, ip, now);
            && (other in m ==> m[other] == buckets[other])
            && (other !in m <==>
                  |buckets| > 10_000 && (now - buckets[other].start >= c.window || c.window == 0))
  {
  }

  // ----- One address on its own -----

  /** The counter of an address that nobody shares a map with. */
  function Solo(c: Config, times: seq<int>): Option<Window> {
    if times == [] then None else Some(Advance(c, Solo(c, times[..|times| - 1]), times[|times| - 1]))
  }

  predicate Refused(c: Config, times: seq<int>)
    requires times != []
  {
    Solo(c, times).value.count > c.max
  }

  function TimesOf(reqs: seq<Request>, ip: Ip): seq<int> {
    if reqs == [] then []
    else
      var before := TimesOf(reqs[..|reqs| - 1], ip);
      if reqs[|reqs| - 1].ip == ip then before + [reqs[|reqs| - 1].time] else before
  }

  function Addresses(reqs: seq<Request>): set<Ip> {
    if reqs == [] then {} else Addresses(reqs[..|reqs| - 1]) + {reqs[|reqs| - 1].ip}
  }

  lemma SizeGrows(a: set<Ip>, b: set<Ip>)
    requires a <= b
    ensures |a| <= |b|
  {
    assert b == a + (b - a);
  }

  /** A run of no more addresses than the cleanup tolerates never cleans up. */
  lemma {:induction false} FewAddressesNeverClean(c: Config, reqs: seq<Request>)
    requires |Addresses(reqs)| <= 10_000
    ensures After(c, true, reqs) == After(c, false, reqs)
    ensures After(c, true, reqs).Keys <= Addresses(reqs)
    decreases |reqs|
  {
    if reqs == [] {
    } else {
      var before := reqs[..|reqs| - 1];
      SizeGrows(Addresses(before), Addresses(reqs));
      FewAddressesNeverClean(c, before);
      SizeGrows(After(c, true, before).Keys, Addresses(before));
    }
  }

  /** Without the cleanup the shared map holds for each address exactly what its own requests
      alone would have left, whatever the readings. */
  lemma {:induction false} MapMatchesSolo(c: Config, reqs: seq<Request>, ip: Ip)
    ensures Find(After(c, false, reqs), ip) == Solo(c, TimesOf(reqs, ip))
    decreases |reqs|
  {
    if reqs == [] {
    } else {
      var before, r := reqs[..|reqs| - 1], reqs[|reqs| - 1];
      MapMatchesSolo(c, before, ip);
      if r.ip == ip {
        OwnStep(c, false, reqs);
      } else {
        NextAt(c, false, After(c, false, before), r.ip, r.time, ip);
      }
    }
  }

  lemma LiveShrinks(c: Config, e: Option<Window>, f: Option<Window>, now: int, later: int)
    requires Live(c, e, now) == Live(c, f, now) && now <= later
    ensures Live(c, e, later) == Live(c, f, later)
  {
  }

  lemma NextLive(c: Config, buckets: Buckets, ip: Ip, now: int, other: Ip)
    requires other != ip
    ensures Live(c, Find(Next(c, true, buckets, ip, now), other), now) == Live(c, Find(buckets, other), now)
  {
    NextAt(c, true, buckets, ip, now, other);
  }

  /** With it, so it does where it still matters, as long as readings come in order. */
  lemma {:induction false} OrderedMapMatchesSolo(c: Config, reqs: seq<Request>, ip: Ip, now: int)
    requires Lagging(reqs, 0) && (reqs != [] ==> reqs[|reqs| - 1].time <= now)
    ensures Live(c, Find(After(c, true, reqs), ip), now) == Live(c, Solo(c, TimesOf(reqs, ip)), now)
    decreases |reqs|
  {
    if reqs == [] {
    } else {
      var r, before := reqs[|reqs| - 1], reqs[..|reqs| - 1];
      OrderedMapMatchesSolo(c, before, ip, r.time);
      var m := After(c, true, before);
      var e, f := Find(m, ip), Solo(c, TimesOf(before, ip));
      if ip == r.ip {
        OwnStep(c, true, reqs);
        AdvanceSeesLive(c, e, f, r.time);
      } else {
        NextLive(c, m, r.ip, r.time, ip);
        LiveShrinks(c, Find(After(c, true, reqs), ip), f, r.time, now);
      }
    }
  }

  /** The last request of a run advances its own entry, in the shared map and alone. */
  lemma OwnStep(c: Config, cleanup: bool, reqs: seq<Request>)
    requires reqs != []
    ensures var r, before := reqs[|reqs| - 1], reqs[..|reqs| - 1];
            && Find(After(c, cleanup, reqs), r.ip) == Some(Advance(c, Find(After(c, cleanup, before), r.ip), r.time))
            && TimesOf(reqs, r.ip) == TimesOf(before, r.ip) + [r.time]
            && Solo(c, TimesOf(reqs, r.ip)) == Some(Advance(c, Solo(c, TimesOf(before, r.ip)), r.time))
  {
    var r, before := reqs[|reqs| - 1], reqs[..|reqs| - 1];
    NextAt(c, cleanup, After(c, cleanup, before), r.ip, r.time, r.ip);
    assert TimesOf(reqs, r.ip)[..|TimesOf(before, r.ip)|] == TimesOf(before, r.ip);
  }

  /** Runs on which the cleanup cannot tell: it is off, too few addresses take part for it,
      windows are empty, or readings come in order. */
  predicate Undisturbed(c: Config, cleanup: bool, reqs: seq<Request>) {
    !cleanup || |Addresses(reqs)| <= CLEANUP_ABOVE || c.window == 0 || Lagging(reqs, 0)
  }

  /** On such runs a decision depends on the address's own requests alone. */
  lemma DecisionIsOwn(c: Config, cleanup: bool, reqs: seq<Request>)
    requires reqs != [] && Undisturbed(c, cleanup, reqs)
    ensures Limited(c, cleanup, reqs) <==> Refused(c, TimesOf(reqs, reqs[|reqs| - 1].ip))
  {
    var before, r := reqs[..|reqs| - 1], reqs[|reqs| - 1];
    OwnStep(c, cleanup, reqs);
    if !cleanup {
      MapMatchesSolo(c, before, r.ip);
    } else if |Addresses(reqs)| <= CLEANUP_ABOVE {
      SizeGrows(Addresses(before), Addresses(reqs));
      FewAddressesNeverClean(c, before);
      MapMatchesSolo(c, before, r.ip);
    } else if c.window != 0 {
      OrderedMapMatchesSolo(c, before, r.ip, r.time);
      AdvanceSeesLive(c, Find(After(c, true, before), r.ip), Solo(c, TimesOf(before, r.ip)), r.time);
    }
  }
}

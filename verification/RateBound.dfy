/** How many requests of one address the limiter lets through in one window length, when
    clock readings may be used out of order. */
module RateBound {
  import opened Prelude
  import opened RateLimit

  /** The least distance between the starts of two windows of one address: a reset waits
      for a whole window, but a cleanup may be followed by a reading `d` older. */
  function Gap(c: Config, cleanup: bool, d: nat): int {
    if cleanup then c.window - d else c.window
  }

  /** The most that can be admitted in [from, from + window). */
  function Most(c: Config, cleanup: bool, d: nat): int
    requires Gap(c, cleanup, d) > 0
  {
    var gap := Gap(c, cleanup, d);
    (2 + (c.window + d - 2) / gap) * (c.max - 1) + 1 + (c.window - 1) / gap
  }

  // ----- Readings -----

  /** Some reading of the run is at or after `x`. */
  predicate Passed(reqs: seq<Request>, x: int) {
    reqs != [] && (reqs[|reqs| - 1].time >= x || Passed(reqs[..|reqs| - 1], x))
  }

  lemma PassedBefore(reqs: seq<Request>, d: nat, x: int)
    requires Lagging(reqs, d) && Passed(reqs, x)
    ensures reqs[|reqs| - 1].time + d >= x
  {
    var i := PassedAt(reqs, x);
  }

  lemma {:induction false} PassedAt(reqs: seq<Request>, x: int) returns (i: nat)
    requires Passed(reqs, x)
    ensures i < |reqs| && reqs[i].time >= x
    decreases |reqs|
  {
    if reqs[|reqs| - 1].time >= x {
      i := |reqs| - 1;
    } else {
      i := PassedAt(reqs[..|reqs| - 1], x);
    }
  }

  // ----- The windows of one address -----

  /** The starts of the windows that `ip` opened, in order. */
  function Opened(c: Config, cleanup: bool, reqs: seq<Request>, ip: Ip): seq<int> {
    if reqs == [] then []
    else
      var before, r := reqs[..|reqs| - 1], reqs[|reqs| - 1];
      var starts := Opened(c, cleanup, before, ip);
      if r.ip == ip && Opens(c, Find(After(c, cleanup, before), ip), r.time) then starts + [r.time] else starts
  }

  predicate Opens(c: Config, entry: Option<Window>, now: int) {
    Live(c, entry, now) == None
  }

  predicate Spaced(starts: seq<int>, gap: int) {
    forall i | 0 <= i < |starts| - 1 :: starts[i] + gap <= starts[i + 1]
  }

  /** What is known of the entry of `ip` and of the windows it opened. */
  predicate WindowsOk(c: Config, cleanup: bool, d: nat, reqs: seq<Request>, entry: Option<Window>, starts: seq<int>) {
    && Spaced(starts, Gap(c, cleanup, d))
    && (entry.Some? ==> starts != [] && entry.value.start == starts[|starts| - 1] && entry.value.count > 0)
    && (|starts| >= 2 ==> Passed(reqs, starts[|starts| - 2] + c.window))
    && (entry.None? && starts != [] ==> cleanup && Passed(reqs, starts[|starts| - 1] + c.window))
  }

  lemma SpacedAppend(starts: seq<int>, t: int, gap: int)
    requires Spaced(starts, gap) && (starts != [] ==> starts[|starts| - 1] + gap <= t)
    ensures Spaced(starts + [t], gap)
  {
  }

  /** A window opens only once the one before is over for some reading. */
  lemma OpensPast(c: Config, cleanup: bool, d: nat, reqs: seq<Request>, entry: Option<Window>, starts: seq<int>)
    requires c.window > 0 && reqs != [] && Lagging(reqs, d) && starts != []
    requires WindowsOk(c, cleanup, d, reqs[..|reqs| - 1], entry, starts) && Opens(c, entry, reqs[|reqs| - 1].time)
    ensures starts[|starts| - 1] + Gap(c, cleanup, d) <= reqs[|reqs| - 1].time
    ensures Passed(reqs, starts[|starts| - 1] + c.window)
  {
    if entry.None? {
      PassedBefore(reqs, d, starts[|starts| - 1] + c.window);
    }
  }

  lemma OpenStep(c: Config, cleanup: bool, d: nat, reqs: seq<Request>, entry: Option<Window>, starts: seq<int>)
    requires c.window > 0 && reqs != [] && Lagging(reqs, d)
    requires WindowsOk(c, cleanup, d, reqs[..|reqs| - 1], entry, starts)
    ensures var t := reqs[|reqs| - 1].time;
            WindowsOk(c, cleanup, d, reqs, Some(Advance(c, entry, t)),
                      if Opens(c, entry, t) then starts + [t] else starts)
  {
    var t := reqs[|reqs| - 1].time;
    if Opens(c, entry, t) {
      if starts != [] {
        OpensPast(c, cleanup, d, reqs, entry, starts);
        assert (starts + [t])[|starts| - 1] == starts[|starts| - 1];
      }
      SpacedAppend(starts, t, Gap(c, cleanup, d));
    }
  }

  /** Another address's request leaves the entry, or cleans it up once it is over. */
  lemma OtherStep(c: Config, cleanup: bool, d: nat, reqs: seq<Request>, entry: Option<Window>, starts: seq<int>,
          after: Option<Window>)
    requires c.window > 0 && reqs != []
    requires WindowsOk(c, cleanup, d, reqs[..|reqs| - 1], entry, starts)
    requires after == entry || (cleanup && after == Live(c, entry, reqs[|reqs| - 1].time))
    ensures WindowsOk(c, cleanup, d, reqs, after, starts)
  {
  }

  lemma {:induction false} WindowsHold(c: Config, cleanup: bool, d: nat, reqs: seq<Request>, ip: Ip)
    requires c.window > 0 && Lagging(reqs, d)
    ensures WindowsOk(c, cleanup, d, reqs, Find(After(c, cleanup, reqs), ip), Opened(c, cleanup, reqs, ip))
    decreases |reqs|
  {
    if reqs == [] {
    } else {
      var before, r := reqs[..|reqs| - 1], reqs[|reqs| - 1];
      var m := After(c, cleanup, before);
      var entry, starts := Find(m, ip), Opened(c, cleanup, before, ip);
      WindowsHold(c, cleanup, d, before, ip);
      NextAt(c, cleanup, m, r.ip, r.time, ip);
      if r.ip == ip {
        OpenStep(c, cleanup, d, reqs, entry, starts);
      } else {
        OtherStep(c, cleanup, d, reqs, entry, starts, Find(After(c, cleanup, reqs), ip));
      }
    }
  }

  // ----- What the windows can contribute -----

  predicate Inside(x: int, from: int, to: int) {
    from <= x < to
  }

  /** Window `i` can have requests in the interval: it is not over before it, and the
      clock had not passed it for good when the window opened. */
  predicate Meets(c: Config, d: nat, starts: seq<int>, i: nat, from: int)
    requires i < |starts|
  {
    starts[i] > from - c.window && (i == 0 || starts[i - 1] < from + d)
  }

  /** The most the first `n` windows contribute: the first request of a window only if it lies inside. */
  function Credit(c: Config, d: nat, starts: seq<int>, n: nat, from: int): int
    requires n <= |starts|
  {
    if n == 0 then 0
    else
      Credit(c, d, starts, n - 1, from)
      + if Meets(c, d, starts, n - 1, from)
        then c.max - 1 + (if Inside(starts[n - 1], from, from + c.window) then 1 else 0) else 0
  }

  lemma {:induction false} CreditAppend(c: Config, d: nat, starts: seq<int>, t: int, n: nat, from: int)
    requires n <= |starts|
    ensures Credit(c, d, starts + [t], n, from) == Credit(c, d, starts, n, from)
  {
    if n == 0 {
    } else {
      CreditAppend(c, d, starts, t, n - 1, from);
    }
  }

  function Min(a: int, b: int): int {
    if a < b then a else b
  }

  /** The share of the window under way. */
  function Current(c: Config, d: nat, starts: seq<int>, count: nat, from: int): int
    requires starts != []
  {
    var last := |starts| - 1;
    if Meets(c, d, starts, last, from)
    then Min(count, c.max) - 1 + (if Inside(starts[last], from, from + c.window) then 1 else 0) else 0
  }

  /** The bound on what has been admitted so far. */
  predicate Credited(c: Config, d: nat, entry: Option<Window>, starts: seq<int>, from: int, n: nat) {
    if entry.Some? && starts != [] then
      n <= Credit(c, d, starts, |starts| - 1, from) + Current(c, d, starts, entry.value.count, from)
    else n <= Credit(c, d, starts, |starts|, from)
  }

  lemma CreditedAll(c: Config, d: nat, entry: Option<Window>, starts: seq<int>, from: int, n: nat)
    requires Credited(c, d, entry, starts, from, n) && c.max > 0
    ensures n <= Credit(c, d, starts, |starts|, from)
  {
  }

  /** A request that opens a window. */
  lemma OpeningCredit(c: Config, cleanup: bool, d: nat, reqs: seq<Request>, entry: Option<Window>, starts: seq<int>,
          from: int, n: nat)
    requires c.max > 0 && c.window > 0 && reqs != [] && Lagging(reqs, d)
    requires WindowsOk(c, cleanup, d, reqs[..|reqs| - 1], entry, starts) && Opens(c, entry, reqs[|reqs| - 1].time)
    requires n <= Credit(c, d, starts, |starts|, from)
    ensures var t := reqs[|reqs| - 1].time;
            n + (if Inside(t, from, from + c.window) then 1 else 0) <=
              Credit(c, d, starts + [t], |starts|, from) + Current(c, d, starts + [t], 1, from)
  {
    var t := reqs[|reqs| - 1].time;
    CreditAppend(c, d, starts, t, |starts|, from);
    var more, last := starts + [t], |starts|;
    assert more[last] == t;
    if Inside(t, from, from + c.window) && starts != [] {
      OpensPast(c, cleanup, d, reqs, entry, starts);
      PassedBefore(reqs, d, starts[last - 1] + c.window);
      assert more[last - 1] == starts[last - 1] < from + d;
      assert Meets(c, d, more, last, from);
    }
  }

  /** A request of the window under way. */
  lemma OngoingCredit(c: Config, cleanup: bool, d: nat, reqs: seq<Request>, w: Window, starts: seq<int>, from: int)
    requires c.max > 0 && c.window > 0 && reqs != [] && Lagging(reqs, d)
    requires WindowsOk(c, cleanup, d, reqs[..|reqs| - 1], Some(w), starts) && !Opens(c, Some(w), reqs[|reqs| - 1].time)
    ensures Current(c, d, starts, w.count, from) +
              (if Inside(reqs[|reqs| - 1].time, from, from + c.window) && w.count + 1 <= c.max then 1 else 0) <=
            Current(c, d, starts, w.count + 1, from)
  {
    var t, last := reqs[|reqs| - 1].time, |starts| - 1;
    if Inside(t, from, from + c.window) {
      if last >= 1 {
        PassedBefore(reqs, d, starts[last - 1] + c.window);
      }
      assert Meets(c, d, starts, last, from);
    }
  }

  lemma OwnCredit(c: Config, cleanup: bool, d: nat, reqs: seq<Request>, entry: Option<Window>, starts: seq<int>,
          from: int, n: nat)
    requires c.max > 0 && c.window > 0 && reqs != [] && Lagging(reqs, d)
    requires WindowsOk(c, cleanup, d, reqs[..|reqs| - 1], entry, starts) && Credited(c, d, entry, starts, from, n)
    ensures var t := reqs[|reqs| - 1].time; var w := Advance(c, entry, t);
            Credited(c, d, Some(w), if Opens(c, entry, t) then starts + [t] else starts, from,
                     n + if Inside(t, from, from + c.window) && w.count <= c.max then 1 else 0)
  {
    CreditedAll(c, d, entry, starts, from, n);
    if Opens(c, entry, reqs[|reqs| - 1].time) {
      OpeningCredit(c, cleanup, d, reqs, entry, starts, from, n);
      assert (starts + [reqs[|reqs| - 1].time])[..|starts|] == starts;
    } else {
      OngoingCredit(c, cleanup, d, reqs, entry.value, starts, from);
    }
  }

  /** What a request of the address itself changes. */
  lemma OwnRun(c: Config, cleanup: bool, reqs: seq<Request>, ip: Ip, from: int, to: int)
    requires reqs != [] && reqs[|reqs| - 1].ip == ip
    ensures var before, t := reqs[..|reqs| - 1], reqs[|reqs| - 1].time;
            var entry, starts := Find(After(c, cleanup, before), ip), Opened(c, cleanup, before, ip);
            var w := Advance(c, entry, t);
            && Find(After(c, cleanup, reqs), ip) == Some(w)
            && Opened(c, cleanup, reqs, ip) == (if Opens(c, entry, t) then starts + [t] else starts)
            && Admitted(c, cleanup, reqs, ip, from, to) ==
                 Admitted(c, cleanup, before, ip, from, to) + if Inside(t, from, to) && w.count <= c.max then 1 else 0
  {
    OwnStep(c, cleanup, reqs);
  }

  lemma {:induction false} CreditHolds(c: Config, cleanup: bool, d: nat, reqs: seq<Request>, ip: Ip, from: int)
    requires c.max > 0 && c.window > 0 && Lagging(reqs, d)
    ensures Credited(c, d, Find(After(c, cleanup, reqs), ip), Opened(c, cleanup, reqs, ip), from,
                     Admitted(c, cleanup, reqs, ip, from, from + c.window))
    decreases |reqs|
  {
    if reqs == [] {
    } else {
      var before, r := reqs[..|reqs| - 1], reqs[|reqs| - 1];
      var entry, starts := Find(After(c, cleanup, before), ip), Opened(c, cleanup, before, ip);
      var n := Admitted(c, cleanup, before, ip, from, from + c.window);
      CreditHolds(c, cleanup, d, before, ip, from);
      if r.ip == ip {
        WindowsHold(c, cleanup, d, before, ip);
        OwnRun(c, cleanup, reqs, ip, from, from + c.window);
        OwnCredit(c, cleanup, d, reqs, entry, starts, from, n);
      } else {
        NextAt(c, cleanup, After(c, cleanup, before), r.ip, r.time, ip);
        CreditedAll(c, d, entry, starts, from, n);
      }
    }
  }

  // ----- How many windows fit -----

  /** The starts among the first `n` in [lo, hi]. */
  function CountIn(starts: seq<int>, n: nat, lo: int, hi: int): nat
    requires n <= |starts|
  {
    if n == 0 then 0 else CountIn(starts, n - 1, lo, hi) + if lo <= starts[n - 1] <= hi then 1 else 0
  }

  lemma {:induction false} CountSpaced(starts: seq<int>, n: nat, lo: int, hi: int, gap: int)
    requires n <= |starts| && Spaced(starts, gap) && gap > 0 && CountIn(starts, n, lo, hi) > 0
    ensures (CountIn(starts, n, lo, hi) - 1) * gap <= starts[n - 1] - lo
    ensures (CountIn(starts, n, lo, hi) - 1) * gap <= hi - lo
  {
    var k := CountIn(starts, n - 1, lo, hi);
    if k > 0 {
      CountSpaced(starts, n - 1, lo, hi, gap);
      assert starts[n - 2] + gap <= starts[n - 1];
      assert k * gap == (k - 1) * gap + gap;
    }
  }

  lemma Quotient(k: int, y: int, gap: int)
    requires gap > 0 && k * gap <= y
    ensures k <= y / gap
  {
    var q := y / gap;
    assert y < (q + 1) * gap;
    if k >= q + 1 {
      Monotonic(q + 1, k, gap);
    }
  }

  lemma CountBound(starts: seq<int>, n: nat, lo: int, hi: int, gap: int)
    requires n <= |starts| && Spaced(starts, gap) && gap > 0 && lo <= hi + 1
    ensures CountIn(starts, n, lo, hi) <= 1 + (hi - lo) / gap
  {
    var k := CountIn(starts, n, lo, hi) - 1;
    if k >= 0 {
      CountSpaced(starts, n, lo, hi, gap);
    } else {
      assert k * gap <= -1;
    }
    Quotient(k, hi - lo, gap);
  }

  function MeetCount(c: Config, d: nat, starts: seq<int>, n: nat, from: int): nat
    requires n <= |starts|
  {
    if n == 0 then 0 else MeetCount(c, d, starts, n - 1, from) + if Meets(c, d, starts, n - 1, from) then 1 else 0
  }

  lemma {:induction false} CreditCounts(c: Config, d: nat, starts: seq<int>, n: nat, from: int)
    requires n <= |starts| && c.max > 0
    ensures Credit(c, d, starts, n, from) <=
              MeetCount(c, d, starts, n, from) * (c.max - 1) + CountIn(starts, n, from, from + c.window - 1)
  {
    if n == 0 {
    } else {
      CreditCounts(c, d, starts, n - 1, from);
      var k := MeetCount(c, d, starts, n - 1, from);
      assert (k + 1) * (c.max - 1) == k * (c.max - 1) + (c.max - 1);
    }
  }

  /** All windows that meet the interval start low enough for one to follow, but the last. */
  lemma {:induction false} MeetsLow(c: Config, d: nat, starts: seq<int>, n: nat, from: int, gap: int)
    requires n <= |starts| && Spaced(starts, gap) && gap > 0 && c.window > 0
    ensures var low := CountIn(starts, n, from - c.window + 1, from + d - 1);
            MeetCount(c, d, starts, n, from) <= low + (if n > 0 && starts[n - 1] >= from + d then 1 else 0)
  {
    if n == 0 {
    } else {
      MeetsLow(c, d, starts, n - 1, from, gap);
      assert n >= 2 ==> starts[n - 2] + gap <= starts[n - 1];
    }
  }

  /** How many windows can contribute, and how many of them start inside. */
  lemma WindowsFit(c: Config, cleanup: bool, d: nat, starts: seq<int>, from: int)
    requires c.window > 0 && Gap(c, cleanup, d) > 0 && Spaced(starts, Gap(c, cleanup, d))
    ensures MeetCount(c, d, starts, |starts|, from) <= 2 + (c.window + d - 2) / Gap(c, cleanup, d)
    ensures CountIn(starts, |starts|, from, from + c.window - 1) <= 1 + (c.window - 1) / Gap(c, cleanup, d)
  {
    var gap, n := Gap(c, cleanup, d), |starts|;
    MeetsLow(c, d, starts, n, from, gap);
    CountBound(starts, n, from - c.window + 1, from + d - 1, gap);
    CountBound(starts, n, from, from + c.window - 1, gap);
  }

  /** Over any run whose readings lag by at most `d`, an address gets at most `Most` requests
      through in any half-open interval of one window length. */
  lemma AdmittedWithin(c: Config, cleanup: bool, d: nat, reqs: seq<Request>, ip: Ip, from: int)
    requires c.max > 0 && c.window > 0 && Gap(c, cleanup, d) > 0 && Lagging(reqs, d)
    ensures Admitted(c, cleanup, reqs, ip, from, from + c.window) <= Most(c, cleanup, d)
  {
    var starts := Opened(c, cleanup, reqs, ip);
    var n := Admitted(c, cleanup, reqs, ip, from, from + c.window);
    CreditHolds(c, cleanup, d, reqs, ip, from);
    WindowsHold(c, cleanup, d, reqs, ip);
    CreditedAll(c, d, Find(After(c, cleanup, reqs), ip), starts, from, n);
    CreditCounts(c, d, starts, |starts|, from);
    WindowsFit(c, cleanup, d, starts, from);
    Monotonic(MeetCount(c, d, starts, |starts|, from), 2 + (c.window + d - 2) / Gap(c, cleanup, d), c.max - 1);
  }

  lemma Monotonic(a: int, b: int, m: int)
    requires a <= b && m >= 0
    ensures a * m <= b * m
  {
  }
}

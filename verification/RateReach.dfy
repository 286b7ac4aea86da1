/** Runs that reach what RateBound allows, and what the cleanup does to runs whose
    readings are used out of order. */
module RateReach {
  import opened Prelude
  import opened RateLimit
  import opened RateBound

  /** The address the runs are about. */
  const OWN: Ip := 0

  // ----- Building runs -----

  /** A run with lag `d` and no reading after `top` that leaves OWN with `entry` and `n`
      of its requests admitted in [0, window). */
  ghost predicate Built(c: Config, cleanup: bool, d: nat, reqs: seq<Request>, entry: Option<Window>, top: int, n: nat) {
    && Lagging(reqs, d)
    && (forall i | 0 <= i < |reqs| :: reqs[i].time <= top)
    && Find(After(c, cleanup, reqs), OWN) == entry
    && Admitted(c, cleanup, reqs, OWN, 0, c.window) == n
  }

  lemma Nothing(c: Config, cleanup: bool, d: nat, top: int)
    ensures Built(c, cleanup, d, [], None, top, 0)
  {
  }

  /** What OWN's entry would be without the other addresses. */
  function Alone(c: Config, reqs: seq<Request>): Option<Window> {
    Solo(c, TimesOf(reqs, OWN))
  }

  function Max(a: int, b: int): int {
    if a < b then b else a
  }

  /** One more request of OWN. */
  lemma Ask(c: Config, cleanup: bool, d: nat, reqs: seq<Request>, entry: Option<Window>, top: int, n: nat, t: int)
    returns (more: seq<Request>)
    requires Built(c, cleanup, d, reqs, entry, top, n) && top <= t + d
    ensures var w := Advance(c, entry, t);
            && Alone(c, more) == Some(Advance(c, Alone(c, reqs), t))
            && more == reqs + [Request(OWN, t)]
            && Addresses(more) == Addresses(reqs) + {OWN}
            && (Limited(c, cleanup, more) <==> w.count > c.max)
            && Built(c, cleanup, d, more, Some(w), Max(top, t),
                     n + if Inside(t, 0, c.window) && w.count <= c.max then 1 else 0)
  {
    more := reqs + [Request(OWN, t)];
    assert more[..|reqs|] == reqs;
    OwnStep(c, cleanup, more);
  }

  /** One more in the window under way. */
  lemma AskAgain(c: Config, cleanup: bool, d: nat, reqs: seq<Request>, w: Window, top: int, n: nat, t: int)
    returns (more: seq<Request>)
    requires Built(c, cleanup, d, reqs, Some(w), top, n) && t <= top <= t + d
    requires Elapsed(t, w.start) < c.window && Inside(t, 0, c.window) && w.count < c.max
    ensures Built(c, cleanup, d, more, Some(Window(w.start, w.count + 1)), top, n + 1)
    ensures Alone(c, reqs) == Some(w) ==> Alone(c, more) == Some(Window(w.start, w.count + 1))
    ensures Addresses(reqs) <= {OWN} ==> Addresses(more) <= {OWN}
  {
    more := Ask(c, cleanup, d, reqs, Some(w), top, n, t);
  }

  /** `k` more at one reading of the window under way. */
  lemma {:induction false} AskMore(c: Config, cleanup: bool, d: nat, reqs: seq<Request>, w: Window, top: int, n: nat,
          t: int, k: nat)
    returns (more: seq<Request>)
    requires Built(c, cleanup, d, reqs, Some(w), top, n) && t <= top <= t + d
    requires Elapsed(t, w.start) < c.window && Inside(t, 0, c.window) && w.count + k <= c.max
    ensures Built(c, cleanup, d, more, Some(Window(w.start, w.count + k)), top, n + k)
    ensures Alone(c, reqs) == Some(w) ==> Alone(c, more) == Some(Window(w.start, w.count + k))
    ensures Addresses(reqs) <= {OWN} ==> Addresses(more) <= {OWN}
    decreases k
  {
    if k == 0 {
      more := reqs;
    } else {
      var before := AskMore(c, cleanup, d, reqs, w, top, n, t, k - 1);
      more := AskAgain(c, cleanup, d, before, Window(w.start, w.count + (k - 1)), top, n + (k - 1), t);
    }
  }

  /** A whole window: its first request at `s` and the rest at `t`, inside the interval. */
  lemma FillWindow(c: Config, cleanup: bool, d: nat, reqs: seq<Request>, entry: Option<Window>, top: int, n: nat,
          s: int, t: int)
    returns (more: seq<Request>)
    requires c.max > 0 && Built(c, cleanup, d, reqs, entry, top, n) && top <= s + d && Opens(c, entry, s)
    requires Max(top, Max(s, t)) <= t + d && Elapsed(t, s) < c.window && Inside(t, 0, c.window)
    ensures Built(c, cleanup, d, more, Some(Window(s, c.max)), Max(top, Max(s, t)),
                  n + c.max - 1 + if Inside(s, 0, c.window) then 1 else 0)
    ensures Opens(c, Alone(c, reqs), s) ==> Alone(c, more) == Some(Window(s, c.max))
    ensures Addresses(reqs) <= {OWN} ==> Addresses(more) <= {OWN}
  {
    var inside := if Inside(s, 0, c.window) then 1 else 0;
    more := Ask(c, cleanup, d, reqs, entry, top, n, s);
    Loosen(c, cleanup, d, more, Some(Window(s, 1)), Max(top, s), Max(top, Max(s, t)), n + inside);
    more := AskMore(c, cleanup, d, more, Window(s, 1), Max(top, Max(s, t)), n + inside, t, c.max - 1);
  }

  lemma Loosen(c: Config, cleanup: bool, d: nat, reqs: seq<Request>, entry: Option<Window>, top: int, higher: int,
          n: nat)
    requires Built(c, cleanup, d, reqs, entry, top, n) && top <= higher
    ensures Built(c, cleanup, d, reqs, entry, higher, n)
  {
  }

  // ----- Without the cleanup, or with one address -----

  /** The windows start a whole window apart, the first as early as it can still meet the interval. */
  function StartAt(c: Config, i: nat): int {
    i * c.window - c.window + 1
  }

  /** Which of the first `k` windows start inside: one, the second unless windows are single ticks. */
  function StartsInside(c: Config, k: nat): nat {
    if k >= 2 || (k == 1 && c.window == 1) then 1 else 0
  }

  lemma StartFacts(c: Config, i: nat)
    requires c.window > 0
    ensures i == 0 ==> StartAt(c, i) == 1 - c.window
    ensures i > 0 ==> StartAt(c, i) == StartAt(c, i - 1) + c.window && StartAt(c, i) >= 1
    ensures Inside(StartAt(c, i), 0, c.window) <==> StartsInside(c, i + 1) > StartsInside(c, i)
    ensures i >= 2 ==> StartAt(c, i) > c.window
  {
    if i > 0 {
      assert i * c.window == (i - 1) * c.window + c.window;
      assert (i - 1) * c.window >= 0;
      if i >= 2 {
        assert (i - 1) * c.window >= c.window;
      }
    }
  }

  /** `k` full windows of requests whose readings lie inside, as far as the lag allows. */
  lemma {:induction false} Windows(c: Config, cleanup: bool, d: nat, k: nat) returns (reqs: seq<Request>, top: int)
    requires c.max > 0 && c.window > 0 && k > 0 && StartAt(c, k - 1) < c.window + d
    ensures Built(c, cleanup, d, reqs, Some(Window(StartAt(c, k - 1), c.max)), top,
                  k * (c.max - 1) + StartsInside(c, k))
    ensures top < StartAt(c, k) && Addresses(reqs) <= {OWN}
    decreases k
  {
    var s := StartAt(c, k - 1);
    StartFacts(c, k - 1);
    StartFacts(c, k);
    if k == 1 {
      Nothing(c, cleanup, d, s);
      reqs := FillWindow(c, cleanup, d, [], None, s, 0, s, 0);
      top := 0;
    } else {
      var n := (k - 1) * (c.max - 1) + StartsInside(c, k - 1);
      reqs, top := Windows(c, cleanup, d, k - 1);
      reqs := FillWindow(c, cleanup, d, reqs, Some(Window(StartAt(c, k - 2), c.max)), top, n, s, c.window - 1);
      top := Max(top, Max(s, c.window - 1));
      assert k * (c.max - 1) == (k - 1) * (c.max - 1) + (c.max - 1);
    }
  }

  // ----- Sweeping -----

  function FirstIps(k: nat): (ips: set<Ip>)
    ensures |ips| == k && forall ip: nat :: ip in ips <==> 0 < ip <= k
  {
    if k == 0 then {} else FirstIps(k - 1) + {k}
  }

  predicate FreshAt(c: Config, buckets: Buckets, t: int, ip: Ip) {
    ip in buckets && Elapsed(t, buckets[ip].start) < c.window
  }

  /** The addresses 1 to `k` have entries that a cleanup at `t` keeps. */
  predicate Fresh(c: Config, buckets: Buckets, t: int, k: nat) {
    forall ip: Ip | 0 < ip <= k :: FreshAt(c, buckets, t, ip)
  }

  lemma FreshOnes(c: Config, buckets: Buckets, t: int, k: nat)
    requires Fresh(c, buckets, t, k)
    ensures |buckets| >= k
  {
    forall ip | ip in FirstIps(k) ensures ip in buckets.Keys {
      assert FreshAt(c, buckets, t, ip);
    }
    SizeGrows(FirstIps(k), buckets.Keys);
  }

  lemma FreshNext(c: Config, cleanup: bool, buckets: Buckets, t: int, k: nat)
    requires c.window > 0 && Fresh(c, buckets, t, k)
    ensures Fresh(c, Next(c, cleanup, buckets, k + 1, t), t, k + 1)
  {
    var m := Next(c, cleanup, buckets, k + 1, t);
    forall ip: Ip | 0 < ip <= k + 1 ensures FreshAt(c, m, t, ip) {
      assert ip <= k ==> FreshAt(c, buckets, t, ip);
      NextAt(c, cleanup, buckets, k + 1, t, ip);
    }
  }

  /** What one other address does to OWN's entry. */
  lemma OneOther(c: Config, cleanup: bool, d: nat, reqs: seq<Request>, was: Option<Window>, n: nat, t: int, k: nat)
    returns (more: seq<Request>, kept: Option<Window>)
    requires c.window > 0 && Built(c, cleanup, d, reqs, was, t, n) && Fresh(c, After(c, cleanup, reqs), t, k)
    ensures Built(c, cleanup, d, more, kept, t, n) && TimesOf(more, OWN) == TimesOf(reqs, OWN)
    ensures Fresh(c, After(c, cleanup, more), t, k + 1)
    ensures kept == was || (cleanup && kept == Live(c, was, t))
    ensures cleanup && k > CLEANUP_ABOVE ==> kept == Live(c, was, t)
  {
    var m := After(c, cleanup, reqs);
    more := reqs + [Request(k + 1, t)];
    assert more[..|reqs|] == reqs;
    kept := Find(After(c, cleanup, more), OWN);
    FreshOnes(c, m, t, k);
    FreshNext(c, cleanup, m, t, k);
    NextAt(c, cleanup, m, k + 1, t, OWN);
  }

  /** Addresses 1 to `k` ask in turn. They leave OWN's entry, until so many are there that the cleanup looks at it. */
  lemma {:induction false} OthersAsk(c: Config, cleanup: bool, d: nat, reqs: seq<Request>, entry: Option<Window>,
          n: nat, t: int, k: nat)
    returns (more: seq<Request>, kept: Option<Window>)
    requires c.window > 0 && Built(c, cleanup, d, reqs, entry, t, n)
    ensures Built(c, cleanup, d, more, kept, t, n) && TimesOf(more, OWN) == TimesOf(reqs, OWN)
    ensures Fresh(c, After(c, cleanup, more), t, k)
    ensures kept == entry || (cleanup && kept == Live(c, entry, t))
    ensures cleanup && k > CLEANUP_ABOVE + 1 ==> kept == Live(c, entry, t)
    decreases k
  {
    if k == 0 {
      more, kept := reqs, entry;
    } else {
      var before, was := OthersAsk(c, cleanup, d, reqs, entry, n, t, k - 1);
      more, kept := OneOther(c, cleanup, d, before, was, n, t, k - 1);
    }
  }

  /** Enough other addresses to make a cleanup happen. */
  lemma Enough() returns (k: nat)
    ensures k > CLEANUP_ABOVE + 1
  {
    k := CLEANUP_ABOVE + 2;
  }

  /** At `t` OWN's entry goes, if it is over. */
  lemma Sweep(c: Config, d: nat, reqs: seq<Request>, entry: Option<Window>, top: int, n: nat, t: int)
    returns (more: seq<Request>)
    requires c.window > 0 && Built(c, true, d, reqs, entry, top, n) && top <= t
    ensures Built(c, true, d, more, Live(c, entry, t), t, n) && TimesOf(more, OWN) == TimesOf(reqs, OWN)
  {
    var k := Enough();
    Loosen(c, true, d, reqs, entry, top, t, n);
    var kept;
    more, kept := OthersAsk(c, true, d, reqs, entry, n, t, k);
  }

  // ----- With the cleanup -----

  /** Windows that a cleanup cuts short start only `window - d` apart; number 0 is the last. */
  function SweptStart(c: Config, d: nat, j: nat): int {
    c.window - 1 - j * (c.window - d)
  }

  /** Of the windows from number 0 on, those up to `q` start inside; all up to `n` - 1 meet the interval. */
  ghost predicate SweptPlan(c: Config, d: nat, n: nat, q: nat) {
    && 0 < d < c.window && q < n
    && (forall j: nat | j < n :: SweptStart(c, d, j) + c.window > 0)
    && (forall j: nat | j < n :: SweptStart(c, d, j) >= 0 <==> j <= q)
  }

  /** What the windows from number `n` - 1 back to `j` let through. */
  function SweptSum(c: Config, n: nat, q: nat, j: nat): nat
    requires c.max > 0
    decreases n - j
  {
    if j >= n then 0 else c.max - 1 + (if j <= q then 1 else 0) + SweptSum(c, n, q, j + 1)
  }

  lemma {:induction false} SweptSumIs(c: Config, n: nat, q: nat, j: nat)
    requires c.max > 0 && q < n && j <= n
    ensures SweptSum(c, n, q, j) == (n - j) * (c.max - 1) + if j <= q then q - j + 1 else 0
    decreases n - j
  {
    if j == n {
    } else {
      SweptSumIs(c, n, q, j + 1);
      assert (n - j) * (c.max - 1) == (n - (j + 1)) * (c.max - 1) + (c.max - 1);
    }
  }

  lemma SweptStep(c: Config, d: nat, j: nat)
    ensures SweptStart(c, d, j + 1) + c.window == SweptStart(c, d, j) + d
    ensures d <= c.window ==> SweptStart(c, d, j) < c.window
  {
    var g := c.window - d;
    assert (j + 1) * g == j * g + g;
    if d <= c.window {
      RateBound.Monotonic(0, j, g);
    }
  }

  /** One window, filled and swept as soon as it is over. */
  lemma SweptWindow(c: Config, d: nat, reqs: seq<Request>, n: nat, s: int) returns (more: seq<Request>)
    requires c.max > 0 && 0 < d < c.window && 0 < s + c.window && s < c.window
    requires Built(c, true, d, reqs, None, s + d, n)
    ensures Built(c, true, d, more, None, s + c.window, n + c.max - 1 + if s >= 0 then 1 else 0)
  {
    var t := Max(0, s);
    var i := if s >= 0 then 1 else 0;
    more := FillWindow(c, true, d, reqs, None, s + d, n, s, t);
    more := Sweep(c, d, more, Some(Window(s, c.max)), Max(s + d, t), n + c.max - 1 + i, s + c.window);
  }

  /** Full windows from number `n` - 1 down to `j`, each swept as soon as it is over. */
  lemma {:induction false} Swept(c: Config, d: nat, n: nat, q: nat, j: nat) returns (reqs: seq<Request>)
    requires c.max > 0 && SweptPlan(c, d, n, q) && j <= n
    ensures Built(c, true, d, reqs, None, SweptStart(c, d, j) + c.window, SweptSum(c, n, q, j))
    decreases n - j
  {
    if j == n {
      reqs := [];
      Nothing(c, true, d, SweptStart(c, d, j) + c.window);
    } else {
      reqs := Swept(c, d, n, q, j + 1);
      SweptStep(c, d, j);
      reqs := SweptWindow(c, d, reqs, SweptSum(c, n, q, j + 1), SweptStart(c, d, j));
    }
  }

  lemma OneMore(c: Config, d: nat, reqs: seq<Request>, n: nat) returns (more: seq<Request>)
    requires c.max > 0 && 0 < c.window <= d && Built(c, true, d, reqs, None, c.window, n)
    ensures Built(c, true, d, more, None, c.window, n + 1)
  {
    more := Ask(c, true, d, reqs, None, c.window, n, 0);
    more := Sweep(c, d, more, Some(Window(0, 1)), c.window, n + 1, c.window);
  }

  /** When readings can lag by a window, a cleanup can end a window before any reading of
      it is over, again and again. */
  lemma {:induction false} Endless(c: Config, d: nat, n: nat) returns (reqs: seq<Request>)
    requires c.max > 0 && 0 < c.window <= d
    ensures Built(c, true, d, reqs, None, c.window, n)
  {
    if n == 0 {
      reqs := [];
      Nothing(c, true, d, c.window);
    } else {
      var before := Endless(c, d, n - 1);
      reqs := OneMore(c, d, before, n - 1);
    }
  }

  // ----- The exact bounds -----

  predicate AtMost(c: Config, cleanup: bool, reqs: seq<Request>, ip: Ip, from: int, n: int) {
    Admitted(c, cleanup, reqs, ip, from, from + c.window) <= n
  }

  /** As many windows as `Most` allows for, and those of them that start inside, make a plan. */
  lemma PlanFits(c: Config, d: nat, n: nat, q: nat)
    requires 0 < d < c.window && c.window - d > 0
    requires n == 2 + (c.window + d - 2) / (c.window - d) && q == (c.window - 1) / (c.window - d)
    ensures SweptPlan(c, d, n, q)
  {
    var g := c.window - d;
    var k := (c.window + d - 2) / g;
    Floor(c.window + d - 2, g);
    Floor(c.window - 1, g);
    Quotient(q, c.window + d - 2, g);
    forall j: nat | j < n
      ensures SweptStart(c, d, j) + c.window > 0 && (SweptStart(c, d, j) >= 0 <==> j <= q)
    {
      Placed(c.window - 1, j, q, k + 1, g);
    }
  }

  lemma Floor(y: int, g: int)
    requires g > 0
    ensures y / g * g <= y < y / g * g + g == (y / g + 1) * g
  {
  }

  lemma Placed(x: int, j: nat, q: nat, last: nat, g: int)
    requires g > 0 && q * g <= x < (q + 1) * g && j <= last
    ensures j * g <= last * g && (j * g <= x <==> j <= q)
  {
    Monotonic(j, last, g);
    if j <= q {
      Monotonic(j, q, g);
    } else {
      Monotonic(q + 1, j, g);
    }
  }

  lemma SweptReached(c: Config, d: nat) returns (reqs: seq<Request>)
    requires c.max > 0 && 0 < d < c.window
    ensures Lagging(reqs, d) && Admitted(c, true, reqs, OWN, 0, c.window) == Most(c, true, d)
  {
    var g := c.window - d;
    var n, q: nat := 2 + (c.window + d - 2) / g, (c.window - 1) / g;
    PlanFits(c, d, n, q);
    SweptSumIs(c, n, q, 0);
    reqs := Swept(c, d, n, q, 0);
  }

  lemma SpacedReached(c: Config, cleanup: bool, d: nat) returns (reqs: seq<Request>)
    requires c.max > 0 && c.window > 0 && (d == 0 || !cleanup)
    ensures Lagging(reqs, d) && Admitted(c, cleanup, reqs, OWN, 0, c.window) == Most(c, cleanup, d)
    ensures Addresses(reqs) <= {OWN}
  {
    var y := c.window + d - 2;
    var k := 2 + y / c.window;
    assert y / c.window * c.window <= y;
    assert (k - 1) * c.window == y / c.window * c.window + c.window;
    assert (c.window - 1) / c.window == 0;
    assert k == 1 ==> c.window == 1;
    var top;
    reqs, top := Windows(c, cleanup, d, k);
  }

  /** Some run reaches `Most`. */
  lemma MostIsReached(c: Config, cleanup: bool, d: nat) returns (reqs: seq<Request>)
    requires c.max > 0 && c.window > 0 && Gap(c, cleanup, d) > 0
    ensures Lagging(reqs, d) && Admitted(c, cleanup, reqs, OWN, 0, c.window) == Most(c, cleanup, d)
  {
    if cleanup && d > 0 {
      reqs := SweptReached(c, d);
    } else {
      reqs := SpacedReached(c, cleanup, d);
    }
  }

  /** At lag `d` no run lets more than `n` requests of one address through in one window length. */
  ghost predicate SureLimit(c: Config, cleanup: bool, d: nat, n: int) {
    forall reqs, ip, from :: Lagging(reqs, d) ==> AtMost(c, cleanup, reqs, ip, from, n)
  }

  /** With lag `d`, `n` admitted in any window length is a sure limit if and only if it is
      `Most` or more. */
  lemma AdmittedExactly(c: Config, cleanup: bool, d: nat, n: int)
    requires c.max > 0 && c.window > 0 && Gap(c, cleanup, d) > 0
    ensures SureLimit(c, cleanup, d, n) <==> Most(c, cleanup, d) <= n
  {
    if Most(c, cleanup, d) <= n {
      forall reqs, ip, from | Lagging(reqs, d) ensures AtMost(c, cleanup, reqs, ip, from, n) {
        AdmittedWithin(c, cleanup, d, reqs, ip, from);
      }
    } else {
      var reqs := MostIsReached(c, cleanup, d);
      assert !AtMost(c, cleanup, reqs, OWN, 0, n);
    }
  }

  /** With the cleanup and a lag of a window or more there is no limit at all. */
  lemma NoLimit(c: Config, d: nat, n: nat)
    requires c.max > 0 && 0 < c.window <= d
    ensures !SureLimit(c, true, d, n)
  {
    var reqs := Endless(c, d, n + 1);
    assert !AtMost(c, true, reqs, OWN, 0, n);
  }

  // ----- Runs of few addresses -----

  predicate Few(reqs: seq<Request>) {
    |Addresses(reqs)| <= CLEANUP_ABOVE
  }

  ghost predicate SureForFew(c: Config, d: nat, n: int) {
    forall reqs, ip, from :: Lagging(reqs, d) && Few(reqs) ==> AtMost(c, true, reqs, ip, from, n)
  }

  lemma {:induction false} FewAdmitted(c: Config, reqs: seq<Request>, ip: Ip, from: int, to: int)
    requires Few(reqs)
    ensures Admitted(c, true, reqs, ip, from, to) == Admitted(c, false, reqs, ip, from, to)
    decreases |reqs|
  {
    if reqs == [] {
    } else {
      var before := reqs[..|reqs| - 1];
      FewAddressesNeverClean(c, reqs);
      SizeGrows(Addresses(before), Addresses(reqs));
      FewAdmitted(c, before, ip, from, to);
    }
  }

  /** With so few addresses that no cleanup happens, the sure limits are those without it, at any lag. */
  lemma FewAdmittedExactly(c: Config, d: nat, n: int)
    requires c.max > 0 && c.window > 0
    ensures SureForFew(c, d, n) <==> Most(c, false, d) <= n
  {
    if Most(c, false, d) <= n {
      forall reqs, ip, from | Lagging(reqs, d) && Few(reqs) ensures AtMost(c, true, reqs, ip, from, n) {
        FewAdmitted(c, reqs, ip, from, from + c.window);
        AdmittedWithin(c, false, d, reqs, ip, from);
      }
    } else {
      var reqs := SpacedReached(c, false, d);
      SizeGrows(Addresses(reqs), {OWN});
      FewAdmitted(c, reqs, OWN, 0, c.window);
      assert !AtMost(c, true, reqs, OWN, 0, n);
    }
  }

  /** Two windows share an interval: 2 * max - 1 is a sure limit only at no lag, or, if no
      cleanup happens, at a lag of one tick, or if max is one. */
  lemma TwiceMaxExactly(c: Config, d: nat)
    requires c.max > 0 && c.window > 0
    ensures SureLimit(c, true, d, 2 * c.max - 1) <==> d == 0
    ensures SureForFew(c, d, 2 * c.max - 1) <==> d <= 1 || c.max == 1
  {
    FewAdmittedExactly(c, d, 2 * c.max - 1);
    MostAlone(c, d);
    if d < c.window {
      AdmittedExactly(c, true, d, 2 * c.max - 1);
      MostSwept(c, d);
    } else {
      NoLimit(c, d, 2 * c.max - 1);
    }
  }

  /** From two ticks on up to a window and one more, three windows do. */
  lemma ThriceMaxExactly(c: Config, d: nat, n: int)
    requires c.max > 0 && c.window > 0 && 2 <= d <= c.window + 1
    ensures SureForFew(c, d, n) <==> 3 * c.max - 2 <= n
  {
    FewAdmittedExactly(c, d, n);
    MostAlone(c, d);
  }

  lemma MostAlone(c: Config, d: nat)
    requires c.max > 0 && c.window > 0
    ensures Most(c, false, d) <= 2 * c.max - 1 <==> d <= 1 || c.max == 1
    ensures 2 <= d <= c.window + 1 ==> Most(c, false, d) == 3 * c.max - 2
  {
    var y, m := c.window + d - 2, c.max - 1;
    DivideIs(c.window - 1, c.window, 0);
    if y < 0 {
      DivideIs(y, c.window, -1);
    } else if d <= 1 {
      DivideIs(y, c.window, 0);
    } else if d <= c.window + 1 {
      DivideIs(y, c.window, 1);
    } else {
      Quotient(1, y, c.window);
      Monotonic(3, 2 + y / c.window, m);
      assert m == 0 ==> (2 + y / c.window) * m == 0;
    }
  }

  lemma DivideIs(y: int, g: int, k: int)
    requires g > 0 && k * g <= y < (k + 1) * g
    ensures y / g == k
  {
    Quotient(k, y, g);
    if y / g > k {
      Monotonic(k + 1, y / g, g);
    }
  }

  lemma MostSwept(c: Config, d: nat)
    requires c.max > 0 && d < c.window
    ensures Most(c, true, d) <= 2 * c.max - 1 <==> d == 0
  {
    if d == 0 {
      MostAlone(c, 0);
    } else {
      var g := c.window - d;
      Quotient(1, c.window + d - 2, g);
      Quotient(1, c.window - 1, g);
      Monotonic(3, 2 + (c.window + d - 2) / g, c.max - 1);
    }
  }

  // ----- What the cleanup changes -----

  predicate Same(c: Config, reqs: seq<Request>) {
    reqs != [] ==> (Limited(c, true, reqs) <==> Limited(c, false, reqs))
  }

  /** A window filled at 0 and swept at its end lets the address in again at a reading from inside it. */
  lemma SweptTooEarly(c: Config, d: nat) returns (reqs: seq<Request>)
    requires c.max > 0 && c.window > 0 && d > 0
    ensures Lagging(reqs, d) && reqs != [] && !Limited(c, true, reqs) && Limited(c, false, reqs)
  {
    Nothing(c, true, d, 0);
    reqs := FillWindow(c, true, d, [], None, 0, 0, 0, 0);
    reqs := Sweep(c, d, reqs, Some(Window(0, c.max)), 0, c.max, c.window);
    reqs := Ask(c, true, d, reqs, None, c.window, c.max, c.window - 1);
    DecisionIsOwn(c, false, reqs);
  }

  /** The cleanup changes no decision of any run with lag `d` if and only if there is no lag,
      or windows are empty. */
  lemma CleanupInvisibleExactly(c: Config, d: nat)
    requires c.max > 0
    ensures (forall reqs :: Lagging(reqs, d) ==> Same(c, reqs)) <==> d == 0 || c.window == 0
  {
    if d == 0 || c.window == 0 {
      forall reqs | Lagging(reqs, d) ensures Same(c, reqs) {
        if reqs != [] {
          DecisionIsOwn(c, true, reqs);
          DecisionIsOwn(c, false, reqs);
        }
      }
    } else {
      var reqs := SweptTooEarly(c, d);
      assert !Same(c, reqs);
    }
  }

  /** The decision is the one the address would get on its own. */
  predicate Own(c: Config, reqs: seq<Request>) {
    reqs != [] ==> (Limited(c, true, reqs) <==> Refused(c, TimesOf(reqs, reqs[|reqs| - 1].ip)))
  }

  /** So with the independence of addresses. */
  lemma OwnDecisionExactly(c: Config, d: nat)
    requires c.max > 0
    ensures (forall reqs :: Lagging(reqs, d) ==> Own(c, reqs)) <==> d == 0 || c.window == 0
  {
    if d == 0 || c.window == 0 {
      forall reqs | Lagging(reqs, d) ensures Own(c, reqs) {
        if reqs != [] {
          DecisionIsOwn(c, true, reqs);
        }
      }
    } else {
      var reqs := SweptTooEarly(c, d);
      DecisionIsOwn(c, false, reqs);
      assert !Own(c, reqs);
    }
  }
}

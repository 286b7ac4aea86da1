/** The routine scheduler of amos/src/ops.rs: tick windows, pausing, and the
    guard that keeps a routine from running twice at once. */
module Scheduler {
  import opened Prelude

  datatype Spec = Spec(name: string, enabled: bool)

  /** The cron calendar: whether routine number `i` has an occurrence at a time. */
  type Calendar = (nat, int) -> bool

  datatype Start = Started | UnknownRoutine | AlreadyRunning

  /** What a tick decides for one routine. */
  datatype Verdict = Disabled | IsPaused | NotDue | Fired | Skipped

  predicate Known(routines: seq<Spec>, name: string) {
    exists i | 0 <= i < |routines| :: routines[i].name == name
  }

  /** `run_now`: refused for an unknown or running routine. */
  function StartOf(routines: seq<Spec>, running: set<string>, name: string): Start {
    if !Known(routines, name) then UnknownRoutine else if name in running then AlreadyRunning else Started
  }

  /** The schedule's next occurrence after `lo` is not after `hi`. */
  predicate Due(calendar: Calendar, i: nat, lo: int, hi: int) {
    exists t | lo < t <= hi :: calendar(i, t)
  }

  /** The scheduler loop's decision for routine `i`, over the window (lo, hi]. */
  function Decide(routines: seq<Spec>, calendar: Calendar, i: nat, lo: int, hi: int, paused: set<string>,
          running: set<string>): Verdict
    requires i < |routines|
  {
    if !routines[i].enabled then Disabled
    else if routines[i].name in paused then IsPaused
    else if !Due(calendar, i, lo, hi) then NotDue
    else if StartOf(routines, running, routines[i].name) == Started then Fired
    else Skipped
  }

  function AfterVerdict(routines: seq<Spec>, i: nat, running: set<string>, v: Verdict): set<string>
    requires i < |routines|
  {
    if v == Fired then running + {routines[i].name} else running
  }

  /** The running set after the first `n` decisions of a tick nothing else interrupts. */
  function RunningAfter(routines: seq<Spec>, calendar: Calendar, n: nat, lo: int, hi: int, paused: set<string>,
          running: set<string>): set<string>
    requires n <= |routines|
  {
    if n == 0 then running
    else
      var before := RunningAfter(routines, calendar, n - 1, lo, hi, paused, running);
      AfterVerdict(routines, n - 1, before, Decide(routines, calendar, n - 1, lo, hi, paused, before))
  }

  class Ops {
    const routines: seq<Spec>
    var running: set<string>
    var paused: set<string>
    var last: int

    constructor (routines: seq<Spec>, now: int)
      ensures this.routines == routines && running == {} && paused == {} && last == now
    {
      this.routines := routines;
      running, paused, last := {}, {}, now;
    }

    /** `spec`. */
    method IsKnown(name: string) returns (known: bool)
      ensures known <==> Known(routines, name)
    {
      for i := 0 to |routines|
        invariant forall j | 0 <= j < i :: routines[j].name != name
      {
        if routines[i].name == name {
          return true;
        }
      }
      return false;
    }

    /** `set_paused`. */
    method SetPaused(name: string, pause: bool) returns (ok: bool)
      modifies this`paused
      ensures ok <==> Known(routines, name)
      ensures forall n :: n in paused <==> if ok && n == name then pause else n in old(paused)
    {
      ok := IsKnown(name);
      if ok {
        if pause {
          paused := paused + {name};
        } else {
          paused := paused - {name};
        }
      }
    }

    /** `run_now`, up to spawning the run. */
    method RunNow(name: string) returns (result: Start)
      modifies this`running
      ensures result == StartOf(routines, old(running), name)
      ensures running == if result == Started then old(running) + {name} else old(running)
    {
      var known := IsKnown(name);
      if !known {
        return UnknownRoutine;
      }
      if name in running {
        return AlreadyRunning;
      }
      running := running + {name};
      return Started;
    }

    /** The spawned task's last step: the routine can be started again, and what any other
        routine would answer is as before. */
    method Finish(name: string)
      modifies this`running
      ensures running == old(running) - {name}
      ensures forall other ::
                StartOf(routines, running, other) ==
                if other == name && Known(routines, name) then Started else StartOf(routines, old(running), other)
    {
      running := running - {name};
    }

    /** One pass of the scheduler loop. */
    method Tick(calendar: Calendar, now: int) returns (verdicts: seq<Verdict>)
      modifies this`running, this`last
      ensures last == now
      ensures |verdicts| == |routines|
      ensures forall i | 0 <= i < |routines| ::
                verdicts[i] == Decide(routines, calendar, i, old(last), now, paused,
                                      RunningAfter(routines, calendar, i, old(last), now, paused, old(running)))
      ensures running == RunningAfter(routines, calendar, |routines|, old(last), now, paused, old(running))
    {
      var pausedThen := paused;
      verdicts := [];
      for i := 0 to |routines|
        invariant |verdicts| == i && last == old(last)
        invariant forall j | 0 <= j < i ::
                    verdicts[j] == Decide(routines, calendar, j, last, now, paused,
                                          RunningAfter(routines, calendar, j, last, now, paused, old(running)))
        invariant running == RunningAfter(routines, calendar, i, last, now, paused, old(running))
      {
        var spec := routines[i];
        ghost var met := running;
        var verdict := NotDue;
        if !spec.enabled {
          verdict := Disabled;
        } else if spec.name in pausedThen {
          verdict := IsPaused;
        } else if exists t | last < t <= now :: calendar(i, t) {
          var result := RunNow(spec.name);
          verdict := if result == Started then Fired else Skipped;
        }
        assert verdict == Decide(routines, calendar, i, last, now, paused, met);
        verdicts := verdicts + [verdict];
      }
      last := now;
    }
  }

  // ----- All interleavings -----

  /** A spawned execution: in flight, finished, or ended by a panic before it could clear its name. */
  datatype Run = Run(name: string, phase: RunPhase)

  datatype RunPhase = InFlight | Finished | Panicked

  /** A tick under way: its window, the paused set it read, its verdicts so far, and the
      running set each of them met. */
  datatype Scan = Scan(lo: int, hi: int, paused: set<string>, verdicts: seq<Verdict>, met: seq<set<string>>)

  datatype State = State(running: set<string>, paused: set<string>, runs: map<nat, Run>, scan: Option<Scan>, last: int,
      windows: seq<Scan>)

  function Initial(now: int): State {
    State({}, {}, map[], None, now, [])
  }

  datatype Action =
    | TickBegin(now: int)
    | TickStep(run: nat)
    | TickEnd
    | Trigger(name: string, run: nat)
    | SetPause(name: string, pause: bool)
    | Complete(run: nat)
    | Panic(run: nat)

  predicate Enabled(routines: seq<Spec>, s: State, a: Action) {
    match a
    case TickBegin(now) => s.scan.None? && s.last <= now
    case TickStep(run) => s.scan.Some? && |s.scan.value.verdicts| < |routines| && run !in s.runs
    case TickEnd => s.scan.Some? && |s.scan.value.verdicts| == |routines|
    case Trigger(_, run) => run !in s.runs
    case SetPause(_, _) => true
    case Complete(run) => run in s.runs && s.runs[run].phase == InFlight
    case Panic(run) => run in s.runs && s.runs[run].phase == InFlight
  }

  /** `run_now` as one atomic step: the name is inserted and the run spawned, or nothing happens. */
  function TryStart(routines: seq<Spec>, s: State, name: string, run: nat): State {
    if StartOf(routines, s.running, name) == Started
    then s.(running := s.running + {name}, runs := s.runs[run := Run(name, InFlight)])
    else s
  }

  function Apply(routines: seq<Spec>, calendar: Calendar, s: State, a: Action): State
    requires Enabled(routines, s, a)
  {
    match a
    case TickBegin(now) => s.(scan := Some(Scan(s.last, now, s.paused, [], [])))
    case TickStep(run) =>
      var scan := s.scan.value;
      var i := |scan.verdicts|;
      var v := Decide(routines, calendar, i, scan.lo, scan.hi, scan.paused, s.running);
      var t := if v == Fired then TryStart(routines, s, routines[i].name, run) else s;
      t.(scan := Some(scan.(verdicts := scan.verdicts + [v], met := scan.met + [s.running])))
    case TickEnd => s.(scan := None, last := s.scan.value.hi, windows := s.windows + [s.scan.value])
    case Trigger(name, run) => TryStart(routines, s, name, run)
    case SetPause(name, pause) =>
      if !Known(routines, name) then s
      else s.(paused := if pause then s.paused + {name} else s.paused - {name})
    case Complete(run) =>
      s.(runs := s.runs[run := s.runs[run].(phase := Finished)], running := s.running - {s.runs[run].name})
    case Panic(run) => s.(runs := s.runs[run := s.runs[run].(phase := Panicked)])
  }

  predicate Legal(routines: seq<Spec>, calendar: Calendar, t0: int, actions: seq<Action>)
    decreases |actions|, 0
  {
    actions == [] ||
    (Legal(routines, calendar, t0, actions[..|actions| - 1]) &&
     Enabled(routines, After(routines, calendar, t0, actions[..|actions| - 1]), actions[|actions| - 1]))
  }

  function After(routines: seq<Spec>, calendar: Calendar, t0: int, actions: seq<Action>): State
    requires Legal(routines, calendar, t0, actions)
    decreases |actions|, 1
  {
    if actions == [] then Initial(t0)
    else Apply(routines, calendar, After(routines, calendar, t0, actions[..|actions| - 1]), actions[|actions| - 1])
  }

  // ----- Skip concurrency -----

  /** A run that holds its name: in flight, or stuck by a panic. */
  predicate HoldsName(s: State, run: nat, name: string) {
    run in s.runs && s.runs[run].name == name && s.runs[run].phase != Finished
  }

  ghost predicate SkipInv(s: State) {
    && (forall name :: name in s.running <==> exists run :: HoldsName(s, run, name))
    && (forall r1, r2, name :: HoldsName(s, r1, name) && HoldsName(s, r2, name) ==> r1 == r2)
  }

  lemma TryStartKeeps(routines: seq<Spec>, s: State, name: string, run: nat)
    requires SkipInv(s) && run !in s.runs
    ensures SkipInv(TryStart(routines, s, name, run))
  {
    var t := TryStart(routines, s, name, run);
    if t != s {
      forall n ensures n in t.running <==> exists r :: HoldsName(t, r, n) {
        if n == name {
          assert HoldsName(t, run, name);
        } else if n in s.running {
          var r :| HoldsName(s, r, n);
          assert HoldsName(t, r, n);
        } else {
          forall r ensures !HoldsName(t, r, n) {
            assert !HoldsName(s, r, n);
          }
        }
      }
      forall r1, r2, n | HoldsName(t, r1, n) && HoldsName(t, r2, n) ensures r1 == r2 {
        assert n != name ==> HoldsName(s, r1, n) && HoldsName(s, r2, n);
        assert n == name && r1 != run ==> HoldsName(s, r1, n);
        assert n == name && r2 != run ==> HoldsName(s, r2, n);
      }
    }
  }

  lemma PhaseChangeKeeps(s: State, t: State, run: nat)
    requires SkipInv(s) && run in s.runs && s.runs[run].phase == InFlight
    requires run in t.runs && t.runs[run].phase != InFlight
    requires t.runs == s.runs[run := s.runs[run].(phase := t.runs[run].phase)]
    requires t.running == if t.runs[run].phase == Finished then s.running - {s.runs[run].name} else s.running
    ensures SkipInv(t)
  {
    var name := s.runs[run].name;
    assert HoldsName(s, run, name);
    forall n ensures n in t.running <==> exists r :: HoldsName(t, r, n) {
      if n in t.running {
        var r :| HoldsName(s, r, n);
        assert HoldsName(t, r, n);
      } else {
        forall r ensures !HoldsName(t, r, n) {
          if HoldsName(t, r, n) {
            assert HoldsName(s, r, n);
          }
        }
      }
    }
    forall r1, r2, n | HoldsName(t, r1, n) && HoldsName(t, r2, n) ensures r1 == r2 {
      assert HoldsName(s, r1, n) && HoldsName(s, r2, n);
    }
  }

  lemma SameRunsKeep(s: State, t: State)
    requires SkipInv(s) && t.running == s.running && t.runs == s.runs
    ensures SkipInv(t)
  {
    assert forall r, n :: HoldsName(s, r, n) <==> HoldsName(t, r, n);
  }

  /** In every reachable state a name is in the running set exactly when one run holds it. */
  lemma {:induction false} SkipConcurrency(routines: seq<Spec>, calendar: Calendar, t0: int, actions: seq<Action>)
    requires Legal(routines, calendar, t0, actions)
    ensures SkipInv(After(routines, calendar, t0, actions))
    decreases |actions|
  {
    if actions == [] {
    } else {
      var a := actions[|actions| - 1];
      SkipConcurrency(routines, calendar, t0, actions[..|actions| - 1]);
      var s := After(routines, calendar, t0, actions[..|actions| - 1]);
      var t := Apply(routines, calendar, s, a);
      match a {
        case TickStep(run) =>
          var i := |s.scan.value.verdicts|;
          TryStartKeeps(routines, s, routines[i].name, run);
          var u := TryStart(routines, s, routines[i].name, run);
          if t.runs == u.runs && t.running == u.running {
            SameRunsKeep(u, t);
          } else {
            SameRunsKeep(s, t);
          }
        case Trigger(name, run) => TryStartKeeps(routines, s, name, run);
        case Complete(run) => PhaseChangeKeeps(s, t, run);
        case Panic(run) => PhaseChangeKeeps(s, t, run);
        case _ => SameRunsKeep(s, t);
      }
    }
  }

  /** No interleaving of cron, manual and webhook triggers has two runs of one routine in flight. */
  lemma NeverTwiceAtOnce(routines: seq<Spec>, calendar: Calendar, t0: int, actions: seq<Action>, r1: nat, r2: nat)
    requires Legal(routines, calendar, t0, actions)
    requires var s := After(routines, calendar, t0, actions);
             r1 in s.runs && r2 in s.runs && s.runs[r1].phase == InFlight && s.runs[r2].phase == InFlight
                 && s.runs[r1].name == s.runs[r2].name
    ensures r1 == r2
  {
    SkipConcurrency(routines, calendar, t0, actions);
    var s := After(routines, calendar, t0, actions);
    assert HoldsName(s, r1, s.runs[r1].name) && HoldsName(s, r2, s.runs[r1].name);
  }

  /** A run that ends without a panic makes its routine startable again. */
  lemma CompletionFrees(routines: seq<Spec>, calendar: Calendar, t0: int, actions: seq<Action>, run: nat)
    requires Legal(routines, calendar, t0, actions)
    requires Enabled(routines, After(routines, calendar, t0, actions), Complete(run))
    ensures var s := After(routines, calendar, t0, actions); var name := s.runs[run].name;
            var t := Apply(routines, calendar, s, Complete(run));
            && StartOf(routines, s.running, name) != Started
            && StartOf(routines, t.running, name) == (if Known(routines, name) then Started else UnknownRoutine)
  {
    SkipConcurrency(routines, calendar, t0, actions);
    var s := After(routines, calendar, t0, actions);
    assert HoldsName(s, run, s.runs[run].name);
  }

  /** A trigger starts its routine if that is known and nothing holds its name, and does nothing else. */
  lemma TriggerStartsExactly(routines: seq<Spec>, calendar: Calendar, t0: int, actions: seq<Action>, name: string,
          run: nat)
    requires Legal(routines, calendar, t0, actions) && run !in After(routines, calendar, t0, actions).runs
    ensures var s := After(routines, calendar, t0, actions);
            && Enabled(routines, s, Trigger(name, run))
            && Apply(routines, calendar, s, Trigger(name, run)) ==
                 if Known(routines, name) && !(exists r :: HoldsName(s, r, name))
                 then s.(running := s.running + {name}, runs := s.runs[run := Run(name, InFlight)]) else s
  {
    SkipConcurrency(routines, calendar, t0, actions);
  }

  /** A panicked run keeps its name through any further actions, so its routine is
      refused from then on. */
  lemma {:induction false} PanicSticks(routines: seq<Spec>, calendar: Calendar, t0: int, actions: seq<Action>,
          more: seq<Action>, run: nat)
    requires Legal(routines, calendar, t0, actions)
    requires Enabled(routines, After(routines, calendar, t0, actions), Panic(run))
    requires Legal(routines, calendar, t0, actions + [Panic(run)] + more)
    ensures var name := After(routines, calendar, t0, actions).runs[run].name;
            var t := After(routines, calendar, t0, actions + [Panic(run)] + more);
            && run in t.runs && t.runs[run] == Run(name, Panicked)
            && StartOf(routines, t.running, name) != Started
    decreases |more|
  {
    var name := After(routines, calendar, t0, actions).runs[run].name;
    var all := actions + [Panic(run)] + more;
    if more == [] {
      assert all[..|all| - 1] == actions && all[|all| - 1] == Panic(run);
    } else {
      assert all[..|all| - 1] == actions + [Panic(run)] + more[..|more| - 1];
      PanicSticks(routines, calendar, t0, actions, more[..|more| - 1], run);
    }
    SkipConcurrency(routines, calendar, t0, all);
    assert HoldsName(After(routines, calendar, t0, all), run, name);
  }

  // ----- Tick windows -----

  /** A verdict that the window, the paused set and the running set it met account for. */
  ghost predicate VerdictOk(routines: seq<Spec>, calendar: Calendar, w: Scan, i: nat)
    requires i < |routines| && i < |w.verdicts| && i < |w.met|
  {
    var open := routines[i].enabled && routines[i].name !in w.paused;
    && (w.verdicts[i] == Disabled <==> !routines[i].enabled)
    && (w.verdicts[i] == IsPaused <==> routines[i].enabled && routines[i].name in w.paused)
    && (w.verdicts[i] == NotDue <==> open && !Due(calendar, i, w.lo, w.hi))
    && (w.verdicts[i] == Skipped <==> open && Due(calendar, i, w.lo, w.hi) && routines[i].name in w.met[i])
    && (w.verdicts[i] == Fired <==> open && Due(calendar, i, w.lo, w.hi) && routines[i].name !in w.met[i])
  }

  ghost predicate ScanOk(routines: seq<Spec>, calendar: Calendar, w: Scan) {
    && w.lo <= w.hi && |w.met| == |w.verdicts| <= |routines|
    && forall i | 0 <= i < |w.verdicts| :: VerdictOk(routines, calendar, w, i)
  }

  function WindowEnd(windows: seq<Scan>, t0: int, n: nat): int
    requires n <= |windows|
  {
    if n == 0 then t0 else windows[n - 1].hi
  }

  /** Window `k` ran to the end and starts where the one before it ended. */
  ghost predicate WindowOk(routines: seq<Spec>, calendar: Calendar, t0: int, windows: seq<Scan>, k: nat)
    requires k < |windows|
  {
    && ScanOk(routines, calendar, windows[k]) && |windows[k].verdicts| == |routines|
    && windows[k].lo == WindowEnd(windows, t0, k)
  }

  ghost predicate TileInv(routines: seq<Spec>, calendar: Calendar, t0: int, s: State) {
    && (forall k | 0 <= k < |s.windows| :: WindowOk(routines, calendar, t0, s.windows, k))
    && s.last == WindowEnd(s.windows, t0, |s.windows|)
    && (s.scan.Some? ==> ScanOk(routines, calendar, s.scan.value) && s.scan.value.lo == s.last)
  }

  lemma {:induction false} WindowsTile(routines: seq<Spec>, calendar: Calendar, t0: int, actions: seq<Action>)
    requires Legal(routines, calendar, t0, actions)
    ensures TileInv(routines, calendar, t0, After(routines, calendar, t0, actions))
    decreases |actions|
  {
    if actions == [] {
    } else {
      var a := actions[|actions| - 1];
      WindowsTile(routines, calendar, t0, actions[..|actions| - 1]);
      var s := After(routines, calendar, t0, actions[..|actions| - 1]);
      match a {
        case TickStep(_) => TickStepTiles(routines, calendar, t0, s, a);
        case TickEnd => TickEndTiles(routines, calendar, t0, s);
        case _ =>
      }
    }
  }

  lemma TickStepTiles(routines: seq<Spec>, calendar: Calendar, t0: int, s: State, a: Action)
    requires TileInv(routines, calendar, t0, s) && a.TickStep? && Enabled(routines, s, a)
    ensures TileInv(routines, calendar, t0, Apply(routines, calendar, s, a))
  {
    var t := Apply(routines, calendar, s, a);
    assert t.windows == s.windows && t.last == s.last;
    ScanGrows(routines, calendar, s.scan.value, s.running);
  }

  lemma ScanGrows(routines: seq<Spec>, calendar: Calendar, w: Scan, running: set<string>)
    requires ScanOk(routines, calendar, w) && |w.verdicts| < |routines|
    ensures var v := Decide(routines, calendar, |w.verdicts|, w.lo, w.hi, w.paused, running);
            ScanOk(routines, calendar, w.(verdicts := w.verdicts + [v], met := w.met + [running]))
  {
    var v := Decide(routines, calendar, |w.verdicts|, w.lo, w.hi, w.paused, running);
    var w' := w.(verdicts := w.verdicts + [v], met := w.met + [running]);
    assert Known(routines, routines[|w.verdicts|].name);
    forall i | 0 <= i < |w'.verdicts| ensures VerdictOk(routines, calendar, w', i) {
      if i < |w.verdicts| {
        assert VerdictOk(routines, calendar, w, i);
      }
    }
  }

  lemma TickEndTiles(routines: seq<Spec>, calendar: Calendar, t0: int, s: State)
    requires TileInv(routines, calendar, t0, s) && Enabled(routines, s, TickEnd)
    ensures TileInv(routines, calendar, t0, Apply(routines, calendar, s, TickEnd))
  {
    var t := Apply(routines, calendar, s, TickEnd);
    forall k | 0 <= k < |t.windows| ensures WindowOk(routines, calendar, t0, t.windows, k) {
      assert k < |s.windows| ==> WindowOk(routines, calendar, t0, s.windows, k);
    }
  }

  predicate Contains(w: Scan, time: int) {
    w.lo < time <= w.hi
  }

  /** Completed windows are disjoint and in order. */
  lemma {:induction false} WindowsAscend(routines: seq<Spec>, calendar: Calendar, t0: int, s: State, j: nat, k: nat)
    requires TileInv(routines, calendar, t0, s) && j < k < |s.windows|
    ensures s.windows[j].hi <= s.windows[k].lo
    decreases k - j
  {
    assert WindowOk(routines, calendar, t0, s.windows, k);
    if j == k - 1 {
    } else {
      WindowsAscend(routines, calendar, t0, s, j, k - 1);
      assert WindowOk(routines, calendar, t0, s.windows, k - 1);
    }
  }

  lemma {:induction false} WindowFound(routines: seq<Spec>, calendar: Calendar, t0: int, s: State, time: int, n: nat)
    returns (k: nat)
    requires TileInv(routines, calendar, t0, s) && 0 < n <= |s.windows| && t0 < time <= s.windows[n - 1].hi
    ensures k < n && Contains(s.windows[k], time)
  {
    assert WindowOk(routines, calendar, t0, s.windows, n - 1);
    if time > s.windows[n - 1].lo {
      k := n - 1;
    } else {
      k := WindowFound(routines, calendar, t0, s, time, n - 1);
    }
  }

  /** Every moment from the start to the last completed tick lies in exactly one window. */
  lemma ExactlyOneWindow(routines: seq<Spec>, calendar: Calendar, t0: int, actions: seq<Action>, time: int)
    returns (k: nat)
    requires Legal(routines, calendar, t0, actions) && t0 < time <= After(routines, calendar, t0, actions).last
    ensures var s := After(routines, calendar, t0, actions);
            && k < |s.windows| && Contains(s.windows[k], time)
            && forall j | 0 <= j < |s.windows| :: Contains(s.windows[j], time) ==> j == k
  {
    WindowsTile(routines, calendar, t0, actions);
    var s := After(routines, calendar, t0, actions);
    k := WindowFound(routines, calendar, t0, s, time, |s.windows|);
    forall j | 0 <= j < |s.windows| && Contains(s.windows[j], time) ensures j == k {
      if j < k {
        WindowsAscend(routines, calendar, t0, s, j, k);
      } else if k < j {
        WindowsAscend(routines, calendar, t0, s, k, j);
      }
    }
  }

  // ----- Cron fires and occurrences -----

  /** The occurrence a fire answers: the first one in its window. */
  predicate FirstIn(calendar: Calendar, i: nat, w: Scan, time: int) {
    Contains(w, time) && calendar(i, time) && forall t | w.lo < t < time :: !calendar(i, t)
  }

  lemma {:induction false} FirstExists(calendar: Calendar, i: nat, w: Scan, time: int) returns (first: int)
    requires Contains(w, time) && calendar(i, time)
    ensures FirstIn(calendar, i, w, first) && first <= time
    decreases time - w.lo
  {
    if t :| w.lo < t < time && calendar(i, t) {
      first := FirstExists(calendar, i, w, t);
    } else {
      first := time;
    }
  }

  /** Each cron fire answers one occurrence, and no occurrence is answered twice. */
  lemma FiresAreInjective(routines: seq<Spec>, calendar: Calendar, t0: int, actions: seq<Action>, i: nat, k: nat)
    returns (first: int)
    requires Legal(routines, calendar, t0, actions) && i < |routines|
    requires var s := After(routines, calendar, t0, actions);
             k < |s.windows| && |s.windows[k].verdicts| == |routines| && s.windows[k].verdicts[i] == Fired
    ensures var s := After(routines, calendar, t0, actions);
            && FirstIn(calendar, i, s.windows[k], first)
            && forall j | 0 <= j < |s.windows| && j != k :: !Contains(s.windows[j], first)
  {
    WindowsTile(routines, calendar, t0, actions);
    var s := After(routines, calendar, t0, actions);
    var w := s.windows[k];
    assert WindowOk(routines, calendar, t0, s.windows, k);
    assert VerdictOk(routines, calendar, w, i);
    var time :| w.lo < time <= w.hi && calendar(i, time);
    first := FirstExists(calendar, i, w, time);
    forall j | 0 <= j < |s.windows| && j != k ensures !Contains(s.windows[j], first) {
      if j < k {
        WindowsAscend(routines, calendar, t0, s, j, k);
      } else {
        WindowsAscend(routines, calendar, t0, s, k, j);
      }
    }
  }

  /** Why an occurrence was not answered: exactly one of these holds in its one window. */
  datatype Fate = Answered | WasDisabled | WasPaused | WasRunning | Coalesced(with: int)

  /** Every past occurrence was answered by a fire, or its routine was disabled,
      paused or running at that tick, or an earlier occurrence of the same window was answered instead. */
  lemma OccurrenceAccounted(routines: seq<Spec>, calendar: Calendar, t0: int, actions: seq<Action>, i: nat, time: int)
    returns (k: nat, fate: Fate)
    requires Legal(routines, calendar, t0, actions) && i < |routines| && calendar(i, time)
    requires t0 < time <= After(routines, calendar, t0, actions).last
    ensures var s := After(routines, calendar, t0, actions);
            && k < |s.windows| && Contains(s.windows[k], time)
                && |s.windows[k].verdicts| == |s.windows[k].met| == |routines|
            && var v := s.windows[k].verdicts[i];
               match fate
               case Answered => v == Fired && FirstIn(calendar, i, s.windows[k], time)
               case WasDisabled => v == Disabled && !routines[i].enabled
               case WasPaused => v == IsPaused && routines[i].name in s.windows[k].paused
               case WasRunning => v == Skipped && routines[i].name in s.windows[k].met[i]
               case Coalesced(first) => v == Fired && first < time && FirstIn(calendar, i, s.windows[k], first)
  {
    k := ExactlyOneWindow(routines, calendar, t0, actions, time);
    WindowsTile(routines, calendar, t0, actions);
    var s := After(routines, calendar, t0, actions);
    var w := s.windows[k];
    assert WindowOk(routines, calendar, t0, s.windows, k);
    assert VerdictOk(routines, calendar, w, i);
    assert Due(calendar, i, w.lo, w.hi);
    match w.verdicts[i] {
      case Disabled => fate := WasDisabled;
      case IsPaused => fate := WasPaused;
      case Skipped => fate := WasRunning;
      case Fired =>
        var first := FirstExists(calendar, i, w, time);
        fate := if first == time then Answered else Coalesced(first);
      case NotDue => assert false;
    }
  }

  /** A tick fires a due, enabled, unpaused routine unless a run of it holds its name, and starts
      nothing else. */
  lemma FiresUnlessHeld(routines: seq<Spec>, calendar: Calendar, t0: int, actions: seq<Action>, run: nat)
    requires Legal(routines, calendar, t0, actions)
    requires Enabled(routines, After(routines, calendar, t0, actions), TickStep(run))
    ensures var s := After(routines, calendar, t0, actions); var w := s.scan.value; var i := |w.verdicts|;
            var t := Apply(routines, calendar, s, TickStep(run));
            if !(routines[i].enabled && routines[i].name !in w.paused && Due(calendar, i, w.lo, w.hi))
            then t.scan.value.verdicts[i] in {Disabled, IsPaused, NotDue} && t.runs == s.runs
            else if exists r :: HoldsName(s, r, routines[i].name)
            then t.scan.value.verdicts[i] == Skipped && t.runs == s.runs
            else t.scan.value.verdicts[i] == Fired && t.runs == s.runs[run := Run(routines[i].name, InFlight)]
  {
    SkipConcurrency(routines, calendar, t0, actions);
    var s := After(routines, calendar, t0, actions);
    assert Known(routines, routines[|s.scan.value.verdicts|].name);
  }

  // ----- Pauses and ticks -----

  /** Among the first `n` actions `name` was paused and not resumed since. */
  predicate PausedBefore(routines: seq<Spec>, actions: seq<Action>, n: nat, name: string)
    requires n <= |actions|
  {
    && (exists i | 0 <= i < |routines| :: routines[i].name == name)
    && exists j | 0 <= j < n :: actions[j] == SetPause(name, true) && Unresumed(actions, j, n, name)
  }

  predicate Unresumed(actions: seq<Action>, j: nat, n: nat, name: string)
    requires j < n <= |actions|
  {
    forall m | j < m < n :: actions[m] != SetPause(name, false)
  }

  lemma PausedStep(routines: seq<Spec>, actions: seq<Action>, n: nat, name: string)
    requires n < |actions|
    ensures PausedBefore(routines, actions, n + 1, name) <==>
              || (actions[n] == SetPause(name, true) && Known(routines, name))
              || (actions[n] != SetPause(name, false) && PausedBefore(routines, actions, n, name))
  {
    if actions[n] == SetPause(name, true) {
      assert Unresumed(actions, n, n + 1, name);
    } else if PausedBefore(routines, actions, n, name) && actions[n] != SetPause(name, false) {
      var j :| 0 <= j < n && actions[j] == SetPause(name, true) && Unresumed(actions, j, n, name);
      assert Unresumed(actions, j, n + 1, name);
    }
  }

  lemma PausedPrefix(routines: seq<Spec>, actions: seq<Action>, m: nat, n: nat, name: string)
    requires n <= m <= |actions|
    ensures PausedBefore(routines, actions[..m], n, name) <==> PausedBefore(routines, actions, n, name)
  {
    assert forall j | 0 <= j < n :: actions[..m][j] == actions[j];
    assert forall j | 0 <= j < n :: Unresumed(actions[..m], j, n, name) <==> Unresumed(actions, j, n, name);
  }

  /** The paused set at any moment is what the actions so far left paused. */
  lemma {:induction false} PausedNow(routines: seq<Spec>, calendar: Calendar, t0: int, actions: seq<Action>)
    requires Legal(routines, calendar, t0, actions)
    ensures forall name :: name in After(routines, calendar, t0, actions).paused <==>
              PausedBefore(routines, actions, |actions|, name)
    decreases |actions|
  {
    if actions == [] {
    } else {
      var n := |actions| - 1;
      PausedNow(routines, calendar, t0, actions[..n]);
      forall name ensures name in After(routines, calendar, t0, actions).paused <==>
                            PausedBefore(routines, actions, n + 1, name)
      {
        PausedStep(routines, actions, n, name);
        PausedPrefix(routines, actions, n, n, name);
      }
    }
  }

  function Begins(actions: seq<Action>): nat {
    if actions == [] then 0
    else Begins(actions[..|actions| - 1]) + if actions[|actions| - 1].TickBegin? then 1 else 0
  }

  /** The windows so far, the one under way last. */
  function Scans(s: State): seq<Scan> {
    s.windows + if s.scan.Some? then [s.scan.value] else []
  }

  /** Window `k` was begun by action `n`, which read the clock and the pauses made before it. */
  ghost predicate BegunBy(routines: seq<Spec>, actions: seq<Action>, w: Scan, n: nat)
    requires n < |actions| && actions[n].TickBegin?
  {
    w.hi == actions[n].now && forall name :: name in w.paused <==> PausedBefore(routines, actions, n, name)
  }

  /** Each tick has a window of its own, in order, whose paused set holds exactly the known
      names paused before the tick began and not resumed by then. */
  lemma {:induction false} PausesExactly(routines: seq<Spec>, calendar: Calendar, t0: int, actions: seq<Action>)
    requires Legal(routines, calendar, t0, actions)
    ensures |Scans(After(routines, calendar, t0, actions))| == Begins(actions)
    ensures forall n | 0 <= n < |actions| && actions[n].TickBegin? ::
              Begins(actions[..n]) < Begins(actions) &&
              BegunBy(routines, actions, Scans(After(routines, calendar, t0, actions))[Begins(actions[..n])], n)
    decreases |actions|
  {
    if actions == [] {
    } else {
      var last := |actions| - 1;
      var before := actions[..last];
      PausesExactly(routines, calendar, t0, before);
      var s, t := After(routines, calendar, t0, before), After(routines, calendar, t0, actions);
      ScansStep(routines, calendar, s, actions[last]);
      forall n | 0 <= n < |actions| && actions[n].TickBegin?
        ensures Begins(actions[..n]) < Begins(actions)
        ensures BegunBy(routines, actions, Scans(t)[Begins(actions[..n])], n)
      {
        if n == last {
          PausedNow(routines, calendar, t0, before);
        } else {
          assert before[n] == actions[n] && before[..n] == actions[..n];
          assert BegunBy(routines, before, Scans(s)[Begins(before[..n])], n);
        }
        forall name ensures PausedBefore(routines, before, n, name) <==> PausedBefore(routines, actions, n, name) {
          PausedPrefix(routines, actions, last, n, name);
        }
      }
    }
  }

  /** An action adds a window if it begins a tick, and changes no other window's end and paused set. */
  lemma ScansStep(routines: seq<Spec>, calendar: Calendar, s: State, a: Action)
    requires Enabled(routines, s, a)
    ensures var t := Apply(routines, calendar, s, a);
            && |Scans(t)| == |Scans(s)| + (if a.TickBegin? then 1 else 0)
            && (forall k | 0 <= k < |Scans(s)| ::
                  Scans(t)[k].hi == Scans(s)[k].hi && Scans(t)[k].paused == Scans(s)[k].paused)
            && (a.TickBegin? ==> Scans(t)[|Scans(s)|].hi == a.now && Scans(t)[|Scans(s)|].paused == s.paused)
  {
  }

  /** So an enabled routine is passed over as paused by exactly those ticks that begin while it is
      paused, and none of them fires it. */
  lemma PausedAreNotFired(routines: seq<Spec>, calendar: Calendar, t0: int, actions: seq<Action>, n: nat, i: nat)
    requires Legal(routines, calendar, t0, actions) && n < |actions| && actions[n].TickBegin?
    ensures Begins(actions[..n]) < |Scans(After(routines, calendar, t0, actions))|
    ensures var w := Scans(After(routines, calendar, t0, actions))[Begins(actions[..n])];
            i < |w.verdicts| ==>
              && i < |routines|
              && (w.verdicts[i] == IsPaused <==>
                    routines[i].enabled && PausedBefore(routines, actions, n, routines[i].name))
              && (w.verdicts[i] == Fired ==> !PausedBefore(routines, actions, n, routines[i].name))
  {
    PausesExactly(routines, calendar, t0, actions);
    WindowsTile(routines, calendar, t0, actions);
    var s := After(routines, calendar, t0, actions);
    var k := Begins(actions[..n]);
    var w := Scans(s)[k];
    if k < |s.windows| {
      assert WindowOk(routines, calendar, t0, s.windows, k);
    }
    assert ScanOk(routines, calendar, w);
    if i < |w.verdicts| {
      assert VerdictOk(routines, calendar, w, i);
    }
  }
}

/** What the gate of amos/src/scope.rs guarantees on every run. */
module ConfirmGateTheorems {
  import opened Prelude
  import opened Confirmations
  import opened ConfirmGate

  /** A call keeps the scopes it began with. */
  lemma {:induction false} ScopesAsBegun(session: Session, actions: seq<Action>, c: nat, required: set<Scope>)
    requires Legal(session, actions)
    ensures var s := After(session, actions);
            Begin(c, required) in actions <==> c in s.calls && s.calls[c].required == required
    decreases |actions|
  {
    if actions == [] {
    } else {
      var init, a := actions[..|actions| - 1], actions[|actions| - 1];
      ScopesAsBegun(session, init, c, required);
      assert actions == init + [a];
      var s := After(session, init);
      assert c in s.calls ==> Apply(session, s, a).calls[c].required == s.calls[c].required;
    }
  }

  /** Everything that ran was within the session's scopes, and a posting in an interactive session
      with the gate on ran only after its own request was approved while it waited. */
  lemma OnlyApprovedCallsRun(session: Session, actions: seq<Action>, k: nat, c: nat)
    requires Legal(session, actions) && k < |After(session, actions).log|
               && After(session, actions).log[k] == Executed(c)
    ensures var s := After(session, actions);
            && c in s.calls && s.calls[c].required <= session.granted
            && Begin(c, s.calls[c].required) in actions
            && (Post in s.calls[c].required && session.interactive && session.gateOn ==> ApprovedIn(s.log[..k], c))
  {
    InvHolds(session, actions);
    var s := After(session, actions);
    assert s.log[k] in s.log;
    assert CallOk(session, s, c);
    ScopesAsBegun(session, actions, c, s.calls[c].required);
  }

  /** And nothing else is asked about: a call with a request is such a posting, and in scope. */
  lemma OnlyPostingsAsk(session: Session, actions: seq<Action>, c: nat)
    requires Legal(session, actions) && c in After(session, actions).calls
    ensures var call := After(session, actions).calls[c];
            call.asked.Some? ==>
              Post in call.required && session.interactive && session.gateOn && call.required <= session.granted
  {
    InvHolds(session, actions);
    var s := After(session, actions);
    if s.calls[c].asked.Some? {
      assert RequestOk(session, s, c);
    }
  }

  /** Where an execution stands in the log: audited before, and not yet cancelled, timed out or denied. */
  ghost predicate InOrderAt(log: seq<Event>, k: nat, c: nat)
    requires k <= |log|
  {
    && AuditAllowed(c) in log[..k]
    && WasCancelled(c) !in log[..k] && GaveUp(c) !in log[..k] && AuditDenied(c) !in log[..k]
  }

  ghost predicate ExecutedInOrder(log: seq<Event>) {
    forall k, c | 0 <= k < |log| && log[k] == Executed(c) :: InOrderAt(log, k, c)
  }

  lemma ExecutedInOrderAt(session: Session, s: State, a: Action, k: nat, c: nat)
    requires Enabled(session, s, a) && ExecutedInOrder(s.log)
    requires k < |Apply(session, s, a).log| && Apply(session, s, a).log[k] == Executed(c)
    requires c in s.calls ==> CallOk(session, s, c)
    ensures InOrderAt(Apply(session, s, a).log, k, c)
  {
    LogGrows(session, s, a);
    var log := Apply(session, s, a).log;
    if k < |s.log| {
      assert log[..k] == s.log[..k];
      assert InOrderAt(s.log, k, c);
    } else {
      assert log[..k] == s.log;
    }
  }

  lemma ExecutedInOrderStep(session: Session, s: State, a: Action)
    requires Inv(session, s) && Enabled(session, s, a) && ExecutedInOrder(s.log)
    ensures ExecutedInOrder(Apply(session, s, a).log)
  {
    var log := Apply(session, s, a).log;
    forall k, c | 0 <= k < |log| && log[k] == Executed(c) ensures InOrderAt(log, k, c) {
      ExecutedInOrderAt(session, s, a, k, c);
    }
  }

  lemma {:induction false} ExecutionsInOrder(session: Session, actions: seq<Action>)
    requires Legal(session, actions)
    ensures ExecutedInOrder(After(session, actions).log)
    decreases |actions|
  {
    if actions == [] {
    } else {
      var init, a := actions[..|actions| - 1], actions[|actions| - 1];
      ExecutionsInOrder(session, init);
      InvHolds(session, init);
      ExecutedInOrderStep(session, After(session, init), a);
    }
  }

  /** A declined, timed-out or cancelled call never runs afterwards; a declined or timed-out one never runs at all. */
  lemma RefusedCallsNeverRun(session: Session, actions: seq<Action>, c: nat)
    requires Legal(session, actions) && c in After(session, actions).calls
    ensures var s := After(session, actions); var id := s.calls[c].asked;
            && (GaveUp(c) in s.log || AuditDenied(c) in s.log ==> Executed(c) !in s.log)
            && (id.Some? && Clicked(id.value, false, Reached) in s.log ==> Executed(c) !in s.log)
            && forall i, j | 0 <= i < j < |s.log| && s.log[i] == WasCancelled(c) :: s.log[j] != Executed(c)
  {
    InvHolds(session, actions);
    ExecutionsInOrder(session, actions);
    var s := After(session, actions);
    assert CallOk(session, s, c);
    if s.calls[c].asked.Some? {
      assert RequestOk(session, s, c);
    }
    NoneAfterCancelled(s.log, c);
  }

  lemma NoneAfterCancelled(log: seq<Event>, c: nat)
    requires ExecutedInOrder(log)
    ensures forall i, j | 0 <= i < j < |log| && log[i] == WasCancelled(c) :: log[j] != Executed(c)
  {
    forall i, j | 0 <= i < j < |log| && log[i] == WasCancelled(c) ensures log[j] != Executed(c) {
      assert log[..j][i] == WasCancelled(c);
      assert log[j] == Executed(c) ==> InOrderAt(log, j, c);
    }
  }

  // ----- One approval, one execution -----

  ghost function GatedRuns(session: Session, s: State): set<nat> {
    set c | c in s.calls && Executed(c) in s.log && Post in s.calls[c].required && session.interactive && session.gateOn
  }

  function ApprovedIds(s: State): set<Id> {
    set id | id in s.gate.slots && Clicked(id, true, Reached) in s.log
  }

  /** Each gated execution has an approval of its own, and each happens once. */
  lemma ExecutionsAtMostApprovals(session: Session, actions: seq<Action>)
    requires Legal(session, actions)
    ensures var s := After(session, actions);
            && |GatedRuns(session, s)| <= |ApprovedIds(s)|
            && (forall c :: Once(s.log, Executed(c)))
            && forall id, b :: Once(s.log, Clicked(id, b, Reached))
  {
    InvHolds(session, actions);
    var s := After(session, actions);
    forall c | c in GatedRuns(session, s) ensures s.calls[c].asked.Some? && s.calls[c].asked.value in ApprovedIds(s) {
      assert CallOk(session, s, c);
      assert RequestOk(session, s, c);
    }
    InjectiveCount(s, GatedRuns(session, s), ApprovedIds(s));
  }

  lemma {:induction false} InjectiveCount(s: State, calls: set<nat>, ids: set<Id>)
    requires forall c | c in calls :: c in s.calls && s.calls[c].asked.Some? && s.calls[c].asked.value in ids
    requires forall c, d | c in calls && d in calls && c != d :: s.calls[c].asked != s.calls[d].asked
    ensures |calls| <= |ids|
    decreases |calls|
  {
    if calls == {} {
    } else {
      var c :| c in calls;
      InjectiveCount(s, calls - {c}, ids - {s.calls[c].asked.value});
    }
  }

  // ----- The audit trail -----

  /** A call that has ended has a verdict in the audit trail if and only if it was not
      cancelled before its entry: while it had not begun to check, waited, was being
      forgotten, or was on its way to either verdict. */
  lemma AuditedExactly(session: Session, actions: seq<Action>, c: nat)
    requires Legal(session, actions) && c in After(session, actions).calls
    requires After(session, actions).calls[c].phase.Done?
    ensures var s := After(session, actions); var phase := s.calls[c].phase;
            AuditAllowed(c) in s.log || AuditDenied(c) in s.log <==> !(Cut(phase) && Unjudged(phase.outcome.at))
  {
    InvHolds(session, actions);
    assert CallOk(session, After(session, actions), c);
  }

  /** No call gets two verdicts, and one that returned has the right one: it ran and was
      allowed, or it did not and was denied. */
  lemma ReturnedCallsAreAudited(session: Session, actions: seq<Action>, c: nat)
    requires Legal(session, actions) && c in After(session, actions).calls
    ensures var s := After(session, actions);
            && !(AuditAllowed(c) in s.log && AuditDenied(c) in s.log)
            && Once(s.log, AuditAllowed(c)) && Once(s.log, AuditDenied(c))
            && (s.calls[c].phase == Done(Ran) ==> AuditAllowed(c) in s.log && Executed(c) in s.log)
            && (s.calls[c].phase == Done(Refused) ==> AuditDenied(c) in s.log && Executed(c) !in s.log)
  {
    InvHolds(session, actions);
    assert CallOk(session, After(session, actions), c);
  }

  /** A call is denied only if it is out of scope, or was declined while it waited, or timed out. */
  lemma DeniedForAReason(session: Session, actions: seq<Action>, c: nat)
    requires Legal(session, actions) && AuditDenied(c) in After(session, actions).log
    ensures var s := After(session, actions);
            && c in s.calls
            && (s.calls[c].required <= session.granted ==>
                  && s.calls[c].asked.Some?
                  && (Clicked(s.calls[c].asked.value, false, Reached) in s.log || GaveUp(c) in s.log))
  {
    InvHolds(session, actions);
    var s := After(session, actions);
    assert AuditDenied(c).call in s.calls;
    assert CallOk(session, s, c);
    if s.calls[c].asked.Some? {
      assert RequestOk(session, s, c);
    }
  }

  /** The dispatcher can drop a call in any phase. It then has the verdict it had, so none when it
      had not got past checking, waiting, forgetting, refusing or proceeding. */
  lemma DroppedInAnyPhase(session: Session, actions: seq<Action>, c: nat)
    requires Legal(session, actions) && c in After(session, actions).calls
    requires !After(session, actions).calls[c].phase.Done?
    ensures var s := After(session, actions); var phase := s.calls[c].phase; var more := actions + [Cancel(c)];
            && Legal(session, more) && In(After(session, more), c, Done(Cancelled(phase)))
            && After(session, more).log == s.log + [WasCancelled(c)]
            && (AuditAllowed(c) in After(session, more).log <==> phase == Audited || phase == Running)
            && AuditDenied(c) !in After(session, more).log
  {
    InvHolds(session, actions);
    assert CallOk(session, After(session, actions), c);
    var a1 := Extend(session, actions, Cancel(c));
  }

  // ----- The pending map -----

  /** An entry is in the map exactly until a click takes it or its call forgets it;
      so calls that ran or were refused leave nothing behind. */
  lemma PendingExactly(session: Session, actions: seq<Action>, c: nat)
    requires Legal(session, actions) && c in After(session, actions).calls
               && After(session, actions).calls[c].asked.Some?
    ensures var s := After(session, actions); var id := s.calls[c].asked.value;
            && (id in s.gate.pending <==>
                  Clicked(id, true, Reached) !in s.log && Clicked(id, false, Reached) !in s.log &&
                  Clicked(id, true, Stale) !in s.log && Clicked(id, false, Stale) !in s.log && Forgot(c) !in s.log)
            && (s.calls[c].phase == Done(Ran) || s.calls[c].phase == Done(Refused) ==> id !in s.gate.pending)
  {
    InvHolds(session, actions);
    var s := After(session, actions);
    assert CallOk(session, s, c) && RequestOk(session, s, c);
  }

  /** The timed wait never sees its sender dropped: while it waits on an empty channel, the entry is there. */
  lemma SenderOutlivesWait(session: Session, actions: seq<Action>, c: nat)
    requires Legal(session, actions) && c in After(session, actions).calls
               && After(session, actions).calls[c].phase.Waiting?
    ensures var s := After(session, actions); var id := s.calls[c].phase.id;
            id in s.gate.slots && (s.gate.slots[id].sent == None ==> id in s.gate.pending)
  {
    InvHolds(session, actions);
    var s := After(session, actions);
    assert CallOk(session, s, c) && RequestOk(session, s, c);
  }

  /** A cancelled call whose entry is still in the map and that nothing in the audit trail mentions. */
  ghost predicate Leaked(s: State, c: nat, id: Id) {
    && c in s.calls && Cut(s.calls[c].phase) && s.calls[c].asked == Some(id) && id in s.gate.pending
    && AuditAllowed(c) !in s.log && AuditDenied(c) !in s.log
  }

  lemma CancelLeaks(session: Session, s: State, c: nat)
    requires AtWait(s, c) && s.calls[c].phase.id in s.gate.pending && CallOk(session, s, c)
    requires s.calls[c].asked == Some(s.calls[c].phase.id)
    ensures Leaked(Apply(session, s, Cancel(c)), c, s.calls[c].phase.id)
  {
    FactsStep(session, s, Cancel(c), c);
  }

  lemma DoneIsIdle(session: Session, s: State, a: Action, c: nat)
    requires Enabled(session, s, a) && c in s.calls && s.calls[c].phase.Done?
    ensures Elsewhere(a, c) && Apply(session, s, a).calls[c] == s.calls[c]
  {
  }

  lemma EntriesLeaveByClickOrForget(session: Session, s: State, a: Action, id: Id)
    requires Enabled(session, s, a) && id in s.gate.pending && id !in Apply(session, s, a).gate.pending
    ensures (a.Click? && a.id == id) || (a.Forget? && s.calls[a.call].phase.id == id)
  {
  }

  lemma LeakKept(session: Session, s: State, a: Action, c: nat, id: Id)
    requires Inv(session, s) && Leaked(s, c, id) && Enabled(session, s, a) && (a.Click? ==> a.id != id)
    ensures Leaked(Apply(session, s, a), c, id)
  {
    DoneIsIdle(session, s, a, c);
    FactsStep(session, s, a, c);
    if a.Forget? {
      assert CallOk(session, s, a.call) && RequestOk(session, s, a.call);
    }
    if id !in Apply(session, s, a).gate.pending {
      EntriesLeaveByClickOrForget(session, s, a, id);
    }
  }

  /** The dispatcher's timeout skips both: a call cancelled while it waits leaves
      its entry in the map, for as long as nobody clicks it, and no verdict in the audit trail. */
  lemma {:induction false} CancelledWaitLeaksAndIsUnaudited(session: Session, actions: seq<Action>, c: nat,
          more: seq<Action>)
    requires Legal(session, actions) && AtWait(After(session, actions), c)
    requires After(session, actions).calls[c].phase.id in After(session, actions).gate.pending
    requires Legal(session, actions + [Cancel(c)] + more)
    requires forall a | a in more && a.Click? :: a.id != After(session, actions).calls[c].phase.id
    ensures Leaked(After(session, actions + [Cancel(c)] + more), c, After(session, actions).calls[c].phase.id)
    decreases |more|
  {
    var id := After(session, actions).calls[c].phase.id;
    var all := actions + [Cancel(c)] + more;
    if more == [] {
      InvHolds(session, actions);
      assert CallOk(session, After(session, actions), c) && RequestOk(session, After(session, actions), c);
      CancelLeaks(session, After(session, actions), c);
      assert all == actions + [Cancel(c)] && all[..|all| - 1] == actions;
    } else {
      var before := actions + [Cancel(c)] + more[..|more| - 1];
      assert all[..|all| - 1] == before && all[|all| - 1] == more[|more| - 1];
      CancelledWaitLeaksAndIsUnaudited(session, actions, c, more[..|more| - 1]);
      InvHolds(session, before);
      assert more[|more| - 1] in more;
      LeakKept(session, After(session, before), more[|more| - 1], c, id);
    }
  }

  /** The gate does open: in any reachable state, approving the id of a call that
      waits unanswered lets it through to execution, with one audit entry. */
  lemma ApprovedCallCanRun(session: Session, actions: seq<Action>, c: nat)
    requires Legal(session, actions) && AtWait(After(session, actions), c)
    requires After(session, actions).gate.slots[After(session, actions).calls[c].phase.id].sent.None?
    ensures var s := After(session, actions); var id := s.calls[c].phase.id;
            var more := actions + [Click(id, true)] + [Receive(c)] + [Allow(c)] + [Execute(c)];
            && Legal(session, more)
            && After(session, more).log == s.log + [Clicked(id, true, Reached)] + [AuditAllowed(c)] + [Executed(c)]
  {
    var id := After(session, actions).calls[c].phase.id;
    ApprovalIsReceived(session, actions, c);
    ProceedingCallRuns(session, actions + [Click(id, true)] + [Receive(c)], c);
  }

  lemma ApprovalIsReceived(session: Session, actions: seq<Action>, c: nat)
    requires Legal(session, actions) && AtWait(After(session, actions), c)
    requires After(session, actions).gate.slots[After(session, actions).calls[c].phase.id].sent.None?
    ensures var s := After(session, actions); var id := s.calls[c].phase.id;
            var more := actions + [Click(id, true)] + [Receive(c)];
            && Legal(session, more) && In(After(session, more), c, Proceeding)
            && After(session, more).log == s.log + [Clicked(id, true, Reached)]
  {
    SenderOutlivesWait(session, actions, c);
    var s := After(session, actions);
    var id := s.calls[c].phase.id;
    InvHolds(session, actions);
    assert CallOk(session, s, c) && RequestOk(session, s, c);
    assert Reaches(s.gate, id);
    var a1 := Extend(session, actions, Click(id, true));
    assert After(session, a1).gate.slots[id] == Slot(Some(true), true);
    var a2 := Extend(session, a1, Receive(c));
  }

  lemma ProceedingCallRuns(session: Session, actions: seq<Action>, c: nat)
    requires Legal(session, actions) && In(After(session, actions), c, Proceeding)
    ensures var more := actions + [Allow(c)] + [Execute(c)];
            Legal(session, more) && After(session, more).log ==
                After(session, actions).log + [AuditAllowed(c)] + [Executed(c)]
  {
    var a1 := Extend(session, actions, Allow(c));
    var a2 := Extend(session, a1, Execute(c));
  }

  /** But not for sure: an approval that reaches the wait as it times out is reported as
      delivered, and the call is refused. */
  lemma ApprovalCanBeTooLate(session: Session, actions: seq<Action>, c: nat)
    requires Legal(session, actions) && AtWait(After(session, actions), c)
    requires After(session, actions).gate.slots[After(session, actions).calls[c].phase.id].sent.None?
    ensures var s := After(session, actions); var id := s.calls[c].phase.id;
            var more := actions + [Click(id, true)] + [GiveUp(c)] + [Forget(c)] + [Deny(c)];
            && Legal(session, more)
            && After(session, more).log ==
                 s.log + [Clicked(id, true, Reached)] + [GaveUp(c)] + [Forgot(c)] + [AuditDenied(c)]
  {
    SenderOutlivesWait(session, actions, c);
    var id := After(session, actions).calls[c].phase.id;
    InvHolds(session, actions);
    assert CallOk(session, After(session, actions), c) && RequestOk(session, After(session, actions), c);
    assert Reaches(After(session, actions).gate, id);
    var a1 := Extend(session, actions, Click(id, true));
    var a2 := Extend(session, a1, GiveUp(c));
    var a3 := Extend(session, a2, Forget(c));
    var a4 := Extend(session, a3, Deny(c));
  }

  /** A posting behind the gate goes one way too: it asks, under an id of its own, and waits. */
  lemma PostingAsks(session: Session, actions: seq<Action>, c: nat, required: set<Scope>, id: Id)
    requires Legal(session, actions) && c !in After(session, actions).calls && id !in After(session, actions).gate.slots
    requires required <= session.granted && Post in required && session.interactive && session.gateOn
    ensures var more := actions + [Begin(c, required)] + [Ask(c, id)];
            && Legal(session, more) && In(After(session, more), c, Waiting(id)) && AtWait(After(session, more), c)
            && After(session, more).gate.slots[id] == Slot(None, true) && id in After(session, more).gate.pending
            && After(session, more).log == After(session, actions).log + [Requested(c, id)]
    ensures var begun := actions + [Begin(c, required)];
            && Legal(session, begun)
            && forall a: Action | !Elsewhere(a, c) && Enabled(session, After(session, begun), a) ::
                 a.Ask? || a == Cancel(c)
  {
    var a1 := Extend(session, actions, Begin(c, required));
    var a2 := Extend(session, a1, Ask(c, id));
  }

  /** Nobody is asked about any other call in scope: it runs with one audit entry and no request. */
  lemma UngatedCallRuns(session: Session, actions: seq<Action>, c: nat)
    requires Legal(session, actions) && In(After(session, actions), c, Started)
    requires var required := After(session, actions).calls[c].required;
             required <= session.granted && !(Post in required && session.interactive && session.gateOn)
    ensures var more := actions + [Ungated(c)] + [Allow(c)] + [Execute(c)] + [Finish(c)];
            && Legal(session, more) && In(After(session, more), c, Done(Ran))
            && After(session, more).log == After(session, actions).log + [AuditAllowed(c)] + [Executed(c)]
  {
    var a1 := Extend(session, actions, Ungated(c));
    var a2 := Extend(session, a1, Allow(c));
    var a3 := Extend(session, a2, Execute(c));
    var a4 := Extend(session, a3, Finish(c));
  }

  /** A call out of scope goes one way: it is denied, with one audit entry. */
  lemma OutOfScopeIsDenied(session: Session, actions: seq<Action>, c: nat, scope: Scope)
    requires Legal(session, actions) && In(After(session, actions), c, Started)
    requires scope in After(session, actions).calls[c].required && scope !in session.granted
    ensures var s := After(session, actions); var more := actions + [ScopeFails(c)] + [Deny(c)];
            && Legal(session, more) && In(After(session, more), c, Done(Refused))
            && After(session, more).log == s.log + [AuditDenied(c)]
            && forall a: Action | !Elsewhere(a, c) && Enabled(session, s, a) :: a in {ScopeFails(c), Cancel(c)}
  {
    var a1 := Extend(session, actions, ScopeFails(c));
    var a2 := Extend(session, a1, Deny(c));
  }

  /** A waiting call that is declined is denied without running. */
  lemma DeclinedCallIsDenied(session: Session, actions: seq<Action>, c: nat)
    requires Legal(session, actions) && AtWait(After(session, actions), c)
    requires After(session, actions).gate.slots[After(session, actions).calls[c].phase.id].sent.None?
    ensures var s := After(session, actions); var id := s.calls[c].phase.id;
            var more := actions + [Click(id, false)] + [Receive(c)] + [Deny(c)];
            && Legal(session, more) && In(After(session, more), c, Done(Refused))
            && After(session, more).log == s.log + [Clicked(id, false, Reached)] + [AuditDenied(c)]
  {
    SenderOutlivesWait(session, actions, c);
    var s := After(session, actions);
    var id := s.calls[c].phase.id;
    InvHolds(session, actions);
    assert CallOk(session, s, c) && RequestOk(session, s, c);
    assert Reaches(s.gate, id);
    var a1 := Extend(session, actions, Click(id, false));
    assert After(session, a1).gate.slots[id] == Slot(Some(false), true);
    var a2 := Extend(session, a1, Receive(c));
    var a3 := Extend(session, a2, Deny(c));
  }

  lemma Extend(session: Session, actions: seq<Action>, a: Action) returns (more: seq<Action>)
    requires Legal(session, actions) && Enabled(session, After(session, actions), a)
    ensures more == actions + [a] && Legal(session, more)
              && After(session, more) == Apply(session, After(session, actions), a)
  {
    more := actions + [a];
    assert more[..|more| - 1] == actions;
  }
}

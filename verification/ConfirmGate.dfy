/** The confirm-before-write gate of amos/src/scope.rs as a protocol: tool calls,
    clicks in the UI, the gate's own timeout and the dispatcher's, in any order. */
module ConfirmGate {
  import opened Prelude
  import opened Confirmations

  datatype Scope = Read | Write | Post

  /** A session: granted scopes, whether a UI is attached, and the environment switch of the gate. */
  datatype Session = Session(granted: set<Scope>, interactive: bool, gateOn: bool)

  /** How a call ended; one that was cancelled keeps the phase it was in. */
  datatype Outcome = Ran | Refused | Cancelled(at: Phase)

  /** Where a call stands between two awaits of `execute`. */
  datatype Phase =
    | Started
    | Waiting(id: Id)
    | Forgetting(id: Id)
    | Refusing
    | Proceeding
    | Audited
    | Running
    | Done(outcome: Outcome)

  datatype Call = Call(required: set<Scope>, phase: Phase, asked: Option<Id>)

  /** What a click found: a listening call, an entry nobody listens to any more, or no entry. */
  datatype Effect = Reached | Stale | Unknown

  datatype Event =
    | Requested(call: nat, id: Id)
    | Clicked(id: Id, approve: bool, effect: Effect)
    | GaveUp(call: nat)
    | Forgot(call: nat)
    | AuditAllowed(call: nat)
    | AuditDenied(call: nat)
    | Executed(call: nat)
    | WasCancelled(call: nat)

  datatype State = State(calls: map<nat, Call>, gate: Gate, log: seq<Event>)

  const START: State := State(map[], Gate({}, map[]), [])

  datatype Action =
    | Begin(call: nat, required: set<Scope>)
    | ScopeFails(call: nat)
    | Ungated(call: nat)
    | Ask(call: nat, id: Id)
    | Click(id: Id, approve: bool)
    | Receive(call: nat)
    | GiveUp(call: nat)
    | Forget(call: nat)
    | Deny(call: nat)
    | Allow(call: nat)
    | Execute(call: nat)
    | Finish(call: nat)
    | Cancel(call: nat)

  predicate Gated(session: Session, required: set<Scope>) {
    Post in required && session.interactive && session.gateOn
  }

  /** The phase of a call that exists, for guards. */
  predicate In(s: State, c: nat, phase: Phase) {
    c in s.calls && s.calls[c].phase == phase
  }

  predicate AtWait(s: State, c: nat) {
    c in s.calls && s.calls[c].phase.Waiting? && s.calls[c].phase.id in s.gate.slots
  }

  function EffectOf(g: Gate, id: Id): Effect {
    if Reaches(g, id) then Reached else if id in g.pending then Stale else Unknown
  }

  /** When an action can happen. Timeouts may fire at any moment: a timed wait looks for the
      value before the clock, but a click may come in between. */
  predicate Enabled(session: Session, s: State, a: Action) {
    match a
    case Begin(c, _) => c !in s.calls
    case ScopeFails(c) => In(s, c, Started) && !(s.calls[c].required <= session.granted)
    case Ungated(c) =>
      In(s, c, Started) && s.calls[c].required <= session.granted && !Gated(session, s.calls[c].required)
    case Ask(c, id) =>
      In(s, c, Started) && s.calls[c].required <= session.granted && Gated(session, s.calls[c].required)
          && id !in s.gate.slots
    case Click(_, _) => true
    case Receive(c) => AtWait(s, c) && s.gate.slots[s.calls[c].phase.id].sent.Some?
    case GiveUp(c) => AtWait(s, c)
    case Forget(c) => c in s.calls && s.calls[c].phase.Forgetting?
    case Deny(c) => In(s, c, Refusing)
    case Allow(c) => In(s, c, Proceeding)
    case Execute(c) => In(s, c, Audited)
    case Finish(c) => In(s, c, Running)
    case Cancel(c) => c in s.calls && !s.calls[c].phase.Done?
  }

  function Move(s: State, c: nat, phase: Phase): State
    requires c in s.calls
  {
    s.(calls := s.calls[c := s.calls[c].(phase := phase)])
  }

  function Log(s: State, e: Event): State {
    s.(log := s.log + [e])
  }

  function Apply(session: Session, s: State, a: Action): State
    requires Enabled(session, s, a)
  {
    match a
    case Begin(c, required) => s.(calls := s.calls[c := Call(required, Started, None)])
    case ScopeFails(c) => Move(s, c, Refusing)
    case Ungated(c) => Move(s, c, Proceeding)
    case Ask(c, id) =>
      var call := s.calls[c].(phase := Waiting(id), asked := Some(id));
      Log(s.(calls := s.calls[c := call], gate := GateRequest(s.gate, id)), Requested(c, id))
    case Click(id, approve) =>
      Log(s.(gate := GateResolve(s.gate, id, approve)), Clicked(id, approve, EffectOf(s.gate, id)))
    case Receive(c) =>
      var id := s.calls[c].phase.id;
      Move(s.(gate := GateDrop(s.gate, id)), c, if s.gate.slots[id].sent == Some(true) then Proceeding else Refusing)
    case GiveUp(c) =>
      var id := s.calls[c].phase.id;
      Log(Move(s.(gate := GateDrop(s.gate, id)), c, Forgetting(id)), GaveUp(c))
    case Forget(c) => Log(Move(s.(gate := GateForget(s.gate, s.calls[c].phase.id)), c, Refusing), Forgot(c))
    case Deny(c) => Log(Move(s, c, Done(Refused)), AuditDenied(c))
    case Allow(c) => Log(Move(s, c, Audited), AuditAllowed(c))
    case Execute(c) => Log(Move(s, c, Running), Executed(c))
    case Finish(c) => Move(s, c, Done(Ran))
    case Cancel(c) =>
      var gate := if s.calls[c].phase.Waiting? then GateDrop(s.gate, s.calls[c].phase.id) else s.gate;
      Log(Move(s.(gate := gate), c, Done(Cancelled(s.calls[c].phase))), WasCancelled(c))
  }

  /** A run: actions each enabled where they happen. */
  predicate Legal(session: Session, actions: seq<Action>)
    decreases |actions|, 0
  {
    actions == [] ||
    (Legal(session, actions[..|actions| - 1]) &&
     Enabled(session, After(session, actions[..|actions| - 1]), actions[|actions| - 1]))
  }

  function After(session: Session, actions: seq<Action>): State
    requires Legal(session, actions)
    decreases |actions|, 1
  {
    if actions == [] then START
    else Apply(session, After(session, actions[..|actions| - 1]), actions[|actions| - 1])
  }

  // ----- What the log says about a call -----

  /** Its own request was approved by a click that reached it, before it gave up,
      was cancelled or was denied. */
  ghost predicate ApprovedIn(log: seq<Event>, c: nat) {
    exists id, i, j | 0 <= i < j < |log| :: ApprovedAt(log, c, id, i, j)
  }

  ghost predicate ApprovedAt(log: seq<Event>, c: nat, id: Id, i: nat, j: nat)
    requires i < j < |log|
  {
    && log[i] == Requested(c, id) && log[j] == Clicked(id, true, Reached)
    && GaveUp(c) !in log[..j] && WasCancelled(c) !in log[..j] && AuditDenied(c) !in log[..j]
  }

  /** Every execution of a gated call was approved first. */
  ghost predicate ExecutionsApproved(session: Session, s: State) {
    forall k, c | 0 <= k < |s.log| && s.log[k] == Executed(c) && c in s.calls && Gated(session, s.calls[c].required) ::
      ApprovedIn(s.log[..k], c)
  }

  /** The event occurs at most once. */
  ghost predicate Once(log: seq<Event>, e: Event) {
    forall i, j | 0 <= i < j < |log| :: log[i] == e ==> log[j] != e
  }

  /** What the log says about a call, fact by fact. */
  datatype Facts = Facts(allowed: bool, denied: bool, cancelled: bool, executed: bool, gaveUp: bool, forgot: bool,
      approved: bool)

  ghost function FactsOf(log: seq<Event>, c: nat): Facts {
    Facts(AuditAllowed(c) in log, AuditDenied(c) in log, WasCancelled(c) in log, Executed(c) in log,
          GaveUp(c) in log, Forgot(c) in log, ApprovedIn(log, c))
  }

  predicate Going(phase: Phase) {
    phase == Running || phase == Done(Ran)
  }

  predicate Cut(phase: Phase) {
    phase.Done? && phase.outcome.Cancelled?
  }

  /** The phases before the audit entry. */
  predicate Unjudged(phase: Phase) {
    phase == Started || phase.Waiting? || phase.Forgetting? || phase == Refusing || phase == Proceeding
  }

  /** What is known of a call in each phase. */
  predicate CallRule(session: Session, call: Call, f: Facts) {
    var Call(required, phase, asked) := call;
    && (f.allowed <==> phase == Audited || Going(phase) || (Cut(phase) && !Unjudged(phase.outcome.at)))
    && (Cut(phase) ==> !phase.outcome.at.Done?)
    && (f.denied <==> phase == Done(Refused))
    && (f.cancelled <==> Cut(phase))
    && (f.executed ==> (Going(phase) || Cut(phase)) && f.allowed && !f.gaveUp)
    && (Going(phase) ==> f.executed)
    && (f.gaveUp ==> phase.Forgetting? || phase == Refusing || phase == Done(Refused) || Cut(phase))
    && (phase == Proceeding || phase == Audited || Going(phase) || f.executed ==>
          !f.gaveUp && required <= session.granted && (Gated(session, required) ==> asked.Some? && f.approved))
    && (asked.None? ==> !phase.Waiting? && !phase.Forgetting? && !f.gaveUp && !f.forgot)
    && (phase == Started ==> asked.None?)
    && (phase == Refusing || phase == Done(Refused) ==> asked.Some? || !(required <= session.granted))
  }

  ghost predicate CallOk(session: Session, s: State, c: nat)
    requires c in s.calls
  {
    CallRule(session, s.calls[c], FactsOf(s.log, c))
  }

  /** What the gate and the log say about a request, fact by fact. */
  datatype Clicks = Clicks(pending: bool, slot: Slot, yes: bool, no: bool, stale: bool)

  function ClicksOf(s: State, id: Id): Clicks
    requires id in s.gate.slots
  {
    Clicks(id in s.gate.pending, s.gate.slots[id], Clicked(id, true, Reached) in s.log,
        Clicked(id, false, Reached) in s.log,
           Clicked(id, true, Stale) in s.log || Clicked(id, false, Stale) in s.log)
  }

  /** What is known of a call's request in each phase. */
  predicate RequestRule(session: Session, call: Call, f: Facts, k: Clicks) {
    var Call(required, phase, asked) := call;
    && asked.Some? && Gated(session, required) && required <= session.granted
    && (phase.Waiting? || phase.Forgetting? ==> phase.id == asked.value)
    && (k.slot.receiving <==> phase.Waiting?)
    && (k.pending <==> !k.yes && !k.no && !k.stale && !f.forgot)
    && (k.slot.sent == Some(true) <==> k.yes)
    && (k.slot.sent == Some(false) <==> k.no)
    && (phase.Waiting? ==> (k.slot.sent == None <==> k.pending))
    && (k.yes ==> f.approved && !k.no)
    && (f.forgot ==> phase == Refusing || phase == Done(Refused) || Cut(phase))
    && (phase == Refusing || phase == Done(Refused) ==> !k.pending && (k.no || f.gaveUp))
    && (phase.Forgetting? ==> f.gaveUp)
    && (phase == Proceeding || phase == Audited || Going(phase) || f.executed ==> k.yes)
  }

  ghost predicate RequestOk(session: Session, s: State, c: nat)
    requires c in s.calls && s.calls[c].asked.Some?
  {
    var id := s.calls[c].asked.value;
    && id in s.gate.slots && Requested(c, id) in s.log
    && RequestRule(session, s.calls[c], FactsOf(s.log, c), ClicksOf(s, id))
  }

  /** Events speak of calls and requests that exist. */
  ghost predicate LogOk(s: State) {
    forall e | e in s.log ::
      match e
      case Clicked(id, _, effect) => effect != Unknown ==> id in s.gate.slots
      case Requested(c, id) => c in s.calls && s.calls[c].asked == Some(id)
      case _ => e.call in s.calls
  }

  /** The events that happen once: executions, verdicts, and clicks that reach. */
  predicate Solitary(e: Event) {
    e.Executed? || e.AuditAllowed? || e.AuditDenied? || (e.Clicked? && e.effect == Reached)
  }

  ghost predicate Inv(session: Session, s: State) {
    && LogOk(s)
    && s.gate.pending <= s.gate.slots.Keys
    && OwnIds(s)
    && (forall id | id in s.gate.slots :: exists c :: c in s.calls && s.calls[c].asked == Some(id))
    && (forall c | c in s.calls :: CallOk(session, s, c))
    && (forall c | c in s.calls && s.calls[c].asked.Some? :: RequestOk(session, s, c))
    && ExecutionsApproved(session, s)
    && (forall e | Solitary(e) :: Once(s.log, e))
  }

  // ----- Every action keeps the invariant -----

  /** The event an action logs. */
  function EventOf(s: State, a: Action): Option<Event> {
    match a
    case Ask(c, id) => Some(Requested(c, id))
    case Click(id, approve) => Some(Clicked(id, approve, EffectOf(s.gate, id)))
    case GiveUp(c) => Some(GaveUp(c))
    case Forget(c) => Some(Forgot(c))
    case Deny(c) => Some(AuditDenied(c))
    case Allow(c) => Some(AuditAllowed(c))
    case Execute(c) => Some(Executed(c))
    case Cancel(c) => Some(WasCancelled(c))
    case _ => None
  }

  lemma LogGrows(session: Session, s: State, a: Action)
    requires Enabled(session, s, a)
    ensures Apply(session, s, a).log == s.log + (if EventOf(s, a).Some? then [EventOf(s, a).value] else [])
  {
  }

  lemma ApprovalKept(session: Session, s: State, a: Action, c: nat)
    requires Enabled(session, s, a) && ApprovedIn(s.log, c)
    ensures ApprovedIn(Apply(session, s, a).log, c)
  {
    var log' := Apply(session, s, a).log;
    LogGrows(session, s, a);
    var id, i, j :| 0 <= i < j < |s.log| && ApprovedAt(s.log, c, id, i, j);
    assert log'[..j] == s.log[..j];
    assert ApprovedAt(log', c, id, i, j);
  }

  /** One event changes one fact. */
  lemma FactsStep(session: Session, s: State, a: Action, c: nat)
    requires Enabled(session, s, a)
    ensures var f, g, e := FactsOf(s.log, c), FactsOf(Apply(session, s, a).log, c), EventOf(s, a);
            && g.allowed == (f.allowed || e == Some(AuditAllowed(c)))
            && g.denied == (f.denied || e == Some(AuditDenied(c)))
            && g.cancelled == (f.cancelled || e == Some(WasCancelled(c)))
            && g.executed == (f.executed || e == Some(Executed(c)))
            && g.gaveUp == (f.gaveUp || e == Some(GaveUp(c)))
            && g.forgot == (f.forgot || e == Some(Forgot(c)))
            && (f.approved ==> g.approved)
  {
    LogGrows(session, s, a);
    if ApprovedIn(s.log, c) {
      ApprovalKept(session, s, a, c);
    }
  }

  lemma ClicksStep(session: Session, s: State, a: Action, id: Id)
    requires Enabled(session, s, a) && id in s.gate.slots
    ensures id in Apply(session, s, a).gate.slots
    ensures var j, k, e := ClicksOf(s, id), ClicksOf(Apply(session, s, a), id), EventOf(s, a);
            && k.yes == (j.yes || e == Some(Clicked(id, true, Reached)))
            && k.no == (j.no || e == Some(Clicked(id, false, Reached)))
            && k.stale == (j.stale || e == Some(Clicked(id, true, Stale)) || e == Some(Clicked(id, false, Stale)))
  {
    LogGrows(session, s, a);
  }

  /** A click that reaches a waiting call approves it. */
  lemma ClickApproves(session: Session, s: State, c: nat)
    requires c in s.calls && s.calls[c].asked.Some? && CallOk(session, s, c) && RequestOk(session, s, c)
    requires Reaches(s.gate, s.calls[c].asked.value)
    ensures ApprovedIn(s.log + [Clicked(s.calls[c].asked.value, true, Reached)], c)
  {
    var id := s.calls[c].asked.value;
    var log' := s.log + [Clicked(id, true, Reached)];
    var i :| 0 <= i < |s.log| && s.log[i] == Requested(c, id);
    assert log'[..|s.log|] == s.log;
    assert ApprovedAt(log', c, id, i, |s.log|);
  }

  lemma LogOkStep(session: Session, s: State, a: Action)
    requires LogOk(s) && Enabled(session, s, a) && s.gate.pending <= s.gate.slots.Keys
    requires forall c | c in s.calls && s.calls[c].phase == Started :: s.calls[c].asked == None
    ensures LogOk(Apply(session, s, a))
  {
    LogGrows(session, s, a);
  }

  /** An action of another call, or a click. */
  predicate Elsewhere(a: Action, d: nat) {
    a.Click? || a.call != d
  }

  lemma CallStepElsewhere(session: Session, s: State, a: Action, d: nat)
    requires Enabled(session, s, a) && Elsewhere(a, d) && d in s.calls && CallOk(session, s, d)
    ensures d in Apply(session, s, a).calls && CallOk(session, Apply(session, s, a), d)
  {
    FactsStep(session, s, a, d);
    assert Apply(session, s, a).calls[d] == s.calls[d];
    assert EventOf(s, a).Some? ==> EventOf(s, a).value.Clicked? || EventOf(s, a).value.call != d;
  }

  lemma CallStep(session: Session, s: State, a: Action, d: nat)
    requires LogOk(s) && Enabled(session, s, a) && d in Apply(session, s, a).calls
    requires d in s.calls ==> CallOk(session, s, d) && (s.calls[d].asked.Some? ==> RequestOk(session, s, d))
    ensures CallOk(session, Apply(session, s, a), d)
  {
    if Elsewhere(a, d) {
      CallStepElsewhere(session, s, a, d);
      return;
    }
    FactsStep(session, s, a, d);
    if d in s.calls {
      var call, call' := s.calls[d], Apply(session, s, a).calls[d];
      var f, g := FactsOf(s.log, d), FactsOf(Apply(session, s, a).log, d);
      CallMoves(session, s, a);
      if s.calls[d].asked.Some? {
        MoveKeepsCallRule(session, call, call', f, g, a, Some(ClicksOf(s, s.calls[d].asked.value)));
      } else {
        MoveKeepsCallRule(session, call, call', f, g, a, None);
      }
    }
  }

  /** The phase an action leads its own call to; `clicks` tells a received approval from a refusal. */
  predicate Moves(session: Session, call: Call, call': Call, a: Action, clicks: Option<Clicks>) {
    && call'.required == call.required
    && (!a.Ask? ==> call'.asked == call.asked)
    && match a
       case Begin(_, _) => false
       case ScopeFails(_) =>
         call.phase == Started && call'.phase == Refusing && !(call.required <= session.granted)
       case Ungated(_) =>
         call.phase == Started && call'.phase == Proceeding && call.required <= session.granted
             && !Gated(session, call.required)
       case Ask(_, id) =>
         && call.phase == Started && call'.phase == Waiting(id) && call'.asked == Some(id)
         && Gated(session, call.required) && call.required <= session.granted
       case Click(_, _) => call' == call
       case Receive(_) =>
         && call.phase.Waiting?
         && (clicks.Some? ==>
               && (clicks.value.yes || clicks.value.no)
               && call'.phase == if clicks.value.yes then Proceeding else Refusing)
       case GiveUp(_) => call.phase.Waiting? && call'.phase == Forgetting(call.phase.id)
       case Forget(_) => call.phase.Forgetting? && call'.phase == Refusing
       case Deny(_) => call.phase == Refusing && call'.phase == Done(Refused)
       case Allow(_) => call.phase == Proceeding && call'.phase == Audited
       case Execute(_) => call.phase == Audited && call'.phase == Running
       case Finish(_) => call.phase == Running && call'.phase == Done(Ran)
       case Cancel(_) => !call.phase.Done? && call'.phase == Done(Cancelled(call.phase))
  }

  lemma CallMoves(session: Session, s: State, a: Action)
    requires Enabled(session, s, a) && !a.Click? && a.call in s.calls && CallOk(session, s, a.call)
    requires s.calls[a.call].asked.Some? ==> RequestOk(session, s, a.call)
    ensures var call := s.calls[a.call];
            Moves(session, call, Apply(session, s, a).calls[a.call], a,
                  if call.asked.Some? then Some(ClicksOf(s, call.asked.value)) else None)
  {
    if a.Receive? && s.calls[a.call].asked.Some? {
      var k := ClicksOf(s, s.calls[a.call].asked.value);
      assert RequestRule(session, s.calls[a.call], FactsOf(s.log, a.call), k);
      match k.slot.sent {
        case Some(b) => assert b || !b;
        case None =>
      }
    }
  }

  /** The event of a move, as a change of facts. */
  predicate FactsMove(f: Facts, g: Facts, a: Action) {
    && g.allowed == (f.allowed || a.Allow?)
    && g.denied == (f.denied || a.Deny?)
    && g.cancelled == (f.cancelled || a.Cancel?)
    && g.executed == (f.executed || a.Execute?)
    && g.gaveUp == (f.gaveUp || a.GiveUp?)
    && g.forgot == (f.forgot || a.Forget?)
    && (f.approved ==> g.approved)
  }

  lemma MoveKeepsCallRule(session: Session, call: Call, call': Call, f: Facts, g: Facts, a: Action,
          clicks: Option<Clicks>)
    requires CallRule(session, call, f) && Moves(session, call, call', a, clicks) && FactsMove(f, g, a)
    requires call.asked.Some? <==> clicks.Some?
    requires clicks.Some? ==> RequestRule(session, call, f, clicks.value)
    ensures CallRule(session, call', g)
  {
  }

  /** What an action of its own call, or a click on it, does to a request. */
  predicate ClicksMove(call: Call, j: Clicks, k: Clicks, a: Action)
    requires call.asked.Some?
  {
    var mine := a.Click? && a.id == call.asked.value;
    var reached := mine && j.pending && j.slot.receiving;
    var drops := a.Receive? || a.GiveUp? || (a.Cancel? && call.phase.Waiting?);
    && k.pending == (j.pending && !mine && !a.Forget?)
    && k.slot == (if reached then Slot(Some(a.approve), true) else if drops then Slot(j.slot.sent, false) else j.slot)
    && k.yes == (j.yes || (reached && a.approve))
    && k.no == (j.no || (reached && !a.approve))
    && k.stale == (j.stale || (mine && j.pending && !reached))
  }

  lemma MoveKeepsRequestRule(session: Session, call: Call, call': Call, f: Facts, g: Facts, j: Clicks, k: Clicks,
          a: Action)
    requires call.asked.Some? && CallRule(session, call, f) && RequestRule(session, call, f, j)
    requires Moves(session, call, call', a, Some(j)) && FactsMove(f, g, a) && ClicksMove(call, j, k, a)
    requires k.yes && !j.yes ==> g.approved
    ensures RequestRule(session, call', g, k)
  {
  }

  /** An action of another call leaves this call's entry and channel alone. */
  lemma SlotKept(session: Session, s: State, a: Action, id: Id)
    requires Enabled(session, s, a) && !a.Click? && id in s.gate.slots
    requires a.Receive? || a.GiveUp? || a.Forget? || (a.Cancel? && s.calls[a.call].phase.Waiting?) ==>
               s.calls[a.call].phase.id != id
    ensures var t := Apply(session, s, a);
            id in t.gate.slots && t.gate.slots[id] == s.gate.slots[id]
                && (id in s.gate.pending <==> id in t.gate.pending)
  {
  }

  /** The id another call works on is its own. */
  lemma OtherId(session: Session, s: State, a: Action, id: Id)
    requires Enabled(session, s, a) && !a.Click?
    requires a.call in s.calls && s.calls[a.call].asked.Some? ==>
               RequestOk(session, s, a.call) && s.calls[a.call].asked != Some(id)
    requires a.call in s.calls ==> CallOk(session, s, a.call)
    ensures a.Receive? || a.GiveUp? || a.Forget? || (a.Cancel? && s.calls[a.call].phase.Waiting?) ==>
              s.calls[a.call].phase.id != id
  {
  }

  lemma RequestStepElsewhere(session: Session, s: State, a: Action, d: nat)
    requires Enabled(session, s, a) && !a.Click? && a.call != d && d in s.calls && s.calls[d].asked.Some?
    requires RequestOk(session, s, d)
    requires a.call in s.calls && s.calls[a.call].asked.Some? ==>
               RequestOk(session, s, a.call) && s.calls[a.call].asked != s.calls[d].asked
    requires a.call in s.calls ==> CallOk(session, s, a.call)
    ensures RequestOk(session, Apply(session, s, a), d)
  {
    var id := s.calls[d].asked.value;
    OtherId(session, s, a, id);
    SlotKept(session, s, a, id);
    RequestUntouched(session, s, a, d);
  }

  lemma RequestUntouched(session: Session, s: State, a: Action, d: nat)
    requires Enabled(session, s, a) && !a.Click? && a.call != d && d in s.calls && s.calls[d].asked.Some?
    requires RequestOk(session, s, d)
    requires var t, id := Apply(session, s, a), s.calls[d].asked.value;
             id in t.gate.slots && t.gate.slots[id] == s.gate.slots[id]
                 && (id in s.gate.pending <==> id in t.gate.pending)
    ensures RequestOk(session, Apply(session, s, a), d)
  {
    var t := Apply(session, s, a);
    FactsStep(session, s, a, d);
    ClicksStep(session, s, a, s.calls[d].asked.value);
    LogGrows(session, s, a);
    assert t.calls[d] == s.calls[d];
  }

  lemma RequestStepSelf(session: Session, s: State, a: Action, d: nat)
    requires Enabled(session, s, a) && !Elsewhere(a, d) && d in s.calls && s.calls[d].asked.Some?
    requires CallOk(session, s, d) && RequestOk(session, s, d)
    ensures RequestOk(session, Apply(session, s, a), d)
  {
    var id := s.calls[d].asked.value;
    var t := Apply(session, s, a);
    FactsStep(session, s, a, d);
    ClicksStep(session, s, a, id);
    LogGrows(session, s, a);
    CallMoves(session, s, a);
    assert ClicksMove(s.calls[d], ClicksOf(s, id), ClicksOf(t, id), a);
    MoveKeepsRequestRule(session, s.calls[d], t.calls[d], FactsOf(s.log, d), FactsOf(t.log, d), ClicksOf(s, id),
        ClicksOf(t, id), a);
  }

  lemma RequestStepClick(session: Session, s: State, a: Action, d: nat)
    requires a.Click? && d in s.calls && s.calls[d].asked.Some?
    requires CallOk(session, s, d) && RequestOk(session, s, d)
    ensures RequestOk(session, Apply(session, s, a), d)
  {
    var id := s.calls[d].asked.value;
    var t := Apply(session, s, a);
    FactsStep(session, s, a, d);
    ClicksStep(session, s, a, id);
    LogGrows(session, s, a);
    if Reaches(s.gate, id) && a.id == id && a.approve {
      ClickApproves(session, s, d);
    }
    assert ClicksMove(s.calls[d], ClicksOf(s, id), ClicksOf(t, id), a);
    MoveKeepsRequestRule(session, s.calls[d], t.calls[d], FactsOf(s.log, d), FactsOf(t.log, d), ClicksOf(s, id),
        ClicksOf(t, id), a);
  }

  lemma RequestStepAsk(session: Session, s: State, a: Action)
    requires LogOk(s) && s.gate.pending <= s.gate.slots.Keys && Enabled(session, s, a) && a.Ask?
               && CallOk(session, s, a.call)
    ensures RequestOk(session, Apply(session, s, a), a.call)
  {
    LogGrows(session, s, a);
    FactsStep(session, s, a, a.call);
    var t := Apply(session, s, a);
    var k := ClicksOf(t, a.id);
    assert k == Clicks(true, Slot(None, true), false, false, false);
  }

  // ----- Executions -----

  lemma ExecutionApproved(session: Session, s: State, a: Action, k: nat, c: nat)
    requires LogOk(s) && Enabled(session, s, a) && ExecutionsApproved(session, s)
    requires c in s.calls ==> CallOk(session, s, c)
    requires var t := Apply(session, s, a);
             k < |t.log| && t.log[k] == Executed(c) && c in t.calls && Gated(session, t.calls[c].required)
    ensures ApprovedIn(Apply(session, s, a).log[..k], c)
  {
    var t := Apply(session, s, a);
    LogGrows(session, s, a);
    if k < |s.log| {
      assert s.log[k] in s.log;
      assert t.log[..k] == s.log[..k];
    } else {
      assert t.log[..k] == s.log;
    }
  }

  lemma ExecutionsStep(session: Session, s: State, a: Action)
    requires LogOk(s) && Enabled(session, s, a) && ExecutionsApproved(session, s)
    requires forall c | c in s.calls :: CallOk(session, s, c)
    ensures ExecutionsApproved(session, Apply(session, s, a))
  {
    var t := Apply(session, s, a);
    forall k, c | 0 <= k < |t.log| && t.log[k] == Executed(c) && c in t.calls && Gated(session, t.calls[c].required)
      ensures ApprovedIn(t.log[..k], c)
    {
      ExecutionApproved(session, s, a, k, c);
    }
  }

  lemma OnceStep(session: Session, s: State, a: Action, e: Event)
    requires Enabled(session, s, a) && Once(s.log, e) && (EventOf(s, a) == Some(e) ==> e !in s.log)
    ensures Once(Apply(session, s, a).log, e)
  {
    LogGrows(session, s, a);
  }

  lemma FirstOfItsKind(session: Session, s: State, a: Action)
    requires Enabled(session, s, a)
    requires a.Execute? || a.Allow? || a.Deny? ==> CallOk(session, s, a.call)
    requires a.Click? && Reaches(s.gate, a.id) ==>
               exists c :: c in s.calls && s.calls[c].asked == Some(a.id) && RequestOk(session, s, c)
    ensures EventOf(s, a).Some? && Solitary(EventOf(s, a).value) ==> EventOf(s, a).value !in s.log
  {
  }

  /** No two calls asked with one id. */
  ghost predicate OwnIds(s: State) {
    forall c, d | c in s.calls && d in s.calls && c != d :: s.calls[c].asked.Some? ==>
        s.calls[c].asked != s.calls[d].asked
  }

  lemma OwnIdsStep(session: Session, s: State, a: Action)
    requires Enabled(session, s, a) && OwnIds(s)
    requires forall c | c in s.calls && s.calls[c].asked.Some? :: s.calls[c].asked.value in s.gate.slots
    ensures OwnIds(Apply(session, s, a))
  {
    var t := Apply(session, s, a);
    forall c, d | c in t.calls && d in t.calls && c != d && t.calls[c].asked.Some?
      ensures t.calls[c].asked != t.calls[d].asked
    {
      assert c in s.calls && (a.Click? || a.call != c) ==> t.calls[c] == s.calls[c];
      assert d in s.calls && (a.Click? || a.call != d) ==> t.calls[d] == s.calls[d];
    }
  }

  lemma OwnersStep(session: Session, s: State, a: Action)
    requires Enabled(session, s, a) && s.gate.pending <= s.gate.slots.Keys
    requires forall id | id in s.gate.slots :: exists c :: c in s.calls && s.calls[c].asked == Some(id)
    requires forall c | c in s.calls && s.calls[c].phase == Started :: s.calls[c].asked == None
    ensures var t := Apply(session, s, a);
            && t.gate.pending <= t.gate.slots.Keys
            && (forall id | id in t.gate.slots :: exists c :: c in t.calls && t.calls[c].asked == Some(id))
  {
    var t := Apply(session, s, a);
    forall id | id in t.gate.slots ensures exists c :: c in t.calls && t.calls[c].asked == Some(id) {
      if id in s.gate.slots {
        var c :| c in s.calls && s.calls[c].asked == Some(id);
        assert t.calls[c].asked == Some(id);
      } else {
        assert t.calls[a.call].asked == Some(id);
      }
    }
  }

  lemma CallsStep(session: Session, s: State, a: Action)
    requires Inv(session, s) && Enabled(session, s, a)
    ensures var t := Apply(session, s, a); forall c | c in t.calls :: CallOk(session, t, c)
  {
    var t := Apply(session, s, a);
    forall c | c in t.calls ensures CallOk(session, t, c) {
      CallStep(session, s, a, c);
    }
  }

  lemma RequestStep(session: Session, s: State, a: Action, c: nat)
    requires Inv(session, s) && Enabled(session, s, a)
    requires c in Apply(session, s, a).calls && Apply(session, s, a).calls[c].asked.Some?
    ensures RequestOk(session, Apply(session, s, a), c)
  {
    if c !in s.calls || s.calls[c].asked.None? {
      RequestStepAsk(session, s, a);
    } else if a.Click? {
      RequestStepClick(session, s, a, c);
    } else if a.call == c {
      RequestStepSelf(session, s, a, c);
    } else {
      RequestStepElsewhere(session, s, a, c);
    }
  }

  lemma OncesStep(session: Session, s: State, a: Action)
    requires Inv(session, s) && Enabled(session, s, a)
    ensures forall e | Solitary(e) :: Once(Apply(session, s, a).log, e)
  {
    FirstOfItsKind(session, s, a);
    forall e | Solitary(e) ensures Once(Apply(session, s, a).log, e) {
      OnceStep(session, s, a, e);
    }
  }

  lemma StartedAskedNothing(session: Session, s: State)
    requires Inv(session, s)
    ensures forall c | c in s.calls && s.calls[c].phase == Started :: s.calls[c].asked == None
    ensures forall c | c in s.calls && s.calls[c].asked.Some? :: s.calls[c].asked.value in s.gate.slots
  {
    forall c | c in s.calls ensures s.calls[c].phase == Started ==> s.calls[c].asked == None {
      assert CallOk(session, s, c);
    }
  }

  lemma InvStep(session: Session, s: State, a: Action)
    requires Inv(session, s) && Enabled(session, s, a)
    ensures Inv(session, Apply(session, s, a))
  {
    var t := Apply(session, s, a);
    StartedAskedNothing(session, s);
    LogOkStep(session, s, a);
    OwnIdsStep(session, s, a);
    OwnersStep(session, s, a);
    CallsStep(session, s, a);
    forall c | c in t.calls && t.calls[c].asked.Some? ensures RequestOk(session, t, c) {
      RequestStep(session, s, a, c);
    }
    ExecutionsStep(session, s, a);
    OncesStep(session, s, a);
  }

  lemma {:induction false} InvHolds(session: Session, actions: seq<Action>)
    requires Legal(session, actions)
    ensures Inv(session, After(session, actions))
    decreases |actions|
  {
    if actions == [] {
    } else {
      InvHolds(session, actions[..|actions| - 1]);
      InvStep(session, After(session, actions[..|actions| - 1]), actions[|actions| - 1]);
    }
  }
}

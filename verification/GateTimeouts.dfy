/** The two timeouts around a confirmation, amos/src/scope.rs and amos/src/routes.rs, by the clock. */
module GateTimeouts {
  import opened Prelude

  /** How a wait stands: answered by a click, given up and refused, or dropped by the dispatcher. */
  datatype Wait = Open | Answered | TimedOut | Dropped

  /** When the dispatcher and the gate stop waiting, when a click comes if one does, and whether a
      call that gave up can be forgotten, audited and returned without waiting for anything. Both
      wait equally long and the dispatcher starts first, so its deadline is no later. */
  datatype Times = Times(dispatcher: int, gate: int, click: Option<int>, atOnce: bool)

  predicate Clicked(t: Times, now: int) {
    t.click.Some? && t.click.value <= now
  }

  /** One poll of the nested timeouts: each looks at what it waits for before it looks at its
      clock, so the click comes first, then the gate's deadline, then the dispatcher's. */
  function Poll(t: Times, now: int): Wait {
    if Clicked(t, now) then Answered
    else if now >= t.gate && t.atOnce then TimedOut
    else if now >= t.dispatcher then Dropped
    else Open
  }

  /** A call polled at some moments, until it ends. */
  function Run(t: Times, polls: seq<int>): Wait {
    if polls == [] then Open
    else
      var before := Run(t, polls[..|polls| - 1]);
      if before == Open then Poll(t, polls[|polls| - 1]) else before
  }

  predicate Ascending(polls: seq<int>) {
    forall i, j | 0 <= i < j < |polls| :: polls[i] <= polls[j]
  }

  /** The poll that decides: the first after the click or the dispatcher's deadline. */
  predicate Decides(t: Times, polls: seq<int>, k: nat)
    requires k < |polls|
  {
    && (Clicked(t, polls[k]) || polls[k] >= t.dispatcher)
    && forall j | 0 <= j < k :: !Clicked(t, polls[j]) && polls[j] < t.dispatcher
  }

  /** With the dispatcher's deadline no later than the gate's, one poll decides, and until then the wait is open. */
  lemma {:induction false} OnePollDecides(t: Times, polls: seq<int>) returns (k: nat)
    requires t.dispatcher <= t.gate
    ensures Run(t, polls) == Open ==> forall j | 0 <= j < |polls| :: !Clicked(t, polls[j]) && polls[j] < t.dispatcher
    ensures Run(t, polls) != Open ==> k < |polls| && Decides(t, polls, k) && Run(t, polls) == Poll(t, polls[k])
  {
    if polls == [] {
      k := 0;
    } else {
      var before := polls[..|polls| - 1];
      k := OnePollDecides(t, before);
      if Run(t, before) == Open {
        k := |polls| - 1;
      } else {
        assert polls[k] == before[k];
      }
    }
  }

  /** Nobody clicks, and the dispatcher's deadline is no later than the gate's. The call is refused
      and audited if and only if some poll comes after both, none in between, and nothing more has to
      be waited for; it is dropped in every other case in which a poll comes after the first. */
  lemma {:induction false} UnansweredExactly(t: Times, polls: seq<int>)
    requires t.dispatcher <= t.gate && t.click.None? && Ascending(polls)
    ensures Run(t, polls) == TimedOut <==>
              && t.atOnce
              && (exists k | 0 <= k < |polls| :: polls[k] >= t.gate)
              && (forall k | 0 <= k < |polls| :: !(t.dispatcher <= polls[k] < t.gate))
    ensures Run(t, polls) == Open <==> forall k | 0 <= k < |polls| :: polls[k] < t.dispatcher
    ensures Run(t, polls) != Answered
  {
    var k := OnePollDecides(t, polls);
  }

  /** A click is received if and only if the poll that finds it is, at the latest, the first
      from the dispatcher's deadline on. */
  lemma AnsweredExactly(t: Times, polls: seq<int>)
    requires t.dispatcher <= t.gate && Ascending(polls)
    ensures Run(t, polls) == Answered <==>
              t.click.Some? &&
              exists k | 0 <= k < |polls| ::
                t.click.value <= polls[k] && forall j | 0 <= j < k :: polls[j] < t.dispatcher
  {
    var k := OnePollDecides(t, polls);
    if Run(t, polls) == Answered {
      assert Clicked(t, polls[k]) && forall j | 0 <= j < k :: polls[j] < t.dispatcher;
    }
  }

  /** A poll comes within `delay` of the dispatcher's deadline. */
  predicate Prompt(t: Times, polls: seq<int>, delay: nat) {
    Ascending(polls) && exists k | 0 <= k < |polls| :: t.dispatcher <= polls[k] <= t.dispatcher + delay
  }

  /** However it is polled, an unanswered call is surely dropped before its verdict is recorded if
      and only if the polls are prompter than the deadlines are apart, or the rest of the call
      would have to wait. */
  lemma SurelyDroppedExactly(t: Times, delay: nat)
    requires t.dispatcher <= t.gate && t.click.None?
    ensures (forall polls :: Prompt(t, polls, delay) ==> Run(t, polls) == Dropped) <==>
              t.dispatcher + delay < t.gate || !t.atOnce
  {
    if t.dispatcher + delay < t.gate || !t.atOnce {
      forall polls | Prompt(t, polls, delay) ensures Run(t, polls) == Dropped {
        UnansweredExactly(t, polls);
      }
    } else {
      var polls := [t.dispatcher + delay];
      assert polls[0] == t.dispatcher + delay && polls[..0] == [];
      assert Prompt(t, polls, delay) && Run(t, polls) == TimedOut;
    }
  }
}

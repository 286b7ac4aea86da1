/** The loop of amos/src/ops.rs that gathers a routine's report from the model's event stream. */
module Report {

  datatype Part = Text(text: string) | FunctionCall | Other

  /** The parts of one event; an event without content has none. */
  type Event = seq<Part>

  predicate HasCall(parts: seq<Part>) {
    FunctionCall in parts
  }

  function TextOf(parts: seq<Part>): string {
    if parts == [] then ""
    else
      TextOf(parts[..|parts| - 1])
      + (if parts[|parts| - 1].Text? then parts[|parts| - 1].text else "")
  }

  function Flat(events: seq<Event>): seq<Part> {
    if events == [] then [] else Flat(events[..|events| - 1]) + events[|events| - 1]
  }

  /** The last event with a function call, or the first event when there is none. */
  function LastCalling(events: seq<Event>): (k: nat)
    ensures k <= |events|
    ensures (k < |events| && HasCall(events[k])) || (k == 0 && forall j | 0 <= j < |events| :: !HasCall(events[j]))
    ensures forall j | k < j < |events| :: !HasCall(events[j])
  {
    if events == [] then 0
    else if HasCall(events[|events| - 1]) then |events| - 1
    else LastCalling(events[..|events| - 1])
  }

  lemma {:induction false} TextAppend(a: seq<Part>, b: seq<Part>)
    ensures TextOf(a + b) == TextOf(a) + TextOf(b)
  {
    if b == [] {
      assert a + b == a;
    } else {
      var init, p := b[..|b| - 1], b[|b| - 1];
      TextAppend(a, init);
      assert (a + b)[..|a + b| - 1] == a + init;
      Associates(TextOf(a), TextOf(init), if p.Text? then p.text else "");
    }
  }

  /** The text gathered from the events since the last one with a call. */
  function Gathered(events: seq<Event>): string {
    TextOf(Flat(events[LastCalling(events)..]))
  }

  lemma FlatOne(events: seq<Event>, e: Event)
    ensures Flat(events + [e]) == Flat(events) + e
  {
    assert (events + [e])[..|events|] == events;
  }

  lemma GatherOne(events: seq<Event>, e: Event)
    ensures Gathered(events + [e]) == (if HasCall(e) then "" else Gathered(events)) + TextOf(e)
  {
    assert (events + [e])[..|events|] == events;
    if HasCall(e) {
      assert (events + [e])[|events|..] == [] + [e];
      FlatOne([], e);
      assert [] + e == e;
    } else {
      var k := LastCalling(events);
      assert (events + [e])[k..] == events[k..] + [e];
      FlatOne(events[k..], e);
      TextAppend(Flat(events[k..]), e);
    }
  }

  /** The loop of `run_subagent`. */
  method Collect(events: seq<Event>) returns (report: string)
    ensures report == Gathered(events)
  {
    report := "";
    for n := 0 to |events|
      invariant report == Gathered(events[..n])
    {
      var parts := events[n];
      GatherOne(events[..n], parts);
      assert events[..n + 1] == events[..n] + [parts];
      if HasCall(parts) {
        report := "";
      }
      report := AddTexts(report, parts);
    }
    assert events[..|events|] == events;
  }

  /** Its inner loop: the texts of one event are pushed in turn. */
  method AddTexts(before: string, parts: seq<Part>) returns (report: string)
    ensures report == before + TextOf(parts)
  {
    report := before;
    for i := 0 to |parts|
      invariant report == before + TextOf(parts[..i])
    {
      assert parts[..i + 1] == parts[..i] + [parts[i]];
      OnePart(parts[..i], parts[i]);
      if parts[i].Text? {
        Associates(before, TextOf(parts[..i]), parts[i].text);
        report := report + parts[i].text;
      }
    }
    assert parts[..|parts|] == parts;
  }

  /** The report part by part: an event begins with what was gathered, a text is added, a call leaves
      only what its own event said, and other parts count for nothing. */
  lemma PartByPart(events: seq<Event>, e: Event, p: Part)
    ensures Gathered([]) == "" && Gathered(events + [[]]) == Gathered(events)
    ensures p.Text? ==> Gathered(events + [e + [p]]) == Gathered(events + [e]) + p.text
    ensures p.Other? ==> Gathered(events + [e + [p]]) == Gathered(events + [e])
    ensures p.FunctionCall? ==> Gathered(events + [e + [p]]) == Gathered([e])
  {
    GatherOne(events, []);
    GatherSplits(Gathered(events), "");
    if p.FunctionCall? {
      CallPart(events, e, p);
    } else {
      OtherPart(events, e, p);
    }
  }

  lemma GatherSplits(kept: string, text: string)
    ensures "" + text == text && kept + "" == kept
  {
  }

  lemma CallPart(events: seq<Event>, e: Event, p: Part)
    requires p.FunctionCall?
    ensures Gathered(events + [e + [p]]) == Gathered([e])
  {
    OnePart(e, p);
    GatherOne(events, e + [p]);
    GatherOne([], e);
    GatherSplits("", TextOf(e));
    assert [] + [e] == [e];
  }

  lemma OtherPart(events: seq<Event>, e: Event, p: Part)
    requires !p.FunctionCall?
    ensures Gathered(events + [e + [p]]) == Gathered(events + [e]) + (if p.Text? then p.text else "")
    ensures p.Other? ==> Gathered(events + [e + [p]]) == Gathered(events + [e])
  {
    OnePart(e, p);
    GatherOne(events, e);
    GatherOne(events, e + [p]);
    Associates(if HasCall(e) then "" else Gathered(events), TextOf(e), if p.Text? then p.text else "");
    GatherSplits(Gathered(events + [e]), "");
  }

  lemma OnePart(e: Event, p: Part)
    ensures TextOf(e + [p]) == TextOf(e) + (if p.Text? then p.text else "")
    ensures HasCall(e + [p]) <==> HasCall(e) || p.FunctionCall?
    ensures p.FunctionCall? ==> TextOf(e + [p]) == TextOf(e)
  {
    assert (e + [p])[..|e|] == e;
  }

  lemma Associates(a: string, b: string, c: string)
    ensures a + (b + c) == a + b + c
  {
  }

  // ----- What follows the last call -----

  /** The longest suffix without a function call. */
  function Tail(parts: seq<Part>): (tail: seq<Part>)
    ensures |tail| <= |parts|
  {
    if HasCall(parts) then Tail(parts[1..]) else parts
  }

  lemma {:induction false} TailIsSuffix(parts: seq<Part>)
    ensures Tail(parts) == parts[|parts| - |Tail(parts)|..] && !HasCall(Tail(parts))
    ensures HasCall(parts) ==> |Tail(parts)| < |parts| && parts[|parts| - |Tail(parts)| - 1].FunctionCall?
    decreases |parts|
  {
    if !HasCall(parts) {
    } else {
      TailIsSuffix(parts[1..]);
    }
  }

  /** The text of an event up to its last function call. */
  function Narration(parts: seq<Part>): string {
    TextOf(parts[..|parts| - |Tail(parts)|])
  }

  lemma {:induction false} TailSkips(a: seq<Part>, b: seq<Part>)
    requires HasCall(b)
    ensures Tail(a + b) == Tail(b)
    decreases |a|
  {
    if a == [] {
      assert a + b == b;
    } else {
      var whole := a + b;
      assert FunctionCall in whole;
      assert whole[1..] == a[1..] + b;
      TailSkips(a[1..], b);
    }
  }

  lemma {:induction false} TailKeeps(a: seq<Part>, b: seq<Part>)
    requires !HasCall(b)
    ensures Tail(a + b) == Tail(a) + b
    decreases |a|
  {
    if !HasCall(a) {
    } else {
      assert (a + b)[1..] == a[1..] + b;
      TailKeeps(a[1..], b);
      assert FunctionCall in a + b;
    }
  }

  lemma TextSplits(parts: seq<Part>, later: seq<Part>)
    ensures TextOf(parts + later) == Narration(parts) + TextOf(Tail(parts) + later)
  {
    var n := |parts| - |Tail(parts)|;
    TailIsSuffix(parts);
    assert parts + later == parts[..n] + (Tail(parts) + later);
    TextAppend(parts[..n], Tail(parts) + later);
  }

  lemma {:induction false} QuietEvents(events: seq<Event>)
    requires forall j | 0 <= j < |events| :: !HasCall(events[j])
    ensures !HasCall(Flat(events))
  {
    if events == [] {
    } else {
      QuietEvents(events[..|events| - 1]);
    }
  }

  lemma {:induction false} FlatAppend(a: seq<Event>, b: seq<Event>)
    ensures Flat(a + b) == Flat(a) + Flat(b)
  {
    if b == [] {
      assert a + b == a;
    } else {
      FlatAppend(a, b[..|b| - 1]);
      assert (a + b)[..|a + b| - 1] == a + b[..|b| - 1];
    }
  }

  lemma TailOfCalling(before: seq<Event>, parts: Event, later: seq<Event>)
    requires HasCall(parts) && forall j | 0 <= j < |later| :: !HasCall(later[j])
    ensures Flat([parts] + later) == parts + Flat(later)
    ensures Tail(Flat(before + ([parts] + later))) == Tail(parts) + Flat(later)
  {
    QuietEvents(later);
    FlatOne([], parts);
    assert [] + [parts] == [parts] && [] + parts == parts;
    FlatAppend([parts], later);
    FlatAppend(before, [parts] + later);
    assert FunctionCall in parts + Flat(later);
    TailSkips(Flat(before), parts + Flat(later));
    TailKeeps(parts, Flat(later));
  }

  /** What the event of the last call said before it. */
  function LastNarration(events: seq<Event>): string {
    var k := LastCalling(events);
    if k < |events| && HasCall(events[k]) then Narration(events[k]) else ""
  }

  /** The collected report is the text after the last tool call, preceded by what
      the event of that call said before it. */
  lemma ReportSplits(events: seq<Event>)
    ensures Gathered(events) == LastNarration(events) + TextOf(Tail(Flat(events)))
  {
    var k := LastCalling(events);
    if k < |events| && HasCall(events[k]) {
      var parts, later := events[k], events[k + 1..];
      assert events == events[..k] + ([parts] + later) && events[k..] == [parts] + later;
      TailOfCalling(events[..k], parts, later);
      TextSplits(parts, Flat(later));
    } else {
      assert events[0..] == events;
      QuietEvents(events);
    }
  }

  /** So the report is only the text after the last call if and only if that call's
      own event said nothing before it. */
  lemma ReportIsAfterLastCall(events: seq<Event>)
    ensures Gathered(events) == TextOf(Tail(Flat(events))) <==> LastNarration(events) == ""
  {
    ReportSplits(events);
    assert |Gathered(events)| == |LastNarration(events)| + |TextOf(Tail(Flat(events)))|;
  }
}

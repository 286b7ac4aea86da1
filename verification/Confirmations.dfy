/** The pending-confirmation map of amos/src/state.rs, with its one-shot channels. */
module Confirmations {
  import opened Prelude

  type Id = nat

  /** One channel's state: the value sent, if any, and whether its receiver still listens. */
  datatype Slot = Slot(sent: Option<bool>, receiving: bool)

  /** The map and every channel ever made, as values. */
  datatype Gate = Gate(pending: set<Id>, slots: map<Id, Slot>)

  function GateRequest(g: Gate, id: Id): Gate {
    Gate(g.pending + {id}, g.slots[id := Slot(None, true)])
  }

  /** Whether a click on `id` reaches a receiver. */
  predicate Reaches(g: Gate, id: Id) {
    id in g.pending && id in g.slots && g.slots[id].receiving
  }

  function GateResolve(g: Gate, id: Id, approve: bool): Gate {
    Gate(g.pending - {id}, if Reaches(g, id) then g.slots[id := Slot(Some(approve), true)] else g.slots)
  }

  function GateForget(g: Gate, id: Id): Gate {
    g.(pending := g.pending - {id})
  }

  /** The receiver goes away: timed out, cancelled, or done reading. */
  function GateDrop(g: Gate, id: Id): Gate {
    if id in g.slots then g.(slots := g.slots[id := g.slots[id].(receiving := false)]) else g
  }

  /** A one-shot channel. */
  class OneShot {
    var sent: Option<bool>
    var receiving: bool

    constructor ()
      ensures sent == None && receiving
    {
      sent, receiving := None, true;
    }

    /** `Sender::send`, consumed by use: succeeds while the receiver lives. */
    method Send(value: bool) returns (ok: bool)
      requires sent == None
      modifies this
      ensures ok == old(receiving) && receiving == old(receiving)
      ensures sent == if ok then Some(value) else None
    {
      ok := receiving;
      if ok {
        sent := Some(value);
      }
    }
  }

  class Confirmations {
    var pending: map<Id, OneShot>
    /** Every channel made here, to state what became of it. */
    ghost var channels: map<Id, OneShot>

    ghost predicate Separate()
      reads this
    {
      forall i, j | i in channels && j in channels && i != j :: channels[i] != channels[j]
    }

    ghost predicate Valid()
      reads this, channels.Values
    {
      && (forall id | id in pending :: id in channels && pending[id] == channels[id] && channels[id].sent == None)
      && Separate()
    }

    ghost function View(): Gate
      reads this, channels.Values
    {
      Gate(pending.Keys, Slots(channels))
    }

    static ghost function Slots(channels: map<Id, OneShot>): map<Id, Slot>
      reads channels.Values
    {
      map id | id in channels :: Slot(channels[id].sent, channels[id].receiving)
    }

    static lemma SlotsWith(channels: map<Id, OneShot>, id: Id, rx: OneShot)
      ensures Slots(channels[id := rx]) == Slots(channels)[id := Slot(rx.sent, rx.receiving)]
    {
    }

    constructor ()
      ensures Valid() && View() == Gate({}, map[])
    {
      pending, channels := map[], map[];
    }

    /** `request`, under an id never used before. */
    method Request(id: Id) returns (rx: OneShot)
      requires Valid() && id !in channels
      modifies this
      ensures Valid() && fresh(rx) && channels == old(channels)[id := rx]
      ensures View() == GateRequest(old(View()), id)
    {
      ghost var was := channels;
      rx := new OneShot();
      pending, channels := pending[id := rx], channels[id := rx];
      SlotsWith(was, id, rx);
      assert Separate() by {
        assert rx !in was.Values;
      }
    }

    /** `resolve`. */
    method Resolve(id: Id, approve: bool) returns (resolved: bool)
      requires Valid()
      modifies this, channels.Values
      ensures Valid() && channels == old(channels)
      ensures resolved == old(Reaches(View(), id))
      ensures View() == GateResolve(old(View()), id, approve)
    {
      if id in pending {
        var tx := pending[id];
        pending := map k | k in pending && k != id :: pending[k];
        assert tx == channels[id];
        assert Separate();
        resolved := tx.Send(approve);
        assert forall k | k in channels && k != id :: unchanged(channels[k]);
      } else {
        resolved := false;
      }
      assert pending.Keys == old(pending.Keys) - {id};
      assert Slots(channels) == GateResolve(old(View()), id, approve).slots;
    }

    /** `forget`. */
    method Forget(id: Id)
      requires Valid()
      modifies this
      ensures Valid() && channels == old(channels)
      ensures View() == GateForget(old(View()), id)
    {
      pending := map k | k in pending && k != id :: pending[k];
      assert pending.Keys == old(pending.Keys) - {id};
    }
  }

  // ----- What the operations undo and keep -----

  /** Resolving twice is harmless: the second click reaches nobody and changes nothing. */
  lemma ResolveTwice(g: Gate, id: Id, first: bool, second: bool)
    ensures !Reaches(GateResolve(g, id, first), id)
    ensures GateResolve(GateResolve(g, id, first), id, second) == GateResolve(g, id, first)
  {
  }

  /** A fresh request waits for exactly one click, which it then carries; other requests are untouched. */
  lemma RequestThenResolve(g: Gate, id: Id, other: Id, approve: bool)
    requires id !in g.slots && other != id
    ensures var g1 := GateRequest(g, id); var g2 := GateResolve(g1, id, approve);
            && Reaches(g1, id) && g2.slots[id].sent == Some(approve) && g2.pending == g.pending - {id}
            && (Reaches(g2, other) <==> Reaches(g, other))
            && (other in g.slots ==> other in g2.slots && g2.slots[other] == g.slots[other])
  {
  }
}

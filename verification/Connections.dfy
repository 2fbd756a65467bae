/** What moving sockets is for: a connection goes along with its socket, from object
    to object, and stays usable until the object that holds it is closed, destroyed
    or assigned to. */
module Connections {
  import opened Os
  import opened SocketPool

  // ----- one move -----

  /** After either kind of move the target has the handle and the flag that the source
      had, and the source no longer has the handle; every other object is as it was. */
  lemma MoveTransfersConnection(code: Code, p: Pool, a: Action)
    requires Enabled(p, a) && (a.MoveNew? || (a.MoveAssign? && a.dst != a.src))
    ensures var q := Next(code, p, a);
            var to := if a.MoveNew? then a.id else a.dst;
            && to in q.objs && q.objs[to].handle == p.objs[a.src].handle
            && q.objs[to].connected == p.objs[a.src].connected
            && q.objs[a.src].handle == INVALID && q.objs[a.src].connected == (a.MoveNew? && p.objs[a.src].connected)
            && forall i | i in p.objs && i != to && i != a.src :: i in q.objs && q.objs[i] == p.objs[i]
  {
  }

  // ----- runs -----

  // Where what an object holds is after an action.
  function Holder(a: Action, id: nat): nat {
    match a
    case MoveNew(to, src) => if src == id then to else id
    case MoveAssign(dst, src) => if src == id then dst else id
    case _ => id
  }

  // The actions that end what an object holds.
  predicate Ends(a: Action, id: nat) {
    match a
    case Close(i) => i == id
    case Destroy(i) => i == id
    case MoveAssign(dst, _) => dst == id
    case _ => false
  }

  /** The object has a connection over a handle that is open since its opening g, and
      no other object would close that handle. */
  predicate Holds(p: Pool, id: nat, h: Handle, g: nat) {
    && id in p.objs && p.objs[id].connected && p.objs[id].handle == h && h != INVALID
    && h in p.table.open && p.table.open[h] == g
    && forall i | i in p.objs && i != id :: p.objs[i].Owns() ==> p.objs[i].handle != h
  }

  // A move that makes a second owner of the handle, out of an object closed before.
  predicate Revives(code: Code, p: Pool, a: Action, id: nat, h: Handle)
    requires Enabled(p, a)
  { code.AsWritten? && a.MoveNew? && a.src != id && p.objs[a.src].closed && p.objs[a.src].handle == h }

  lemma StepHolds(code: Code, p: Pool, a: Action, id: nat, h: Handle, g: nat)
    requires Holds(p, id, h, g) && Enabled(p, a) && !Ends(a, id) && !Revives(code, p, a, id, h)
    ensures Holds(Next(code, p, a), Holder(a, id), h, g)
  {
  }

  /** Only those actions do either: an ending one closes the handle of an owner, and a
      reviving one leaves the handle with two owners. */
  lemma StepHoldsIff(code: Code, p: Pool, a: Action, id: nat, h: Handle, g: nat)
    requires Holds(p, id, h, g) && p.objs[id].Owns() && Enabled(p, a)
    ensures Holds(Next(code, p, a), Holder(a, id), h, g) <==> !Ends(a, id) && !Revives(code, p, a, id, h)
    ensures Ends(a, id) ==> h !in Next(code, p, a).table.open
  {
    var q := Next(code, p, a);
    if Revives(code, p, a, id, h) {
      assert q.objs[a.id].Owns() && q.objs[a.id].handle == h && a.id != id;
    } else if !Ends(a, id) {
      StepHolds(code, p, a, id, h, g);
    }
  }

  predicate EndsSometime(code: Code, p: Pool, actions: seq<Action>, id: nat)
    requires Possible(code, p, actions)
    decreases |actions|
  {
    && actions != []
    && (Ends(actions[0], id) || EndsSometime(code, Next(code, p, actions[0]), actions[1..], Holder(actions[0], id)))
  }

  predicate RevivesSometime(code: Code, p: Pool, actions: seq<Action>, id: nat, h: Handle)
    requires Possible(code, p, actions)
    decreases |actions|
  {
    && actions != []
    && (Revives(code, p, actions[0], id, h)
        || RevivesSometime(code, Next(code, p, actions[0]), actions[1..], Holder(actions[0], id), h))
  }

  function FinalHolder(actions: seq<Action>, id: nat): nat
    decreases |actions|
  { if actions == [] then id else FinalHolder(actions[1..], Holder(actions[0], id)) }

  /** A connection survives any chain of moves, in either version, careless move
      assignments included: unless the run ends it, or makes a second owner of its handle
      out of a closed socket, the object it ended up in is connected, over the same opening of
      the same handle. */
  lemma {:induction false} ConnectionSurvives(code: Code, p: Pool, actions: seq<Action>, id: nat, h: Handle, g: nat)
    requires Holds(p, id, h, g) && Possible(code, p, actions)
    requires !EndsSometime(code, p, actions, id) && !RevivesSometime(code, p, actions, id, h)
    ensures Holds(Final(code, p, actions), FinalHolder(actions, id), h, g)
    decreases |actions|
  {
    if actions != [] {
      var a := actions[0];
      StepHolds(code, p, a, id, h, g);
      ConnectionSurvives(code, Next(code, p, a), actions[1..], Holder(a, id), h, g);
    }
  }

  // Connecting a socket that owns its handle makes such a connection.
  lemma ConnectHolds(code: Code, p: Pool, id: nat)
    requires Inv(p) && id in p.objs && p.objs[id].Owns()
    ensures var h := p.objs[id].handle;
            h in p.table.open && Holds(Next(code, p, Connect(id)), id, h, p.table.open[h])
  {
  }

  lemma ConnectedSocketStaysUsable(code: Code, p: Pool, id: nat, actions: seq<Action>)
    requires Inv(p) && id in p.objs && p.objs[id].Owns()
    requires var q := Next(code, p, Connect(id));
             && Possible(code, q, actions) && !EndsSometime(code, q, actions, id)
             && !RevivesSometime(code, q, actions, id, p.objs[id].handle)
    ensures var h := p.objs[id].handle;
            h in p.table.open
            && Holds(Final(code, Next(code, p, Connect(id)), actions), FinalHolder(actions, id), h, p.table.open[h])
  {
    var h, q := p.objs[id].handle, Next(code, p, Connect(id));
    ConnectHolds(code, p, id);
    ConnectionSurvives(code, q, actions, id, h, p.table.open[h]);
  }

  // ----- the repaired code: exactly until -----

  predicate HoldsThroughout(p: Pool, actions: seq<Action>, id: nat, h: Handle, g: nat)
    requires Possible(Repaired, p, actions)
    decreases |actions|
  {
    && Holds(p, id, h, g)
    && (actions == []
        || HoldsThroughout(Next(Repaired, p, actions[0]), actions[1..], Holder(actions[0], id), h, g))
  }

  lemma OwnerMovesAlong(p: Pool, a: Action, id: nat, h: Handle, g: nat)
    requires Holds(p, id, h, g) && p.objs[id].Owns() && Enabled(p, a) && !Ends(a, id)
    ensures var q := Next(Repaired, p, a); Holder(a, id) in q.objs && q.objs[Holder(a, id)].Owns()
  {
  }

  /** With `_closed` carried over, an owned connection is held in every state of a run
      if and only if none of its actions closes, destroys or overwrites its holder. */
  lemma {:induction false} HeldExactlyUntilEnded(p: Pool, actions: seq<Action>, id: nat, h: Handle, g: nat)
    requires Holds(p, id, h, g) && p.objs[id].Owns() && Possible(Repaired, p, actions)
    ensures HoldsThroughout(p, actions, id, h, g) <==> !EndsSometime(Repaired, p, actions, id)
    decreases |actions|
  {
    if actions != [] {
      var a, q := actions[0], Next(Repaired, p, actions[0]);
      StepHoldsIff(Repaired, p, a, id, h, g);
      if Ends(a, id) {
        assert !HoldsThroughout(q, actions[1..], Holder(a, id), h, g);
      } else {
        OwnerMovesAlong(p, a, id, h, g);
        HeldExactlyUntilEnded(q, actions[1..], Holder(a, id), h, g);
      }
    }
  }
}

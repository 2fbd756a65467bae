/** Who owns which operating system handle: the value of a `socket` object, the
    kernel's table of open handles, and runs over a pool of live objects. Handle
    numbers may be reused once closed; a generation number tells one use of a
    number from the next. */
module SocketPool {
  import opened Os

  type Handle = nat

  // _invalid_socket, ~(socket_t)0
  const INVALID: Handle := SIZE_MAX

  /** Open handles with their generation, the next generation, the generations
      closed so far in order, and how often a number that was not open was closed. */
  datatype Table = Table(open: map<Handle, nat>, next: nat, closed: seq<nat>, stray: nat)
  {
    function Open(h: Handle): Table
      requires h !in open
    {
      this.(open := open[h := next], next := next + 1)
    }

    function Close(h: Handle): Table {
      if h in open then this.(open := open - {h}, closed := closed + [open[h]])
      else this.(stray := stray + 1)
    }
  }

  datatype Sock = Sock(handle: Handle, connected: bool, closed: bool)
  {
    // close() would close the handle.
    predicate Owns() { handle != INVALID && !closed }

    function Closed(): Sock { Sock(handle, false, true) }

    // What the other object is left as by move construction and by move assignment.
    function MovedFrom(): Sock { this.(handle := INVALID) }

    function Vacated(): Sock { Sock(INVALID, false, closed) }
  }

  function CloseIn(s: Sock, t: Table): Table { if s.Owns() then t.Close(s.handle) else t }

  // What the constructors that make no use of another socket leave.
  function Fresh(h: Handle, connected: bool): Sock { Sock(h, connected, false) }

  // The object a move construction makes; the repair carries `_closed` over.
  function Moved(code: Code, from: Sock): Sock {
    Sock(from.handle, from.connected, code.Repaired? && from.closed)
  }

  // The object a move assignment leaves, after its own close(); the repair takes
  // `_closed` from the source instead of keeping it set.
  function Assigned(code: Code, from: Sock): Sock {
    Sock(from.handle, from.connected, code.AsWritten? || from.closed)
  }

  datatype Pool = Pool(objs: map<nat, Sock>, table: Table)

  /** Adopt: an object made from what create_socket or accept returned, a handle the
      kernel just opened or the invalid one. Close also stands for a receive that
      returned 0. */
  datatype Action =
    | Default(id: nat)
    | Adopt(id: nat, h: Handle, connected: bool)
    | MoveNew(id: nat, src: nat)
    | MoveAssign(dst: nat, src: nat)
    | Close(id: nat)
    | Connect(id: nat)
    | Destroy(id: nat)

  predicate Enabled(p: Pool, a: Action) {
    match a
    case Default(id) => id !in p.objs
    case Adopt(id, h, _) => id !in p.objs && h !in p.table.open
    case MoveNew(id, src) => id !in p.objs && src in p.objs
    case MoveAssign(dst, src) => dst in p.objs && src in p.objs
    case Close(id) => id in p.objs
    case Connect(id) => id in p.objs
    case Destroy(id) => id in p.objs
  }

  function Next(code: Code, p: Pool, a: Action): Pool
    requires Enabled(p, a)
  {
    match a
    case Default(id) => p.(objs := p.objs[id := Fresh(INVALID, false)])
    case Adopt(id, h, connected) =>
      Pool(p.objs[id := Fresh(h, connected)], if h == INVALID then p.table else p.table.Open(h))
    case MoveNew(id, src) =>
      p.(objs := p.objs[id := Moved(code, p.objs[src])][src := p.objs[src].MovedFrom()])
    case MoveAssign(dst, src) =>
      var closed := p.objs[dst := p.objs[dst].Closed()];
      Pool(closed[dst := Assigned(code, closed[src])][src := if dst == src then closed[src].Vacated() else p.objs[src].Vacated()],
           CloseIn(p.objs[dst], p.table))
    case Close(id) => Pool(p.objs[id := p.objs[id].Closed()], CloseIn(p.objs[id], p.table))
    case Connect(id) => p.(objs := p.objs[id := p.objs[id].(connected := true)])
    case Destroy(id) => Pool(p.objs - {id}, CloseIn(p.objs[id], p.table))
  }

  // ----- the invariant -----

  // Every object that would close a handle has it open, no two the same one.
  predicate Exclusive(p: Pool) {
    && (forall i | i in p.objs && p.objs[i].Owns() :: p.objs[i].handle in p.table.open)
    && (forall i, j | i in p.objs && j in p.objs && i != j && p.objs[i].Owns() && p.objs[j].Owns() ::
          p.objs[i].handle != p.objs[j].handle)
  }

  predicate OwnedBySomeone(p: Pool, h: Handle) {
    exists i | i in p.objs :: p.objs[i].Owns() && p.objs[i].handle == h
  }

  predicate NoLeak(p: Pool) { forall h | h in p.table.open :: OwnedBySomeone(p, h) }

  // Each generation is open under one number, or was closed once.
  predicate GoodHistory(t: Table) {
    && INVALID !in t.open && t.stray == 0
    && (forall h | h in t.open :: t.open[h] < t.next && t.open[h] !in t.closed)
    && (forall h, k | h in t.open && k in t.open && h != k :: t.open[h] != t.open[k])
    && (forall i | 0 <= i < |t.closed| :: t.closed[i] < t.next)
    && (forall i, j | 0 <= i < j < |t.closed| :: t.closed[i] != t.closed[j])
    && (forall g: nat | g < t.next :: g in t.closed || g in t.open.Values)
  }

  predicate Inv(p: Pool) { Exclusive(p) && NoLeak(p) && GoodHistory(p.table) }

  lemma OpenKeepsHistory(t: Table, h: Handle)
    requires GoodHistory(t) && h !in t.open && h != INVALID
    ensures GoodHistory(t.Open(h))
  {
    var u := t.Open(h);
    forall g: nat | g < u.next
      ensures g in u.closed || g in u.open.Values
    {
      if g == t.next {
        assert u.open[h] == g;
      } else if g !in t.closed {
        var k :| k in t.open && t.open[k] == g;
        assert u.open[k] == g;
      }
    }
  }

  lemma CloseKeepsHistory(t: Table, h: Handle)
    requires GoodHistory(t) && h in t.open
    ensures GoodHistory(t.Close(h))
  {
    var u := t.Close(h);
    assert u.closed[|t.closed|] == t.open[h];
    forall g: nat | g < u.next
      ensures g in u.closed || g in u.open.Values
    {
      if g in t.closed {
        var i :| 0 <= i < |t.closed| && t.closed[i] == g;
        assert u.closed[i] == g;
      } else if g != t.open[h] {
        var k :| k in t.open && t.open[k] == g;
        assert k in u.open && u.open[k] == g;
      }
    }
  }

  // ----- one action -----

  /** The guard of the code as written: a move construction not from an object that
      was closed while holding a handle, a move assignment from another object only
      when that one has nothing left to close. */
  predicate Careful(p: Pool, a: Action)
    requires Enabled(p, a)
  {
    match a
    case MoveNew(_, src) => p.objs[src].closed ==> p.objs[src].handle == INVALID
    case MoveAssign(dst, src) => dst == src || !p.objs[src].Owns()
    case _ => true
  }

  // Two objects agree on what they would close.
  predicate SameOwner(a: Sock, b: Sock) { a.Owns() == b.Owns() && (a.Owns() ==> a.handle == b.handle) }

  // An owner in one pool is one in another that has it, with a handle it would close.
  lemma StillOwned(q: Pool, k: nat, h: Handle)
    requires k in q.objs && q.objs[k].Owns() && q.objs[k].handle == h
    ensures OwnedBySomeone(q, h)
  {
  }

  // Changing an object to one that would close the same handle.
  lemma Refit(p: Pool, id: nat, s: Sock)
    requires Inv(p) && (if id in p.objs then SameOwner(p.objs[id], s) else !s.Owns())
    ensures Inv(p.(objs := p.objs[id := s]))
  {
    var q := p.(objs := p.objs[id := s]);
    forall h | h in q.table.open
      ensures OwnedBySomeone(q, h)
    {
      var i :| i in p.objs && p.objs[i].Owns() && p.objs[i].handle == h;
      StillOwned(q, i, h);
    }
  }

  lemma AdoptStaysExclusive(p: Pool, id: nat, h: Handle, connected: bool)
    requires Exclusive(p) && id !in p.objs && h !in p.table.open
    ensures Exclusive(Pool(p.objs[id := Sock(h, connected, false)], p.table.Open(h)))
  {
  }

  lemma AdoptKeepsInv(p: Pool, id: nat, h: Handle, connected: bool)
    requires Inv(p) && id !in p.objs && h !in p.table.open && h != INVALID
    ensures Inv(Pool(p.objs[id := Sock(h, connected, false)], p.table.Open(h)))
  {
    OpenKeepsHistory(p.table, h);
    AdoptStaysExclusive(p, id, h, connected);
    var q := Pool(p.objs[id := Sock(h, connected, false)], p.table.Open(h));
    forall k | k in q.table.open
      ensures OwnedBySomeone(q, k)
    {
      if k == h {
        StillOwned(q, id, k);
      } else {
        var i :| i in p.objs && p.objs[i].Owns() && p.objs[i].handle == k;
        StillOwned(q, i, k);
      }
    }
  }

  lemma CloseStaysExclusive(p: Pool, id: nat)
    requires Exclusive(p) && id in p.objs
    ensures Exclusive(Pool(p.objs[id := p.objs[id].Closed()], CloseIn(p.objs[id], p.table)))
  {
  }

  // close() on one object.
  lemma CloseKeepsInv(p: Pool, id: nat)
    requires Inv(p) && id in p.objs
    ensures Inv(Pool(p.objs[id := p.objs[id].Closed()], CloseIn(p.objs[id], p.table)))
  {
    var q := Pool(p.objs[id := p.objs[id].Closed()], CloseIn(p.objs[id], p.table));
    if p.objs[id].Owns() { CloseKeepsHistory(p.table, p.objs[id].handle); }
    CloseStaysExclusive(p, id);
    forall h | h in q.table.open
      ensures OwnedBySomeone(q, h)
    {
      var i :| i in p.objs && p.objs[i].Owns() && p.objs[i].handle == h;
      assert i != id;
      StillOwned(q, i, h);
    }
  }

  // An object with nothing to close may go.
  lemma DropKeepsInv(p: Pool, id: nat)
    requires Inv(p) && id in p.objs && !p.objs[id].Owns()
    ensures Inv(p.(objs := p.objs - {id}))
  {
    var q := p.(objs := p.objs - {id});
    forall h | h in q.table.open
      ensures OwnedBySomeone(q, h)
    {
      var i :| i in p.objs && p.objs[i].Owns() && p.objs[i].handle == h;
      StillOwned(q, i, h);
    }
  }

  lemma HandOverStaysExclusive(p: Pool, from: nat, to: nat, f: Sock, t: Sock)
    requires Exclusive(p) && from in p.objs && from != to && (to in p.objs ==> !p.objs[to].Owns())
    requires !f.Owns() && SameOwner(p.objs[from], t)
    ensures Exclusive(p.(objs := p.objs[to := t][from := f]))
  {
  }

  // What one object would close passes to another.
  lemma HandOverKeepsInv(p: Pool, from: nat, to: nat, f: Sock, t: Sock)
    requires Inv(p) && from in p.objs && from != to && (to in p.objs ==> !p.objs[to].Owns())
    requires !f.Owns() && SameOwner(p.objs[from], t)
    ensures Inv(p.(objs := p.objs[to := t][from := f]))
  {
    HandOverStaysExclusive(p, from, to, f, t);
    var q := p.(objs := p.objs[to := t][from := f]);
    forall h | h in q.table.open
      ensures OwnedBySomeone(q, h)
    {
      var i :| i in p.objs && p.objs[i].Owns() && p.objs[i].handle == h;
      StillOwned(q, if i == from then to else i, h);
    }
  }

  lemma MoveKeepsInv(code: Code, p: Pool, a: Action)
    requires Inv(p) && Enabled(p, a) && (a.MoveNew? || a.MoveAssign?)
    requires code.Repaired? || Careful(p, a)
    ensures Inv(Next(code, p, a))
  {
    match a
    case MoveNew(id, src) =>
      HandOverKeepsInv(p, src, id, p.objs[src].MovedFrom(), Moved(code, p.objs[src]));
    case MoveAssign(dst, src) =>
      CloseKeepsInv(p, dst);
      var q := Pool(p.objs[dst := p.objs[dst].Closed()], CloseIn(p.objs[dst], p.table));
      if dst == src {
        Refit(q, dst, q.objs[dst].Vacated());
        assert Next(code, p, a).objs == q.objs[dst := q.objs[dst].Vacated()];
      } else {
        HandOverKeepsInv(q, src, dst, p.objs[src].Vacated(), Assigned(code, p.objs[src]));
      }
  }

  lemma StepKeepsInv(code: Code, p: Pool, a: Action)
    requires Inv(p) && Enabled(p, a) && (code.Repaired? || Careful(p, a))
    ensures Inv(Next(code, p, a))
  {
    match a
    case Default(id) => Refit(p, id, Sock(INVALID, false, false));
    case Adopt(id, h, connected) =>
      if h == INVALID { Refit(p, id, Sock(h, connected, false)); } else { AdoptKeepsInv(p, id, h, connected); }
    case Close(id) => CloseKeepsInv(p, id);
    case Connect(id) => Refit(p, id, p.objs[id].(connected := true));
    case Destroy(id) =>
      CloseKeepsInv(p, id);
      var q := Pool(p.objs[id := p.objs[id].Closed()], CloseIn(p.objs[id], p.table));
      DropKeepsInv(q, id);
      assert q.objs - {id} == p.objs - {id};
    case _ => MoveKeepsInv(code, p, a);
  }

  // A careless move of the code as written always breaks ownership: the new object
  // would close a number it does not own, or an open handle is left to nobody.
  lemma CarelessStepBreaksInv(p: Pool, a: Action)
    requires Inv(p) && Enabled(p, a) && !Careful(p, a)
    ensures a.MoveNew? ==> !Exclusive(Next(AsWritten, p, a))
    ensures a.MoveAssign? ==> !NoLeak(Next(AsWritten, p, a))
  {
    var q := Next(AsWritten, p, a);
    match a
    case MoveNew(id, src) =>
      var h := p.objs[src].handle;
      assert q.objs[id].Owns() && q.objs[id].handle == h;
      if h in p.table.open {
        var i :| i in p.objs && p.objs[i].Owns() && p.objs[i].handle == h;
        assert i != src && q.objs[i].Owns() && q.objs[i].handle == h;
      }
    case MoveAssign(dst, src) =>
      var h := p.objs[src].handle;
      assert h in q.table.open;
      forall i | i in q.objs
        ensures !(q.objs[i].Owns() && q.objs[i].handle == h)
      {
        if i != dst && i != src { assert q.objs[i] == p.objs[i]; }
      }
      assert !OwnedBySomeone(q, h);
  }

  // Every object that says it is connected owns a handle.
  predicate Honest(p: Pool) { forall i | i in p.objs && p.objs[i].connected :: p.objs[i].Owns() }

  // The actions of the code as written after which that still holds.
  predicate KeepsHonest(p: Pool, a: Action)
    requires Enabled(p, a)
  {
    match a
    case Adopt(_, h, connected) => connected ==> h != INVALID
    case MoveNew(_, src) => !p.objs[src].connected
    case MoveAssign(dst, src) => dst == src || !p.objs[src].connected
    case Connect(id) => p.objs[id].Owns()
    case _ => true
  }

  /** The connected flag is truthful after an action of the code as written if and
      only if the action moves no connected object, connects no object without a
      handle, and adopts no failed accept: a move construction leaves the flag of
      the source set, a move assignment sets it on an object marked closed. */
  lemma HonestIffKept(p: Pool, a: Action)
    requires Honest(p) && Enabled(p, a)
    ensures Honest(Next(AsWritten, p, a)) <==> KeepsHonest(p, a)
  {
    var q := Next(AsWritten, p, a);
    match a
    case Adopt(id, h, connected) =>
      assert q.objs[id] == Sock(h, connected, false);
      assert forall i | i in q.objs && i != id :: q.objs[i] == p.objs[i];
    case MoveNew(id, src) =>
      assert q.objs[src] == p.objs[src].MovedFrom() && q.objs[id] == Moved(AsWritten, p.objs[src]);
    case MoveAssign(dst, src) =>
      if dst != src { assert q.objs[dst] == Assigned(AsWritten, p.objs[src]); }
    case Connect(id) =>
      assert q.objs[id] == p.objs[id].(connected := true);
    case _ =>
  }

  // ----- runs -----

  predicate Possible(code: Code, p: Pool, actions: seq<Action>)
    decreases |actions|
  {
    actions == [] || (Enabled(p, actions[0]) && Possible(code, Next(code, p, actions[0]), actions[1..]))
  }

  function Final(code: Code, p: Pool, actions: seq<Action>): Pool
    requires Possible(code, p, actions)
    decreases |actions|
  {
    if actions == [] then p else Final(code, Next(code, p, actions[0]), actions[1..])
  }

  // The invariant holds in every state of the run.
  predicate InvThroughout(code: Code, p: Pool, actions: seq<Action>)
    requires Possible(code, p, actions)
    decreases |actions|
  {
    Inv(p) && (actions == [] || InvThroughout(code, Next(code, p, actions[0]), actions[1..]))
  }

  predicate CarefulThroughout(p: Pool, actions: seq<Action>)
    requires Possible(AsWritten, p, actions)
    decreases |actions|
  {
    actions == [] || (Careful(p, actions[0]) && CarefulThroughout(Next(AsWritten, p, actions[0]), actions[1..]))
  }

  /** Exactly when the code as written keeps ownership: every state of a run has each
      open handle owned by one live object, and none closed twice, if and only if
      every move in it is careful. */
  lemma {:induction false} AsWrittenSafeIffCareful(p: Pool, actions: seq<Action>)
    requires Inv(p) && Possible(AsWritten, p, actions)
    ensures InvThroughout(AsWritten, p, actions) <==> CarefulThroughout(p, actions)
    decreases |actions|
  {
    if actions != [] {
      var q := Next(AsWritten, p, actions[0]);
      if Careful(p, actions[0]) {
        StepKeepsInv(AsWritten, p, actions[0]);
        AsWrittenSafeIffCareful(q, actions[1..]);
      } else {
        CarelessStepBreaksInv(p, actions[0]);
        assert !Inv(q);
        assert !InvThroughout(AsWritten, q, actions[1..]);
      }
    }
  }

  /** Once `_closed` is carried over and reset, every run keeps ownership. */
  lemma {:induction false} RepairedSafe(p: Pool, actions: seq<Action>)
    requires Inv(p) && Possible(Repaired, p, actions)
    ensures InvThroughout(Repaired, p, actions) && Inv(Final(Repaired, p, actions))
    decreases |actions|
  {
    if actions != [] {
      StepKeepsInv(Repaired, p, actions[0]);
      RepairedSafe(Next(Repaired, p, actions[0]), actions[1..]);
    }
  }

  lemma {:induction false} SafeRunEndsInInv(code: Code, p: Pool, actions: seq<Action>)
    requires Possible(code, p, actions) && InvThroughout(code, p, actions)
    ensures Inv(Final(code, p, actions))
    decreases |actions|
  {
    if actions != [] { SafeRunEndsInInv(code, Next(code, p, actions[0]), actions[1..]); }
  }

  // The connected flags are truthful in every state of the run.
  predicate HonestThroughout(p: Pool, actions: seq<Action>)
    requires Possible(AsWritten, p, actions)
    decreases |actions|
  {
    Honest(p) && (actions == [] || HonestThroughout(Next(AsWritten, p, actions[0]), actions[1..]))
  }

  predicate KeepsHonestThroughout(p: Pool, actions: seq<Action>)
    requires Possible(AsWritten, p, actions)
    decreases |actions|
  {
    actions == [] || (KeepsHonest(p, actions[0]) && KeepsHonestThroughout(Next(AsWritten, p, actions[0]), actions[1..]))
  }

  /** A run of the code as written has truthful connected flags in every state if and
      only if each of its actions keeps them so. */
  lemma {:induction false} HonestRunIffKept(p: Pool, actions: seq<Action>)
    requires Honest(p) && Possible(AsWritten, p, actions)
    ensures HonestThroughout(p, actions) <==> KeepsHonestThroughout(p, actions)
    decreases |actions|
  {
    if actions != [] {
      var q := Next(AsWritten, p, actions[0]);
      HonestIffKept(p, actions[0]);
      if Honest(q) {
        HonestRunIffKept(q, actions[1..]);
      } else {
        assert !HonestThroughout(q, actions[1..]);
      }
    }
  }

  const EMPTY_POOL := Pool(map[], Table(map[], 0, [], 0))

  /** Each handle ever opened is closed exactly once when all objects are gone: the
      log of closed generations lists 0..next without repetition, nothing is left
      open, and no number was closed while not open. */
  lemma AllClosedOnce(code: Code, actions: seq<Action>)
    requires Possible(code, EMPTY_POOL, actions)
    requires code.AsWritten? ==> CarefulThroughout(EMPTY_POOL, actions)
    requires Final(code, EMPTY_POOL, actions).objs == map[]
    ensures var t := Final(code, EMPTY_POOL, actions).table;
            && t.open == map[] && t.stray == 0
            && (forall i, j | 0 <= i < j < |t.closed| :: t.closed[i] != t.closed[j])
            && (forall g: nat :: g < t.next <==> g in t.closed)
  {
    if code.AsWritten? { AsWrittenSafeIffCareful(EMPTY_POOL, actions); } else { RepairedSafe(EMPTY_POOL, actions); }
    SafeRunEndsInInv(code, EMPTY_POOL, actions);
    var q := Final(code, EMPTY_POOL, actions);
    assert forall h :: !OwnedBySomeone(q, h);
  }

  // ----- careless runs from nothing -----

  // One socket moved onto another leaves its handle open to nobody.
  function LeakingRun(h: Handle): seq<Action> { [Adopt(0, h, true), Default(1), MoveAssign(1, 0)] }

  // One socket constructed from a closed one would close the number again.
  function DoubleCloseRun(h: Handle): seq<Action> { [Adopt(0, h, true), Close(0), MoveNew(1, 0), Destroy(1)] }

  lemma OneFirst(code: Code, p: Pool, a: Action, rest: seq<Action>)
    requires Enabled(p, a) && Possible(code, Next(code, p, a), rest)
    ensures Possible(code, p, [a] + rest)
    ensures Final(code, p, [a] + rest) == Final(code, Next(code, p, a), rest)
  {
    assert ([a] + rest)[1..] == rest;
  }

  lemma LeakIsReachable(h: Handle)
    requires h != INVALID
    ensures Possible(AsWritten, EMPTY_POOL, LeakingRun(h))
    ensures var q := Final(AsWritten, EMPTY_POOL, LeakingRun(h));
            h in q.table.open && !OwnedBySomeone(q, h) && !Inv(q)
  {
    var a, b, c := Adopt(0, h, true), Default(1), MoveAssign(1, 0);
    var p := Next(AsWritten, EMPTY_POOL, a);
    var q := Next(AsWritten, p, b);
    OneFirst(AsWritten, q, c, []);
    OneFirst(AsWritten, p, b, [c] + []);
    OneFirst(AsWritten, EMPTY_POOL, a, [b] + ([c] + []));
    assert [a] + ([b] + ([c] + [])) == LeakingRun(h);
  }

  lemma DoubleCloseIsReachable(h: Handle)
    requires h != INVALID
    ensures Possible(AsWritten, EMPTY_POOL, DoubleCloseRun(h))
    ensures var q := Final(AsWritten, EMPTY_POOL, DoubleCloseRun(h)); q.table.stray == 1 && !Inv(q)
  {
    var a, b, c, d := Adopt(0, h, true), Close(0), MoveNew(1, 0), Destroy(1);
    var p := Next(AsWritten, EMPTY_POOL, a);
    var q := Next(AsWritten, p, b);
    var r := Next(AsWritten, q, c);
    OneFirst(AsWritten, r, d, []);
    OneFirst(AsWritten, q, c, [d] + []);
    OneFirst(AsWritten, p, b, [c] + ([d] + []));
    OneFirst(AsWritten, EMPTY_POOL, a, [b] + ([c] + ([d] + [])));
    assert [a] + ([b] + ([c] + ([d] + []))) == DoubleCloseRun(h);
  }
}

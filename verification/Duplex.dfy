/** Two live peers, each with a stream over its end of one connection, making calls
    in any interleaving: what one peer's calls put on the wire arrives at the other
    end at once or later, in order, and reads are cut as the system likes. */
module Duplex {
  import opened Os
  import opened StreamModel
  import opened WriterProofs
  import opened ReaderProofs

  /** One peer: its stream, everything its callers handed over, and everything its
      callers were given. */
  datatype Peer = Peer(stream: Stream, said: seq<byte>, heard: seq<byte>)

  datatype Peers = Peers(a: Peer, b: Peer)

  // A call by one of the peers.
  datatype Event = ByA(op: Op) | ByB(op: Op)

  // A stream whose connection is up and whose system calls never fail.
  predicate Live(s: Stream) {
    s.Valid() && s.connected && s.link.FullSends() && s.link.Smooth()
  }

  /** The calls of a live peer that return at present: sizes fit in an int, reads ask
      for no more than has arrived (others wait), and the code as written puts no
      character into a full area. */
  predicate Returns(code: Code, s: Stream, op: Op)
    requires s.Valid()
  {
    && Fits(s, op)
    && (op.PeekChar? || op.GetChar? ==> s.Reach() != [])
    && (op.GetBlock? ==> |op.dst| <= |s.Reach()|)
    && (op.PutChar? && code.AsWritten? ==> s.ppos < BUFFER_SIZE)
  }

  function Call(code: Code, p: Peer, op: Op): Peer
    requires p.stream.Shaped()
  {
    var r := Step(code, p.stream, op);
    Peer(r.next, p.said + Accepted(op, r.out), p.heard + r.got)
  }

  // The other end receives what was added to the wire.
  function Arrival(before: Stream, after: Stream, p: Peer): Peer
    requires before.link.wire <= after.link.wire
  {
    var link := p.stream.link;
    p.(stream := p.stream.(link := link.(inbound := link.inbound + after.link.wire[|before.link.wire|..])))
  }

  lemma WireOnlyGrows(code: Code, s: Stream, op: Op)
    requires s.Shaped()
    ensures s.link.wire <= Step(code, s, op).next.link.wire
  {
    if Reading(op) { ReadsLeavePutSide(code, s, op); }
  }

  function Exchange(code: Code, me: Peer, other: Peer, op: Op): (Peer, Peer)
    requires me.stream.Shaped()
  {
    WireOnlyGrows(code, me.stream, op);
    var after := Call(code, me, op);
    (after, Arrival(me.stream, after.stream, other))
  }

  function Happens(code: Code, w: Peers, e: Event): Peers
    requires w.a.stream.Shaped() && w.b.stream.Shaped()
  {
    match e
    case ByA(op) => var x := Exchange(code, w.a, w.b, op); Peers(x.0, x.1)
    case ByB(op) => var x := Exchange(code, w.b, w.a, op); Peers(x.1, x.0)
  }

  // ----- one direction -----

  // Everything `from` was handed is with `to`'s callers, ahead of them, or pending.
  predicate Conserved(from: Peer, to: Peer)
    requires from.stream.Shaped() && to.stream.Valid()
  {
    && from.said == from.stream.link.wire + from.stream.Pending()
    && from.stream.link.wire == to.heard + Ahead(to.stream)
  }

  lemma PutCharConserves(code: Code, s: Stream, c: byte)
    requires Live(s) && Returns(code, s, PutChar(c))
    ensures var r := Sputc(code, s, c);
            && r.out == Char(c) && Live(r.next)
            && r.next.link.wire + r.next.Pending() == s.link.wire + s.Pending() + [c]
  {
  }

  lemma WriteConserves(code: Code, s: Stream, op: Op)
    requires Live(s) && Returns(code, s, op) && !Reading(op)
    ensures var r := Step(code, s, op);
            && Live(r.next) && r.got == [] && Ahead(r.next) == Ahead(s)
            && r.next.link.wire + r.next.Pending() == s.link.wire + s.Pending() + Accepted(op, r.out)
  {
    match op
    case PutChar(c) => PutCharConserves(code, s, c);
    case PutBlock(data) => PutBlockConserves(s, data, CodedTest(|data|, s.ppos));
    case Flushing =>
      SyncConserves(s);
      AppendNothing(s.link.wire + s.Pending());
  }

  lemma ReadConserves(code: Code, s: Stream, op: Op)
    requires Live(s) && Returns(code, s, op) && Reading(op)
    ensures var r := Step(code, s, op);
            && Live(r.next) && r.got + Ahead(r.next) == Ahead(s) && Accepted(op, r.out) == []
            && r.next.link.wire == s.link.wire && r.next.Pending() == s.Pending()
  {
    CodedAgreesIffNoHazard(s, op);
    StepConservesInbound(s, op);
    ReadsRefinePlain(s, op);
    ReadsLeavePutSide(code, s, op);
  }

  // What a call does to both directions at once.
  lemma CallConserves(code: Code, me: Peer, other: Peer, op: Op)
    requires Live(me.stream) && Live(other.stream) && Returns(code, me.stream, op)
    requires Conserved(me, other) && Conserved(other, me)
    ensures var x := Exchange(code, me, other, op);
            Live(x.0.stream) && Live(x.1.stream) && Conserved(x.0, x.1) && Conserved(x.1, x.0)
  {
    var s, r := me.stream, Step(code, me.stream, op);
    WireOnlyGrows(code, s, op);
    var x := Exchange(code, me, other, op);
    if Reading(op) {
      ReadConserves(code, s, op);
      AppendNothing(me.said);
    } else {
      WriteConserves(code, s, op);
      AppendNothing(me.heard);
    }
    var more := r.next.link.wire[|s.link.wire|..];
    assert r.next.link.wire == s.link.wire + more;
    ArrivalConserves(other, more);
    Regroup(other.heard, Ahead(other.stream), more);
    Regroup(me.heard, r.got, Ahead(r.next));
  }

  lemma ArrivalConserves(p: Peer, more: seq<byte>)
    requires p.stream.Valid()
    ensures var s := p.stream.(link := p.stream.link.(inbound := p.stream.link.inbound + more));
            s.Valid() && Ahead(s) == Ahead(p.stream) + more
  {
  }

  // ----- any interleaving -----

  predicate Sound(w: Peers) {
    Live(w.a.stream) && Live(w.b.stream) && Conserved(w.a, w.b) && Conserved(w.b, w.a)
  }

  predicate EventReturns(code: Code, w: Peers, e: Event)
    requires Sound(w)
  { Returns(code, (if e.ByA? then w.a else w.b).stream, e.op) }

  lemma EventStaysSound(code: Code, w: Peers, e: Event)
    requires Sound(w) && EventReturns(code, w, e)
    ensures Sound(Happens(code, w, e))
  {
    match e
    case ByA(op) => CallConserves(code, w.a, w.b, op);
    case ByB(op) => CallConserves(code, w.b, w.a, op);
  }

  /** Any interleaving of calls by both peers, of the code as written too, passing over
      calls that would have to wait. At its end the connection is up and each
      direction accounts for every byte: heard by one side, then ahead of it, then
      pending at the other, is exactly what the other said. */
  function Final(code: Code, w: Peers, events: seq<Event>): (z: Peers)
    requires Sound(w)
    ensures Sound(z)
    ensures z.b.heard + Ahead(z.b.stream) + z.a.stream.Pending() == z.a.said
    ensures z.a.heard + Ahead(z.a.stream) + z.b.stream.Pending() == z.b.said
    decreases |events|
  {
    if events == [] then w
    else if EventReturns(code, w, events[0]) then
      EventStaysSound(code, w, events[0]);
      Final(code, Happens(code, w, events[0]), events[1..])
    else Final(code, w, events[1..])
  }

  // Two fresh streams over a fresh connection.
  predicate Fresh(p: Peer) {
    && Live(p.stream) && p.stream.ppos == 0 && p.stream.Avail() == []
    && p.stream.link.inbound == [] && p.stream.link.wire == [] && p.said == [] && p.heard == []
  }

  /** So, from two fresh streams, what either side has heard is always a prefix of what
      the other said. */
  lemma HeardIsPrefixOfSaid(code: Code, w: Peers, events: seq<Event>)
    requires Fresh(w.a) && Fresh(w.b)
    ensures var z := Final(code, w, events); z.a.heard <= z.b.said && z.b.heard <= z.a.said
  {
    var z := Final(code, w, events);
    Regroup(z.a.heard, Ahead(z.a.stream), z.b.stream.Pending());
    Regroup(z.b.heard, Ahead(z.b.stream), z.a.stream.Pending());
  }
}

/** What callers read from the stream: conservation of inbound bytes,
    independence from how the system cuts them into chunks, and exactly where the
    coded `overflow` and `underflow` part from the repaired ones. */
module ReaderProofs {
  import opened Os
  import opened StreamModel
  import opened WriterProofs

  // ----- the read loop -----

  // Number of answers that come back as a wrapped -1.
  function Wraps(recvs: seq<RecvAnswer>): nat {
    if recvs == [] then 0
    else (if recvs[0].RecvFails? && FailedCall(recvs[0].errno).Returned? then 1 else 0) + Wraps(recvs[1..])
  }

  // What one turn takes from the connection.
  lemma TurnCount(l: Loop)
    requires l.Valid()
    ensures var t := LoopTurn(l);
            && |l.link.inbound| - |t.l.link.inbound| == t.l.read - l.read + Wraps(l.link.recvs) - Wraps(t.l.link.recvs)
            && Wraps(t.l.link.recvs) <= Wraps(l.link.recvs)
  {
  }

  /** Exact count, whatever the system answers: the loop takes as many bytes from
      the connection as `read` grew, plus one for every wrapped -1 it met. */
  lemma {:induction false} ReadLoopCount(l: Loop)
    requires l.Valid()
    ensures var r := ReadLoop(l);
            && |l.link.inbound| - |r.l.link.inbound| == r.l.read - l.read + Wraps(l.link.recvs) - Wraps(r.l.link.recvs)
            && Wraps(r.l.link.recvs) <= Wraps(l.link.recvs)
    decreases |l.link.recvs|, l.connected, |l.dst| - l.read
  {
    TurnCount(l);
    if LoopTurn(l).Again? {
      ReadLoopCount(LoopTurn(l).l);
    }
  }

  // The number of wrapped -1 answers a loop met.
  function Met(l: Loop): int
    requires l.Valid()
  { Wraps(l.link.recvs) - Wraps(ReadLoop(l).l.link.recvs) }

  // The loop only stops before the destination when that is where recv was aimed.
  lemma {:induction false} ReadStaysInside(l: Loop)
    requires l.Valid() && (0 <= l.read || (l.read == -1 && l.connected))
    ensures ReadLoop(l).out != Wild ==> 0 <= ReadLoop(l).l.read
    decreases |l.link.recvs|, l.connected, |l.dst| - l.read
  {
    if LoopTurn(l).Again? {
      ReadStaysInside(LoopTurn(l).l);
    }
  }

  // `b` was reached from `a` by moving inbound bytes into place, in order.
  predicate Moved(a: Loop, b: Loop) {
    && 0 <= a.read <= b.read <= |b.dst| == |a.dst|
    && b.dst[..a.read] == a.dst[..a.read] && b.dst[b.read..] == a.dst[b.read..]
    && b.dst[a.read..b.read] + b.link.inbound == a.link.inbound
  }

  lemma MovedTransitive(a: Loop, b: Loop, c: Loop)
    requires Moved(a, b) && Moved(b, c)
    ensures Moved(a, c)
  {
  }

  lemma ArrivedMoves(l: Loop, got: Received)
    requires l.Valid() && 0 <= l.read && l.read + |got.bytes| <= |l.dst|
    requires got.bytes + got.link.inbound == l.link.inbound
    ensures Moved(l, LoopArrived(l, got))
  {
    var m := LoopArrived(l, got);
    assert m.dst[..l.read] == l.dst[..l.read] && m.dst[l.read..m.read] == got.bytes;
    assert m.dst[m.read..] == l.dst[m.read..];
  }

  lemma TurnMoves(l: Loop)
    requires l.Valid() && 0 <= l.read && Wraps(LoopTurn(l).l.link.recvs) == Wraps(l.link.recvs)
    ensures var t := LoopTurn(l);
            Moved(l, t.l) && (t.Done? && t.out == Wild ==> |l.dst| - l.read > INT_MAX)
  {
    if l.connected && l.read < |l.dst| {
      ArrivedMoves(l, Recv(l.link, |l.dst| - l.read));
    }
  }

  // A loop that meets no wrapped -1 moves inbound bytes into place, in order.
  lemma {:induction false} ReadLoopMoves(l: Loop)
    requires l.Valid() && 0 <= l.read && Met(l) == 0
    ensures var r := ReadLoop(l);
            Moved(l, r.l) && (r.out == Wild ==> |l.dst| - l.read > INT_MAX)
    decreases |l.link.recvs|, l.connected, |l.dst| - l.read
  {
    var t := LoopTurn(l);
    TurnCount(l);
    if t.Again? {
      ReadLoopCount(t.l);
      TurnMoves(l);
      ReadLoopMoves(t.l);
      MovedTransitive(l, t.l, ReadLoop(t.l).l);
    } else {
      TurnMoves(l);
    }
  }

  lemma {:induction false} BlockingHasNoWraps(recvs: seq<RecvAnswer>)
    ensures Link([], [], recvs, []).Blocking() ==> Wraps(recvs) == 0
  {
    if recvs != [] {
      BlockingHasNoWraps(recvs[1..]);
      assert Link([], [], recvs, []).Blocking() ==> Link([], [], recvs[1..], []).Blocking();
    }
  }

  lemma {:induction false} ReadLoopStaysBlocking(l: Loop)
    requires l.Valid() && l.link.Blocking()
    ensures ReadLoop(l).l.link.Blocking()
    decreases |l.link.recvs|, l.connected, |l.dst| - l.read
  {
    if LoopTurn(l).Again? { ReadLoopStaysBlocking(LoopTurn(l).l); }
  }

  // The bytes a loop will still take when recv never fails: what is left of the
  // destination is cast to int for the first recv, and later ones ask for what is
  // left of that.
  function StillTaken(l: Loop): nat
    requires l.Valid()
  {
    var asked := IntLength(|l.dst| - l.read);
    if l.connected && 0 <= asked then Min(asked, |l.link.inbound|) else 0
  }

  // How a loop ends: filled when it takes all it has left, undefined when the cast
  // comes out negative, otherwise eof with the connection closed.
  predicate EndsAs(l: Loop, r: Turn)
    requires l.Valid()
  {
    var rest := |l.dst| - l.read;
    && r.Done? && r.l.read == l.read + StillTaken(l)
    && (r.out == Ret(|l.dst|) <==> rest == StillTaken(l))
    && (r.out == Wild <==> l.connected && IntLength(rest) < 0)
    && (r.out != Ret(|l.dst|) && r.out != Wild ==> r.out == Eof)
    && r.l.connected == (l.connected && r.out != Eof)
  }

  lemma DoneEnds(l: Loop)
    requires l.Valid() && 0 <= l.read && l.link.Smooth() && LoopTurn(l).Done?
    ensures EndsAs(l, LoopTurn(l)) && LoopTurn(l).l.link.Smooth()
  {
  }

  lemma AgainEnds(l: Loop, r: Turn)
    requires l.Valid() && 0 <= l.read && l.link.Smooth() && LoopTurn(l).Again?
    ensures var t := LoopTurn(l); l.read <= t.l.read && t.l.link.Smooth() && (EndsAs(t.l, r) ==> EndsAs(l, r))
  {
    IntLengthShrinks(|l.dst| - l.read, LoopTurn(l).l.read - l.read);
  }

  /** How the loop ends when recv never fails, for every size. It fills the
      destination if and only if what is left of it fits in an int and is there;
      chunks play no part. */
  lemma {:induction false} ReadLoopEnds(l: Loop)
    requires l.Valid() && 0 <= l.read && l.link.Smooth()
    ensures ReadLoop(l).l.link.Smooth() && EndsAs(l, ReadLoop(l))
    decreases |l.link.recvs|, l.connected, |l.dst| - l.read
  {
    if LoopTurn(l).Done? {
      DoneEnds(l);
    } else {
      AgainEnds(l, ReadLoop(l));
      ReadLoopEnds(LoopTurn(l).l);
    }
  }

  // One turn closes a live connection only once nothing is left to receive. A rest
  // of INT_MAX + 1, which a wrapped -1 may leave, asks for a negative length.
  lemma TurnClosesAtEnd(l: Loop)
    requires l.Valid() && |l.dst| - l.read <= INT_MAX + 1
    ensures var t := LoopTurn(l);
            && (l.connected && !t.l.connected ==> t.l.link.inbound == [])
            && (!l.connected ==> t.Done? && t.l == l)
            && (t.Again? ==> |t.l.dst| - t.l.read <= INT_MAX + 1)
  {
  }

  lemma {:induction false} ReadLoopClosesAtEnd(l: Loop)
    requires l.Valid() && |l.dst| - l.read <= INT_MAX + 1
    ensures var r := ReadLoop(l);
            && (l.connected && !r.l.connected ==> r.l.link.inbound == [])
            && (!l.connected ==> r.l == l)
    decreases |l.link.recvs|, l.connected, |l.dst| - l.read
  {
    TurnClosesAtEnd(l);
    var t := LoopTurn(l);
    if t.Again? {
      ReadLoopClosesAtEnd(t.l);
    }
  }

  // ----- xsgetn -----

  // The part of the inbound stream still ahead of the caller of a blocking stream.
  function Ahead(s: Stream): seq<byte>
    requires s.Valid()
  { s.Avail() + s.link.inbound }

  lemma AfterLoopConserves(s: Stream, dst: seq<byte>, r: Turn)
    requires s.Valid() && r.Done? && r.l.Valid() && Moved(LoopStart(s, dst), r.l)
    ensures var g := AfterLoop(s, LoopStart(s, dst).read, r); g.got + Ahead(g.next) == Ahead(s) && g.got <= g.dst
  {
  }

  lemma LoopStaysBlocking(s: Stream, dst: seq<byte>)
    requires s.Valid() && s.link.Blocking()
    ensures var l := LoopStart(s, dst);
            var r := ReadLoop(l);
            r.l.link.Blocking() && Moved(l, r.l) && (r.out == Wild ==> Rest(s, dst) > INT_MAX)
  {
    var l := LoopStart(s, dst);
    ReadLoopStaysBlocking(l);
    BlockingHasNoWraps(l.link.recvs);
    BlockingHasNoWraps(ReadLoop(l).l.link.recvs);
    ReadLoopMoves(l);
  }

  // Whatever xsgetn copied continues the stream.
  lemma XsgetnConserves(s: Stream, dst: seq<byte>)
    requires s.Valid() && s.link.Blocking()
    ensures var r := Xsgetn(s, dst);
            && r.next.link.Blocking()
            && r.got + Ahead(r.next) == Ahead(s)
            && r.got <= r.dst && (r.out == Wild ==> Rest(s, dst) > INT_MAX)
  {
    LoopStaysBlocking(s, dst);
    AfterLoopConserves(s, dst, ReadLoop(LoopStart(s, dst)));
  }

  lemma MovedLeavesRest(l: Loop, m: Loop, dst: seq<byte>)
    requires Moved(l, m) && |l.dst| == |dst| && l.dst[l.read..] == dst[l.read..]
    ensures m.dst == m.dst[..m.read] + dst[m.read..]
  {
    assert l.dst[l.read..][m.read - l.read..] == l.dst[m.read..];
    assert dst[l.read..][m.read - l.read..] == dst[m.read..];
  }

  // The destination past what was copied is left alone.
  lemma XsgetnLeavesRest(s: Stream, dst: seq<byte>)
    requires s.Valid() && s.link.Blocking()
    ensures var r := Xsgetn(s, dst); |r.got| <= |dst| && r.dst == r.got + dst[|r.got|..]
  {
    var l := LoopStart(s, dst);
    LoopStaysBlocking(s, dst);
    assert l.dst[l.read..] == dst[l.read..];
    MovedLeavesRest(l, ReadLoop(l).l, dst);
  }

  /** Whatever the system answers: an xsgetn that stays inside its destination
      continues the stream if and only if it met no wrapped -1, and each one it met
      loses a byte. */
  lemma XsgetnConservesIffNoWrap(s: Stream, dst: seq<byte>)
    requires s.Valid() && Xsgetn(s, dst).out != Wild
    ensures var r := Xsgetn(s, dst);
            var met := Wraps(s.link.recvs) - Wraps(r.next.link.recvs);
            && 0 <= met && |r.got| + |Ahead(r.next)| == |Ahead(s)| - met
            && (r.got + Ahead(r.next) == Ahead(s) <==> met == 0)
  {
    var l := LoopStart(s, dst);
    ReadLoopCount(l);
    ReadStaysInside(l);
    if Met(l) == 0 {
      ReadLoopMoves(l);
      AfterLoopConserves(s, dst, ReadLoop(l));
    }
  }

  /** What a wrapped -1 does first: with an empty get area and an empty count the
      next receive is aimed one byte before the destination. */
  lemma SafeErrorAimsBeforeDestination(s: Stream, dst: seq<byte>, e: Errno)
    requires s.Valid() && s.connected && s.gpos == s.gend && 0 < |dst| && 0 <= IntLength(|dst|)
    requires s.link.recvs != [] && s.link.recvs[0] == RecvFails(e) && FailedCall(e).Returned?
    ensures Xsgetn(s, dst).out == Wild
  {
    var l := LoopStart(s, dst);
    var m := LoopTurn(l).l;
    assert LoopTurn(l) == Again(m) && m.read == -1 && m.connected;
    assert LoopTurn(m) == Done(Wild, m);
    assert ReadLoop(m) == Done(Wild, m);
    assert ReadLoop(l) == ReadLoop(m);
    assert Xsgetn(s, dst).out == ReadLoop(l).out;
  }

  // ----- the reference reader -----

  /** A reader without buffer, chunks or script: the bytes still to come and
      whether the connection is open. */
  datatype Plain = Plain(rest: seq<byte>, connected: bool)

  datatype PlainGet = PlainGet(out: Outcome, got: seq<byte>, next: Plain)

  // A read past the end hands over the rest, reports eof and closes.
  function PlainStep(p: Plain, op: Op): PlainGet
    requires Reading(op)
  {
    if op.GetBlock? then
      if |op.dst| <= |p.rest| then
        PlainGet(Ret(|op.dst|), p.rest[..|op.dst|], p.(rest := p.rest[|op.dst|..]))
      else PlainGet(Eof, p.rest, Plain([], false))
    else if p.rest == [] then PlainGet(Eof, [], Plain([], false))
    else if op.PeekChar? then PlainGet(Char(p.rest[0]), [], p)
    else PlainGet(Char(p.rest[0]), [p.rest[0]], p.(rest := p.rest[1..]))
  }

  function Abstract(s: Stream): Plain
    requires s.Valid()
  { Plain(s.Reach(), s.connected) }

  lemma UnderflowRefines(s: Stream)
    requires s.Valid() && s.link.Smooth() && s.gpos == s.gend
    ensures var r := Underflow(Repaired, s);
            && r.next.link.Smooth() && r.next.Reach() == s.Reach()
            && r.next.connected == (s.connected && s.Reach() != [])
            && r.out == (if s.Reach() == [] then Eof else Char(s.Reach()[0]))
            && (s.Reach() != [] ==> r.next.gpos < r.next.gend)
  {
  }

  lemma XsgetnRefines(s: Stream, dst: seq<byte>)
    requires s.Valid() && s.link.Smooth() && Rest(s, dst) <= INT_MAX
    ensures var r := Xsgetn(s, dst);
            && r.next.link.Smooth()
            && PlainStep(Abstract(s), GetBlock(dst)) == PlainGet(r.out, r.got, Abstract(r.next))
  {
    var l := LoopStart(s, dst);
    XsgetnConserves(s, dst);
    ReadLoopEnds(l);
    var r := Xsgetn(s, dst);
    assert r.next.Avail() == s.Avail()[l.read..];
    if |dst| <= |s.Reach()| {
      assert |r.got| == |dst|;
      PrefixOfSum(r.got, r.next.Avail(), r.next.link.inbound, s.Avail(), s.link.inbound, s.connected);
    } else {
      assert r.next.Reach() == [];
      PrefixOfSum(r.got, r.next.Avail(), r.next.link.inbound, s.Avail(), s.link.inbound, s.connected);
    }
  }

  lemma PrefixOfSum(got: seq<byte>, avail: seq<byte>, inbound: seq<byte>,
                    avail0: seq<byte>, inbound0: seq<byte>, connected: bool)
    requires got + (avail + inbound) == avail0 + inbound0
    requires connected || inbound == inbound0
    ensures var reach := avail + if connected then inbound else [];
            var reach0 := avail0 + if connected then inbound0 else [];
            |got| <= |reach0| && got == reach0[..|got|] && reach == reach0[|got|..]
  {
    var all := avail0 + inbound0;
    if connected {
      assert all[|got|..] == avail + inbound && all[..|got|] == got;
    } else {
      assert |got + avail| == |avail0|;
      assert got + avail == all[..|avail0|] == avail0;
    }
  }

  // The sizes whose `(int)` casts keep their value in a state: a block to put, and
  // what a block to get still needs after the get area.
  predicate Fits(s: Stream, op: Op) { BlockFits(op) && (op.GetBlock? ==> Rest(s, op.dst) <= INT_MAX) }

  predicate FitThroughout(code: Code, s: Stream, ops: seq<Op>)
    requires s.Shaped()
    decreases |ops|
  {
    ops == [] || (Fits(s, ops[0]) && var r := Step(code, s, ops[0]); FitThroughout(code, r.next, Later(r.out, ops)))
  }

  // The two single-character reads once a byte is buffered.
  lemma BufferedByteIsNext(s: Stream)
    requires s.Valid() && s.gpos < s.gend
    ensures s.Reach() != [] && s.ibuf[s.gpos] == s.Reach()[0]
    ensures s.(gpos := s.gpos + 1).Reach() == s.Reach()[1..]
  {
  }

  // Both single-character reads look at this byte, if there is one.
  lemma PeekRefines(s: Stream)
    requires s.Valid() && s.link.Smooth()
    ensures var r := Sgetc(Repaired, s);
            && r.next.link.Smooth() && r.next.Reach() == s.Reach()
            && r.next.connected == (s.connected && s.Reach() != [])
            && r.out == (if s.Reach() == [] then Eof else Char(s.Reach()[0]))
            && (s.Reach() != [] ==> r.next.gpos < r.next.gend)
            && Sbumpc(Repaired, s) == if r.out.Char? then Answer(r.out, r.next.(gpos := r.next.gpos + 1)) else r
  {
    if s.gpos == s.gend { UnderflowRefines(s); } else { BufferedByteIsNext(s); }
  }

  lemma GetCharRefines(s: Stream)
    requires s.Valid() && s.link.Smooth()
    ensures var r := Step(Repaired, s, GetChar);
            && r.next.link.Smooth()
            && PlainStep(Abstract(s), GetChar) == PlainGet(r.out, r.got, Abstract(r.next))
  {
    PeekRefines(s);
    if s.Reach() != [] { BufferedByteIsNext(Sgetc(Repaired, s).next); }
  }

  /** Refinement: with recv choosing only chunk sizes, every read of the buffered
      stream returns and delivers what the reference reader does. */
  lemma ReadsRefinePlain(s: Stream, op: Op)
    requires s.Valid() && s.link.Smooth() && Reading(op) && Fits(s, op)
    ensures var r := Step(Repaired, s, op);
            && r.next.link.Smooth()
            && PlainStep(Abstract(s), op) == PlainGet(r.out, r.got, Abstract(r.next))
  {
    match op
    case GetBlock(dst) => XsgetnRefines(s, dst);
    case GetChar => GetCharRefines(s);
    case _ => PeekRefines(s);
  }

  // The numbers of an xsgetn, for every size.
  lemma XsgetnEnds(s: Stream, dst: seq<byte>)
    requires s.Valid() && s.link.Smooth()
    ensures var r, rest := Xsgetn(s, dst), Rest(s, dst);
            var taken := StillTaken(LoopStart(s, dst));
            && |r.got| == |dst| - rest + taken && r.next.Avail() == s.Avail()[|dst| - rest..]
            && (r.out == Ret(|dst|) <==> rest == taken)
            && (r.out == Wild <==> s.connected && IntLength(rest) < 0)
            && (r.out != Ret(|dst|) && r.out != Wild ==> r.out == Eof)
            && r.next.connected == (s.connected && r.out != Eof)
  {
    ReadLoopEnds(LoopStart(s, dst));
  }

  /** xsgetn for every size, on a connection whose recv never fails. It returns n,
      with the next n bytes, if and only if that many are reachable and what the get
      area does not hold fits in an int. A rest cast to a negative int is undefined.
      Otherwise it returns eof and closes, with a prefix of the reachable bytes at
      the start of the destination: all of them unless the cast left fewer. */
  lemma XsgetnOutcome(s: Stream, dst: seq<byte>)
    requires s.Valid() && s.link.Smooth()
    ensures var r, rest := Xsgetn(s, dst), Rest(s, dst);
            && (r.out == Ret(|dst|) <==> |dst| <= |s.Reach()| && rest <= INT_MAX)
            && (r.out == Ret(|dst|) ==> r.dst == s.Reach()[..|dst|] && r.next.Reach() == s.Reach()[|dst|..])
            && (r.out == Wild <==> s.connected && IntLength(rest) < 0)
            && (r.out != Ret(|dst|) && r.out != Wild ==>
                  && r.out == Eof && !r.next.connected && r.next.Reach() == []
                  && r.got <= s.Reach() && r.got <= r.dst
                  && (r.got == s.Reach() <==> s.connected ==> |s.link.inbound| <= IntLength(rest) || rest <= INT_MAX))
  {
    XsgetnEnds(s, dst);
    XsgetnConserves(s, dst);
    var r := Xsgetn(s, dst);
    PrefixOfSum(r.got, r.next.Avail(), r.next.link.inbound, s.Avail(), s.link.inbound, s.connected);
  }

  // The condition on the size alone, as long as the bytes are there.
  lemma XsgetnReturnsIffRestFits(s: Stream, dst: seq<byte>)
    requires s.Valid() && s.link.Smooth() && |dst| <= |s.Reach()|
    ensures Xsgetn(s, dst).out == Ret(|dst|) <==> |dst| - |s.Avail()| <= INT_MAX
  {
    XsgetnOutcome(s, dst);
  }

  // ----- conservation of inbound bytes -----

  lemma TakingOneMovesAhead(s: Stream)
    requires s.Valid() && s.gpos < s.gend
    ensures [s.ibuf[s.gpos]] + Ahead(s.(gpos := s.gpos + 1)) == Ahead(s)
  {
  }

  // A peek moves bytes into the get area at most, a wrapped -1 or not.
  lemma PeekKeepsAhead(s: Stream)
    requires s.Valid()
    ensures var r := Sgetc(Repaired, s);
            && Ahead(r.next) == Ahead(s)
            && (r.out.Char? ==> r.next.gpos < r.next.gend && r.out.c == r.next.ibuf[r.next.gpos])
            && Sbumpc(Repaired, s) == if r.out.Char? then Answer(r.out, r.next.(gpos := r.next.gpos + 1)) else r
  {
    if s.gpos == s.gend && s.connected {
      var got := Recv(s.link, BUFFER_SIZE);
      var r := Sgetc(Repaired, s);
      if r.out.Char? { assert r.next.Avail() == got.bytes; }
      assert s.Avail() == [];
    }
  }

  lemma GetCharKeepsAhead(s: Stream)
    requires s.Valid()
    ensures var r := Step(Repaired, s, GetChar); r.got + Ahead(r.next) == Ahead(s)
  {
    PeekKeepsAhead(s);
    var t := Sgetc(Repaired, s);
    if t.out.Char? { TakingOneMovesAhead(t.next); } else { AppendNothing(Ahead(t.next)); }
  }

  // Puts and syncs leave the get side alone.
  lemma WritesLeaveGetSide(code: Code, s: Stream, op: Op)
    requires s.Shaped() && !Reading(op)
    ensures var r := Step(code, s, op);
            && r.got == [] && r.next.ibuf == s.ibuf && r.next.gpos == s.gpos && r.next.gend == s.gend
            && r.next.link.inbound == s.link.inbound && r.next.link.recvs == s.link.recvs
  {
  }

  lemma CharReadsStayBlocking(s: Stream, op: Op)
    requires s.Valid() && s.link.Blocking() && !op.GetBlock?
    ensures Step(Repaired, s, op).next.link.Blocking()
  {
  }

  lemma StepConservesInbound(s: Stream, op: Op)
    requires s.Valid() && s.link.Blocking()
    ensures var r := Step(Repaired, s, op); r.next.link.Blocking() && r.got + Ahead(r.next) == Ahead(s)
  {
    if op.GetBlock? {
      XsgetnConserves(s, op.dst);
    } else {
      CharReadsStayBlocking(s, op);
      if op.GetChar? {
        GetCharKeepsAhead(s);
      } else {
        if op.PeekChar? { PeekKeepsAhead(s); } else { WritesLeaveGetSide(Repaired, s, op); }
        AppendNothing(Ahead(s));
      }
    }
  }

  /** Conservation: in any run of reads and writes, what was delivered, then the get
      area, then the bytes not yet received, is the whole inbound stream. recv may
      throw, hand over any positive count, or report the end. */
  lemma {:induction false} InboundConservation(s: Stream, ops: seq<Op>)
    requires s.Valid() && s.link.Blocking()
    ensures var t := Run(Repaired, s, ops);
            && t.last.link.Blocking()
            && Flat(t.got) + Ahead(t.last) == Ahead(s)
    decreases |ops|
  {
    if ops == [] {
      AppendNothing(Ahead(s));
    } else {
      var r := Step(Repaired, s, ops[0]);
      StepConservesInbound(s, ops[0]);
      InboundConservation(r.next, Later(r.out, ops));
      var t := Run(Repaired, r.next, Later(r.out, ops));
      Regroup(r.got, Flat(t.got), Ahead(t.last));
    }
  }

  // The bytes a call loses: one for each wrapped -1 that xsgetn meets.
  function Lost(s: Stream, op: Op): int
    requires s.Valid()
  { if op.GetBlock? then Wraps(s.link.recvs) - Wraps(Xsgetn(s, op.dst).next.link.recvs) else 0 }

  function LostThroughout(s: Stream, ops: seq<Op>): int
    requires s.Valid()
    decreases |ops|
  {
    if ops == [] then 0
    else var r := Step(Repaired, s, ops[0]); Lost(s, ops[0]) + LostThroughout(r.next, Later(r.out, ops))
  }

  // Both the bytes lost in one call and, if none were, where the others are.
  lemma StepLoses(s: Stream, op: Op)
    requires s.Valid() && Step(Repaired, s, op).out != Wild
    ensures var r := Step(Repaired, s, op);
            && 0 <= Lost(s, op) && |r.got| + |Ahead(r.next)| == |Ahead(s)| - Lost(s, op)
            && (Lost(s, op) == 0 ==> r.got + Ahead(r.next) == Ahead(s))
  {
    if op.GetBlock? {
      XsgetnConservesIffNoWrap(s, op.dst);
    } else if op.GetChar? {
      GetCharKeepsAhead(s);
    } else {
      if op.PeekChar? { PeekKeepsAhead(s); } else { WritesLeaveGetSide(Repaired, s, op); }
      AppendNothing(Ahead(s));
    }
  }

  lemma {:induction false} RunLoses(s: Stream, ops: seq<Op>)
    requires s.Valid() && Wild !in Run(Repaired, s, ops).outs
    ensures var t := Run(Repaired, s, ops);
            && 0 <= LostThroughout(s, ops) && |Flat(t.got)| + |Ahead(t.last)| == |Ahead(s)| - LostThroughout(s, ops)
            && (LostThroughout(s, ops) == 0 ==> Flat(t.got) + Ahead(t.last) == Ahead(s))
    decreases |ops|
  {
    if ops == [] {
      AppendNothing(Ahead(s));
    } else {
      var r := Step(Repaired, s, ops[0]);
      assert Run(Repaired, s, ops).outs[0] == r.out;
      StepLoses(s, ops[0]);
      RunLoses(r.next, Later(r.out, ops));
      var t := Run(Repaired, r.next, Later(r.out, ops));
      Regroup(r.got, Flat(t.got), Ahead(t.last));
    }
  }

  /** Whatever the system answers: a run that stays inside its arrays delivers the
      inbound stream in order, with nothing missing, if and only if none of its block
      reads met a wrapped -1. */
  lemma InboundConservedIffNoneLost(s: Stream, ops: seq<Op>)
    requires s.Valid() && Wild !in Run(Repaired, s, ops).outs
    ensures var t := Run(Repaired, s, ops);
            Flat(t.got) + Ahead(t.last) == Ahead(s) <==> LostThroughout(s, ops) == 0
  {
    RunLoses(s, ops);
    var t := Run(Repaired, s, ops);
    assert |Flat(t.got) + Ahead(t.last)| == |Ahead(s)| - LostThroughout(s, ops);
  }

  // ----- chunk independence -----

  // Alike in all but the way reachable bytes are split and chunked.
  predicate Alike(a: Stream, b: Stream) {
    && a.Valid() && b.Valid() && a.link.Smooth() && b.link.Smooth()
    && Abstract(a) == Abstract(b)
    && a.obuf == b.obuf && a.ppos == b.ppos && a.link.wire == b.link.wire && a.link.sends == b.link.sends
  }

  lemma SendIgnoresInbound(a: Link, b: Link, data: seq<byte>)
    requires a.wire == b.wire && a.sends == b.sends
    ensures var x, y := Send(a, data), Send(b, data);
            && x.call == y.call && x.moved == y.moved && x.link.wire == y.link.wire && x.link.sends == y.link.sends
            && x.link.recvs == a.recvs && y.link.recvs == b.recvs
  {
  }

  lemma FlushesStayAlike(a: Stream, b: Stream, block: seq<byte>)
    requires Alike(a, b)
    ensures var x, y := FlushBlock(a, block), FlushBlock(b, block); x.out == y.out && Alike(x.next, y.next)
  {
  }

  lemma BlocksStayAlike(a: Stream, b: Stream, data: seq<byte>)
    requires Alike(a, b)
    ensures var x, y := Xsputn(a, data, true), Xsputn(b, data, true); x.out == y.out && Alike(x.next, y.next)
  {
    if a.connected {
      FlushesStayAlike(a, b, a.Pending());
      var x, y := FlushBlock(a, a.Pending()), FlushBlock(b, b.Pending());
      SendIgnoresInbound(x.next.link, y.next.link, data);
    }
  }

  lemma WritesStayAlike(a: Stream, b: Stream, op: Op)
    requires Alike(a, b) && !Reading(op)
    ensures var x, y := Step(Repaired, a, op), Step(Repaired, b, op);
            x.out == y.out && x.got == y.got && Alike(x.next, y.next)
  {
    if op.PutBlock? {
      BlocksStayAlike(a, b, op.data);
    } else if op.PutChar? {
      FlushesStayAlike(a, b, a.obuf);
    } else {
      SendIgnoresInbound(a.link, b.link, a.Pending());
    }
  }

  /** Chunk independence: two streams that can still yield the same bytes answer
      any mix of reads and writes alike, call by call, however the system cuts the
      inbound bytes. */
  lemma {:induction false} ChunkIndependence(a: Stream, b: Stream, ops: seq<Op>)
    requires Alike(a, b) && FitThroughout(Repaired, a, ops) && FitThroughout(Repaired, b, ops)
    ensures var x, y := Run(Repaired, a, ops), Run(Repaired, b, ops);
            x.outs == y.outs && x.got == y.got && Alike(x.last, y.last)
    decreases |ops|
  {
    if ops != [] {
      if Reading(ops[0]) {
        ReadsRefinePlain(a, ops[0]);
        ReadsRefinePlain(b, ops[0]);
        ReadsLeavePutSide(Repaired, a, ops[0]);
        ReadsLeavePutSide(Repaired, b, ops[0]);
      } else {
        WritesStayAlike(a, b, ops[0]);
      }
      var x, y := Step(Repaired, a, ops[0]), Step(Repaired, b, ops[0]);
      ChunkIndependence(x.next, y.next, Later(x.out, ops));
    }
  }

  // ----- where the coded version departs -----

  // A character read that asks the system and gets no byte back: the end of the
  // stream, or a wrapped -1.
  predicate ReadsNothing(s: Stream) {
    && s.gpos == s.gend && s.connected
    && var got := Recv(s.link, BUFFER_SIZE); got.call.Returned? && got.bytes == []
  }

  predicate Hazard(s: Stream, op: Op) {
    || (op.PutChar? && s.connected && s.ppos == BUFFER_SIZE)
    || ((op.PeekChar? || op.GetChar?) && ReadsNothing(s))
  }

  /** One call of the code as written does what the repaired code does if and only
      if it is neither a character put into a full area of a connected stream, nor
      a character read for which recv returned no byte. */
  lemma CodedAgreesIffNoHazard(s: Stream, op: Op)
    requires s.Valid()
    ensures Step(AsWritten, s, op) == Step(Repaired, s, op) <==> !Hazard(s, op)
    ensures Hazard(s, op) ==> Step(AsWritten, s, op).out != Step(Repaired, s, op).out
  {
  }

  // What the coded version does instead: it stores past the put area, and hands
  // out the stale first byte of the get area as if it had been received.
  lemma HazardSymptoms(s: Stream, op: Op)
    requires s.Valid() && Hazard(s, op)
    ensures op.PutChar? ==> Step(AsWritten, s, op).out == Wild
    ensures !op.PutChar? ==> (Step(AsWritten, s, op).out == Char(s.ibuf[0]) && Step(Repaired, s, op).out == Eof)
  {
  }

  // A stream just constructed over an open connection, with the peer's bytes to
  // come and a system that takes and gives all it can.
  function JustConnected(inbound: seq<byte>): (s: Stream)
    ensures s.Valid() && s.Avail() == [] && s.Pending() == []
  {
    var zeros := seq(BUFFER_SIZE, _ => 0);
    Stream(zeros, 0, 0, zeros, 0, true, Link(inbound, [], [], []), [])
  }

  function CharPuts(c: byte, n: nat): seq<Op> { seq(n, _ => PutChar(c)) }

  // What n characters put into room and one more are answered with.
  function CharsThenWild(c: byte, n: nat): seq<Outcome> { seq(n, _ => Char(c)) + [Wild] }

  lemma RunOfCharPuts(s: Stream, c: byte, n: nat)
    requires s.Shaped()
    ensures var t, r := Run(AsWritten, s, CharPuts(c, n + 1)), Step(AsWritten, s, PutChar(c));
            t.outs == if r.out == Wild then [Wild] else [r.out] + Run(AsWritten, r.next, CharPuts(c, n)).outs
  {
    assert CharPuts(c, n + 1)[0] == PutChar(c) && CharPuts(c, n + 1)[1..] == CharPuts(c, n);
    assert Run(AsWritten, Step(AsWritten, s, PutChar(c)).next, []).outs == [];
  }

  // Putting one character more than the put area has room for.
  lemma {:induction false} PutCharsUntilFull(s: Stream, c: byte, n: nat)
    requires s.Valid() && s.connected && s.ppos + n == BUFFER_SIZE
    ensures Run(AsWritten, s, CharPuts(c, n + 1)).outs == CharsThenWild(c, n)
    decreases n
  {
    RunOfCharPuts(s, c, n);
    if n > 0 {
      PutCharsUntilFull(Step(AsWritten, s, PutChar(c)).next, c, n - 1);
      assert [Char(c)] + CharsThenWild(c, n - 1) == CharsThenWild(c, n);
    }
  }

  /** Both hazards are within reach of a stream just constructed: the 513th character
      put into it is stored past the put area, and a peek when the peer closed
      without a word shows a byte that never came. */
  lemma HazardsAreReachable(c: byte)
    ensures Run(AsWritten, JustConnected([]), CharPuts(c, 513)).outs == CharsThenWild(c, 512)
    ensures Run(AsWritten, JustConnected([]), [PeekChar]).outs == [Char(0)]
    ensures Run(Repaired, JustConnected([]), [PeekChar]).outs == [Eof]
  {
    PutCharsUntilFull(JustConnected([]), c, 512);
    HazardSymptoms(JustConnected([]), PeekChar);
    var a := Step(AsWritten, JustConnected([]), PeekChar);
    var r := Step(Repaired, JustConnected([]), PeekChar);
    assert Run(AsWritten, a.next, []).outs == [] && Run(Repaired, r.next, []).outs == [];
  }

  // No call of a run of the repaired code meets a hazard.
  predicate HazardFree(s: Stream, ops: seq<Op>)
    requires s.Valid()
    decreases |ops|
  {
    || ops == []
    || (!Hazard(s, ops[0])
        && var r := Step(Repaired, s, ops[0]); HazardFree(r.next, Later(r.out, ops)))
  }

  // A run that starts with one call and goes on as another trace.
  function After(out: Outcome, got: seq<byte>, accepted: seq<byte>, t: Trace): Trace {
    Trace([out] + t.outs, [got] + t.got, accepted + t.accepted, t.last)
  }

  lemma AfterIsInjective(out: Outcome, got: seq<byte>, accepted: seq<byte>, t: Trace, u: Trace)
    requires After(out, got, accepted, t) == After(out, got, accepted, u)
    ensures t == u
  {
    var x := After(out, got, accepted, t);
    assert x.outs[1..] == t.outs == u.outs && x.got[1..] == t.got == u.got;
    assert x.accepted[|accepted|..] == t.accepted == u.accepted;
  }

  // So the results about runs of the repaired code are results about the code as
  // written for exactly the runs without hazard.
  lemma {:induction false} RunsAgreeIffHazardFree(s: Stream, ops: seq<Op>)
    requires s.Valid()
    ensures Run(AsWritten, s, ops) == Run(Repaired, s, ops) <==> HazardFree(s, ops)
    decreases |ops|
  {
    if ops != [] {
      CodedAgreesIffNoHazard(s, ops[0]);
      var w, r := Run(AsWritten, s, ops), Run(Repaired, s, ops);
      var x, y := Step(AsWritten, s, ops[0]), Step(Repaired, s, ops[0]);
      if x.out != y.out {
        assert w.outs[0] == x.out && r.outs[0] == y.out;
      } else {
        var rest := Later(y.out, ops);
        RunsAgreeIffHazardFree(y.next, rest);
        var t, u := Run(AsWritten, y.next, rest), Run(Repaired, y.next, rest);
        var a := Accepted(ops[0], y.out);
        assert w == After(y.out, y.got, a, t) && r == After(y.out, y.got, a, u);
        if w == r { AfterIsInjective(y.out, y.got, a, t, u); }
      }
    }
  }

  // ----- who closes the connection -----

  lemma UnderflowClosesOnlyAtEnd(code: Code, s: Stream)
    requires s.Shaped()
    ensures var n := Underflow(code, s).next;
            (s.connected && !n.connected ==> n.link.inbound == []) && (s.link.Smooth() ==> n.link.Smooth())
  {
  }

  lemma XsgetnClosesOnlyAtEnd(s: Stream, dst: seq<byte>)
    requires s.Shaped() && Rest(s, dst) <= INT_MAX
    ensures var n := Xsgetn(s, dst).next; s.connected && !n.connected ==> n.link.inbound == []
  {
    if s.gpos <= s.gend { ReadLoopClosesAtEnd(LoopStart(s, dst)); }
  }

  /** Whatever the system answers, a call of either version that loses the
      connection does so because nothing is left to receive, as long as the rest of
      a block read fits in an int. */
  lemma StepClosesOnlyAtEnd(code: Code, s: Stream, op: Op)
    requires s.Shaped() && Fits(s, op)
    ensures var n := Step(code, s, op).next; s.connected && !n.connected ==> n.link.inbound == []
  {
    match op
    case GetBlock(dst) => XsgetnClosesOnlyAtEnd(s, dst);
    case GetChar => UnderflowClosesOnlyAtEnd(code, s);
    case PeekChar => UnderflowClosesOnlyAtEnd(code, s);
    case _ =>
  }

  lemma {:induction false} RunClosesOnlyAtEnd(code: Code, s: Stream, ops: seq<Op>)
    requires s.Shaped() && FitThroughout(code, s, ops)
    ensures var t := Run(code, s, ops);
            s.connected && !t.last.connected ==> t.last.link.inbound == []
    decreases |ops|
  {
    if ops != [] {
      StepClosesOnlyAtEnd(code, s, ops[0]);
      var r := Step(code, s, ops[0]);
      RunClosesOnlyAtEnd(code, r.next, Later(r.out, ops));
      if !r.next.connected { DisconnectedStaysSilent(code, r.next, Later(r.out, ops)); }
    }
  }

  // A block read whose rest does not fit in an int, is cast to one that is not
  // negative, and for which more bytes are to come than that.
  predicate Abandons(s: Stream, op: Op) {
    && op.GetBlock? && s.connected && s.gpos <= s.gend
    && INT_MAX < Rest(s, op.dst) && 0 <= IntLength(Rest(s, op.dst)) < |s.link.inbound|
  }

  // The connection was closed with bytes still to come.
  predicate LeftBytes(s: Stream) { !s.connected && s.link.inbound != [] }

  lemma LoopLeaves(l: Loop)
    requires l.Valid() && 0 <= l.read && l.link.Smooth()
    ensures var r := ReadLoop(l);
            r.l.link.Smooth() && EndsAs(l, r) && |r.l.link.inbound| == |l.link.inbound| - StillTaken(l)
  {
    ReadLoopEnds(l);
    ReadLoopCount(l);
    BlockingHasNoWraps(l.link.recvs);
    BlockingHasNoWraps(ReadLoop(l).l.link.recvs);
  }

  lemma XsgetnAbandonsIff(s: Stream, dst: seq<byte>)
    requires s.Shaped() && s.link.Smooth() && s.connected
    ensures var n := Xsgetn(s, dst).next; n.link.Smooth() && (LeftBytes(n) <==> Abandons(s, GetBlock(dst)))
  {
    if s.gpos <= s.gend { LoopLeaves(LoopStart(s, dst)); }
  }

  /** Exactly which calls of either version close a live connection with bytes still
      to come, when recv never fails. */
  lemma StepAbandonsIff(code: Code, s: Stream, op: Op)
    requires s.Shaped() && s.link.Smooth() && s.connected
    ensures var n := Step(code, s, op).next; n.link.Smooth() && (LeftBytes(n) <==> Abandons(s, op))
  {
    match op
    case GetBlock(dst) => XsgetnAbandonsIff(s, dst);
    case GetChar => UnderflowClosesOnlyAtEnd(code, s);
    case PeekChar => UnderflowClosesOnlyAtEnd(code, s);
    case _ =>
  }

  predicate AbandonsSometime(code: Code, s: Stream, ops: seq<Op>)
    requires s.Shaped()
    decreases |ops|
  {
    && ops != []
    && (Abandons(s, ops[0]) || var r := Step(code, s, ops[0]); AbandonsSometime(code, r.next, Later(r.out, ops)))
  }

  lemma {:induction false} NothingToAbandon(code: Code, s: Stream, ops: seq<Op>)
    requires s.Shaped() && !s.connected
    ensures !AbandonsSometime(code, s, ops)
    decreases |ops|
  {
    if ops != [] {
      var r := Step(code, s, ops[0]);
      DisconnectedStep(code, s, ops[0]);
      NothingToAbandon(code, r.next, Later(r.out, ops));
    }
  }

  // And which runs.
  lemma {:induction false} RunAbandonsIff(code: Code, s: Stream, ops: seq<Op>)
    requires s.Shaped() && s.link.Smooth() && s.connected
    ensures LeftBytes(Run(code, s, ops).last) <==> AbandonsSometime(code, s, ops)
    decreases |ops|
  {
    if ops != [] {
      var r := Step(code, s, ops[0]);
      StepAbandonsIff(code, s, ops[0]);
      if r.next.connected {
        RunAbandonsIff(code, r.next, Later(r.out, ops));
      } else {
        DisconnectedStaysSilent(code, r.next, Later(r.out, ops));
        NothingToAbandon(code, r.next, Later(r.out, ops));
      }
    }
  }

  // An instance: a rest that is a multiple of 2^32 asks recv for no bytes at all,
  // and the connection is closed with every byte still to come.
  lemma HugeReadClosesLiveConnection(s: Stream, dst: seq<byte>)
    requires s.Valid() && s.link.Smooth() && s.connected && s.link.inbound != []
    requires 0 < Rest(s, dst) && Rest(s, dst) % 0x1_0000_0000 == 0
    ensures Abandons(s, GetBlock(dst))
    ensures var r := Xsgetn(s, dst); r.out == Eof && r.got == s.Avail() && r.next.link.inbound == s.link.inbound
  {
    XsgetnEnds(s, dst);
    XsgetnConserves(s, dst);
    var r := Xsgetn(s, dst);
    AppendNothing(r.next.link.inbound);
    SameSplit(r.got, r.next.link.inbound, s.Avail(), s.link.inbound);
  }

  lemma SameSplit(a: seq<byte>, b: seq<byte>, c: seq<byte>, d: seq<byte>)
    requires a + b == c + d && |a| == |c|
    ensures a == c && b == d
  {
    assert (a + b)[..|a|] == a && (c + d)[..|c|] == c;
    assert (a + b)[|a|..] == b && (c + d)[|c|..] == d;
  }
}

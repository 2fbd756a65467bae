/** The transition functions of `tcp_streambuf`: two 512-byte areas, the get and
    put pointers as offsets into them, and the connection behind the client.
    Repaired code flushes the pending bytes when the put area is full and advances
    the put pointer past the character `overflow` stores; and its `underflow`
    returns eof unless recv filled something. */
module StreamModel {
  import opened Os

  const BUFFER_SIZE: int := 512

  // Byte offsets of `_ibuf` and `_obuf` in the object, in declaration order. The
  // coded pointer comparisons between the two areas are comparisons of these.
  const IBUF: int := 0
  const OBUF: int := BUFFER_SIZE

  // int_type and streamsize results: a count, a character, eof (-1), an
  // exception, or an access outside the two areas (or outside the destination).
  datatype Outcome = Ret(n: int) | Char(c: byte) | Eof | Threw(failure: Failure) | Wild

  // History: a block that left the put area (or went round it), and how many of
  // its bytes the system took.
  datatype Flush = Flush(block: seq<byte>, sent: nat)

  datatype Stream = Stream(
    ibuf: seq<byte>, gpos: int, gend: int,
    obuf: seq<byte>, ppos: int,
    connected: bool, link: Link, log: seq<Flush>)
  {
    // Holds in every state either version reaches.
    predicate Shaped() {
      && |ibuf| == BUFFER_SIZE && |obuf| == BUFFER_SIZE
      && 0 <= gpos <= BUFFER_SIZE && -1 <= gend <= BUFFER_SIZE
      && 0 <= ppos <= BUFFER_SIZE
    }

    predicate Valid() { Shaped() && gpos <= gend }

    function Avail(): seq<byte>
      requires Valid()
    { ibuf[gpos..gend] }

    function Pending(): seq<byte>
      requires Shaped()
    { obuf[..ppos] }

    // What reading can still yield.
    function Reach(): seq<byte>
      requires Valid()
    { Avail() + if connected then link.inbound else [] }
  }

  // ----- put side -----

  datatype Answer = Answer(out: Outcome, next: Stream)

  // Offers a block; unless send throws, the put area is reset (setp).
  function FlushBlock(s: Stream, block: seq<byte>): (r: Answer)
    requires s.Shaped()
    ensures r.next.Shaped() && (s.Valid() ==> r.next.Valid())
  {
    var sent := Send(s.link, block);
    match sent.call
    case Overran => Answer(Wild, s)
    case Thrown(f) => Answer(Threw(f), s.(link := sent.link))
    case Returned(count) =>
      Answer(Ret(count), s.(link := sent.link, ppos := 0, log := s.log + [Flush(block, sent.moved)]))
  }

  function Overflow(code: Code, s: Stream, c: Option<byte>): (r: Answer)
    requires s.Shaped()
    ensures r.next.Shaped() && (s.Valid() ==> r.next.Valid())
  {
    if !s.connected || c.None? then Answer(Eof, s)
    else
      var full := if code.Repaired? then s.ppos == BUFFER_SIZE else OBUF + s.ppos == IBUF;
      var f := if full then FlushBlock(s, s.obuf) else Answer(Ret(0), s);
      if !f.out.Ret? then f
      else if f.next.ppos >= BUFFER_SIZE then Answer(Wild, f.next)
      else
        Answer(Char(c.value),
            f.next.(obuf := f.next.obuf[f.next.ppos := c.value],
                    ppos := if code.Repaired? then f.next.ppos + 1 else f.next.ppos))
  }

  // std::streambuf::sputc
  function Sputc(code: Code, s: Stream, c: byte): (r: Answer)
    requires s.Shaped()
    ensures r.next.Shaped() && (s.Valid() ==> r.next.Valid())
  {
    if s.ppos < BUFFER_SIZE then Answer(Char(c), s.(obuf := s.obuf[s.ppos := c], ppos := s.ppos + 1))
    else Overflow(code, s, Some(c))
  }

  // The coded flush test compares n with eback() - pptr().
  predicate CodedTest(n: int, ppos: int) { n > IBUF - (OBUF + ppos) }

  // The test on the free space of the put area.
  predicate FreeSpaceTest(n: int, ppos: int) { n > BUFFER_SIZE - ppos }

  // A block longer than the put area goes straight to send.
  function SendAround(s: Stream, data: seq<byte>): (r: Answer)
    requires s.Shaped()
    ensures r.next.Shaped() && (s.Valid() ==> r.next.Valid())
  {
    var sent := Send(s.link, data);
    match sent.call
    case Overran => Answer(Wild, s)
    case Thrown(e) => Answer(Threw(e), s.(link := sent.link))
    case Returned(_) => Answer(Ret(|data|), s.(link := sent.link, log := s.log + [Flush(data, sent.moved)]))
  }

  function CopyIn(s: Stream, data: seq<byte>): (r: Answer)
    requires s.Shaped()
    ensures r.next.Shaped() && (s.Valid() ==> r.next.Valid())
  {
    if s.ppos + |data| > BUFFER_SIZE then Answer(Wild, s)
    else
      Answer(Ret(|data|),
          s.(obuf := s.obuf[..s.ppos] + data + s.obuf[s.ppos + |data|..], ppos := s.ppos + |data|))
  }

  // xsputn, with the answer of its flush test as a parameter.
  function Xsputn(s: Stream, data: seq<byte>, flushFirst: bool): (r: Answer)
    requires s.Shaped()
    ensures r.next.Shaped() && (s.Valid() ==> r.next.Valid())
  {
    if !s.connected then Answer(Eof, s)
    else
      var f := if flushFirst then FlushBlock(s, s.Pending()) else Answer(Ret(0), s);
      if !f.out.Ret? then f
      else if |data| > BUFFER_SIZE then SendAround(f.next, data)
      else CopyIn(f.next, data)
  }

  function Sync(s: Stream): (r: Answer)
    requires s.Shaped()
    ensures r.next.Shaped() && (s.Valid() ==> r.next.Valid())
  {
    if !s.connected then Answer(Eof, s)
    else
      var sent := Send(s.link, s.Pending());
      match sent.call
      case Overran => Answer(Wild, s)
      case Thrown(f) => Answer(Threw(f), s.(link := sent.link))
      case Returned(count) =>
        if count == 0 && s.ppos != 0 then Answer(Eof, s.(link := sent.link))
        else Answer(Ret(0), s.(link := sent.link, ppos := 0, log := s.log + [Flush(s.Pending(), sent.moved)]))
  }

  // ----- get side -----

  // _ibuf + received as pointer arithmetic: a wrapped -1 points before the area.
  function EndOffset(received: nat): int {
    if received == SIZE_MAX then -1 else received
  }

  // The state after a receive into the get area, before setg.
  function Arrived(s: Stream, got: Received): (r: Stream)
    requires s.Shaped() && |got.bytes| <= BUFFER_SIZE
    ensures r.Shaped() && (s.Valid() ==> r.Valid())
  {
    s.(ibuf := got.bytes + s.ibuf[|got.bytes|..], link := got.link, connected := got.call != Returned(0))
  }

  // What underflow does after a receive that ended in a way.
  function AfterReceive(code: Code, s: Stream, c: Call): (r: Answer)
    requires s.Shaped() && s.gpos == s.gend
    requires c.Returned? ==> c.count <= BUFFER_SIZE || c.count == SIZE_MAX
    ensures r.next.Shaped() && (code.Repaired? && s.Valid() ==> r.next.Valid())
  {
    match c
    case Overran => Answer(Wild, s)
    case Thrown(f) => Answer(Threw(f), s)
    case Returned(count) =>
      if code.Repaired? && !(0 < count <= BUFFER_SIZE) then Answer(Eof, s)
      else Answer(Char(s.ibuf[0]), s.(gpos := 0, gend := EndOffset(count)))
  }

  // underflow on an exhausted get area of a connected stream.
  function Refill(code: Code, s: Stream): (r: Answer)
    requires s.Shaped() && s.gpos == s.gend
    ensures r.next.Shaped() && (code.Repaired? && s.Valid() ==> r.next.Valid())
  {
    var got := Recv(s.link, BUFFER_SIZE);
    AfterReceive(code, Arrived(s, got), got.call)
  }

  function Underflow(code: Code, s: Stream): (r: Answer)
    requires s.Shaped()
    ensures r.next.Shaped() && (code.Repaired? && s.Valid() ==> r.next.Valid())
  {
    if s.gpos == s.gend then
      if !s.connected then Answer(Eof, s) else Refill(code, s)
    else if s.gpos < BUFFER_SIZE then Answer(Char(s.ibuf[s.gpos]), s)
    else Answer(Wild, s)
  }

  // std::streambuf::sgetc
  function Sgetc(code: Code, s: Stream): (r: Answer)
    requires s.Shaped()
    ensures r.next.Shaped() && (code.Repaired? && s.Valid() ==> r.next.Valid())
  {
    if s.gpos < s.gend then Answer(Char(s.ibuf[s.gpos]), s) else Underflow(code, s)
  }

  // std::streambuf::sbumpc, with the default uflow
  function Sbumpc(code: Code, s: Stream): (r: Answer)
    requires s.Shaped()
    ensures r.next.Shaped() && (code.Repaired? && s.Valid() ==> r.next.Valid())
  {
    if s.gpos < s.gend then Answer(Char(s.ibuf[s.gpos]), s.(gpos := s.gpos + 1))
    else
      var u := Underflow(code, s);
      if u.out.Char? then Answer(u.out, u.next.(gpos := u.next.gpos + 1)) else u
  }

  // The variables of the xsgetn loop.
  datatype Loop = Loop(dst: seq<byte>, read: int, connected: bool, link: Link)
  {
    predicate Valid() { read <= |dst| }

    // Bytes already in place.
    function Filled(): seq<byte>
      requires Valid()
    { if read < 0 then [] else dst[..read] }
  }

  datatype Turn = Done(out: Outcome, l: Loop) | Again(l: Loop)

  // The loop variables after a receive into the rest of the destination.
  function LoopArrived(l: Loop, got: Received): (r: Loop)
    requires l.Valid() && 0 <= l.read && l.read + |got.bytes| <= |l.dst|
    ensures r.Valid() && |r.dst| == |l.dst| && (got.bytes == [] ==> r.dst == l.dst)
  {
    Loop(l.dst[..l.read] + got.bytes + l.dst[l.read + |got.bytes|..], l.read + |got.bytes|,
         got.call != Returned(0), got.link)
  }

  // One turn of the xsgetn loop: `socket::recv` closes on 0, and a wrapped -1
  // makes `read` smaller.
  function LoopTurn(l: Loop): (t: Turn)
    requires l.Valid()
    ensures t.l.Valid() && |t.l.dst| == |l.dst|
    ensures t.l.link.wire == l.link.wire && t.l.link.sends == l.link.sends
    ensures t.Again? ==>
      || |t.l.link.recvs| < |l.link.recvs|
      || (|t.l.link.recvs| == |l.link.recvs| && !t.l.connected && l.connected)
      || (|t.l.link.recvs| == |l.link.recvs| && t.l.connected == l.connected && l.read < t.l.read)
  {
    if |l.dst| <= l.read then Done(Ret(l.read), l)
    else if !l.connected then Done(Eof, l)
    else if l.read < 0 then Done(Wild, l)
    else
      var got := Recv(l.link, |l.dst| - l.read);
      var m := LoopArrived(l, got);
      match got.call
      case Overran => Done(Wild, m)
      case Thrown(f) => Done(Threw(f), m)
      case Returned(count) => Again(if count == SIZE_MAX then m.(read := l.read - 1) else m)
  }

  function ReadLoop(l: Loop): (r: Turn)
    requires l.Valid()
    ensures r.Done? && r.l.Valid() && |r.l.dst| == |l.dst|
    ensures r.l.link.wire == l.link.wire && r.l.link.sends == l.link.sends
    decreases |l.link.recvs|, l.connected, |l.dst| - l.read
  {
    var t := LoopTurn(l);
    if t.Done? then t else ReadLoop(t.l)
  }

  datatype Taken = Taken(out: Outcome, dst: seq<byte>, got: seq<byte>, next: Stream)

  // The loop variables of xsgetn once the get area handed out what it holds.
  function LoopStart(s: Stream, dst: seq<byte>): (l: Loop)
    requires s.Shaped() && s.gpos <= s.gend
    ensures l.Valid() && l.read == Min(|dst|, s.gend - s.gpos) && |l.dst| == |dst|
  {
    var first := Min(|dst|, s.gend - s.gpos);
    Loop(s.ibuf[s.gpos..s.gpos + first] + dst[first..], first, s.connected, s.link)
  }

  // What xsgetn has to receive once the get area handed out what it holds.
  function Rest(s: Stream, dst: seq<byte>): nat { |dst| - Min(|dst|, s.gend - s.gpos) }

  // xsgetn's result, from what it took of the get area and how the loop ended.
  function AfterLoop(s: Stream, first: nat, r: Turn): (g: Taken)
    requires s.Shaped() && s.gpos + first <= s.gend && r.Done? && r.l.Valid()
    ensures g.next.Shaped() && (s.Valid() ==> g.next.Valid()) && g.dst == r.l.dst
  {
    Taken(r.out, r.l.dst, r.l.Filled(),
        s.(gpos := s.gpos + first, connected := r.l.connected, link := r.l.link))
  }

  // xsgetn into a destination of the size asked for; `got` is what was copied.
  function Xsgetn(s: Stream, dst: seq<byte>): (r: Taken)
    requires s.Shaped()
    ensures r.next.Shaped() && (s.Valid() ==> r.next.Valid())
    ensures |r.dst| == |dst|
  {
    if Min(|dst|, s.gend - s.gpos) < 0 then Taken(Wild, dst, [], s)
    else AfterLoop(s, Min(|dst|, s.gend - s.gpos), ReadLoop(LoopStart(s, dst)))
  }

  // ----- runs -----

  datatype Op = PutChar(c: byte) | PutBlock(data: seq<byte>) | Flushing | PeekChar | GetChar | GetBlock(dst: seq<byte>)

  function Step(code: Code, s: Stream, op: Op): (r: Taken)
    requires s.Shaped()
    ensures r.next.Shaped() && (code.Repaired? && s.Valid() ==> r.next.Valid())
  {
    match op
    case PutChar(c) => var r := Sputc(code, s, c); Taken(r.out, [], [], r.next)
    case PutBlock(data) =>
      var r := Xsputn(s, data, CodedTest(|data|, s.ppos)); Taken(r.out, [], [], r.next)
    case Flushing => var r := Sync(s); Taken(r.out, [], [], r.next)
    case PeekChar => var r := Sgetc(code, s); Taken(r.out, [], [], r.next)
    case GetChar =>
      var r := Sbumpc(code, s); Taken(r.out, [], if r.out.Char? then [r.out.c] else [], r.next)
    case GetBlock(dst) => Xsgetn(s, dst)
  }

  // The bytes the caller may consider written after the call.
  function Accepted(op: Op, out: Outcome): seq<byte> {
    if op.PutChar? && out == Char(op.c) then [op.c]
    else if op.PutBlock? && out == Ret(|op.data|) then op.data
    else []
  }

  /** outs and got: what each call returned and delivered; accepted: all bytes
      taken over from the callers, in order. A run ends at an access outside the
      arrays, in the state before it. */
  datatype Trace = Trace(outs: seq<Outcome>, got: seq<seq<byte>>, accepted: seq<byte>, last: Stream)

  // What is left to do after the first call.
  function Later(out: Outcome, ops: seq<Op>): (rest: seq<Op>)
    requires ops != []
    ensures |rest| < |ops|
  { if out == Wild then [] else ops[1..] }

  function Run(code: Code, s: Stream, ops: seq<Op>): (t: Trace)
    requires s.Shaped()
    ensures t.last.Shaped() && (code.Repaired? && s.Valid() ==> t.last.Valid())
    ensures |t.got| == |t.outs| <= |ops|
    ensures |t.outs| < |ops| ==> t.outs != [] && t.outs[|t.outs| - 1] == Wild
    decreases |ops|
  {
    if ops == [] then Trace([], [], [], s)
    else
      var r := Step(code, s, ops[0]);
      var t := Run(code, r.next, Later(r.out, ops));
      Trace([r.out] + t.outs, [r.got] + t.got, Accepted(ops[0], r.out) + t.accepted, t.last)
  }

  function Flat(xs: seq<seq<byte>>): seq<byte> {
    if xs == [] then [] else xs[0] + Flat(xs[1..])
  }

  // The blocks of a log, and the parts of them that were sent.
  function Blocks(log: seq<Flush>): seq<byte> {
    if log == [] then [] else Blocks(log[..|log| - 1]) + log[|log| - 1].block
  }

  predicate WellLogged(log: seq<Flush>) { forall i | 0 <= i < |log| :: log[i].sent <= |log[i].block| }

  function Sents(log: seq<Flush>): seq<byte>
    requires WellLogged(log)
  {
    if log == [] then [] else Sents(log[..|log| - 1]) + log[|log| - 1].block[..log[|log| - 1].sent]
  }

  // Regrouping, stated once so that proofs about states need not look inside sequences.
  lemma Regroup(a: seq<byte>, b: seq<byte>, c: seq<byte>)
    ensures (a + b) + c == a + (b + c)
  {
  }

  lemma AppendNothing(a: seq<byte>)
    ensures a + [] == a && [] + a == a
  {
  }
}

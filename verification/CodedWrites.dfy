/** What puts and syncs do with each answer of send, in the code as written: when it
    flushes, what a short or failed send drops, and what a call that throws keeps. */
module CodedWrites {
  import opened Os
  import opened StreamModel
  import opened WriterProofs

  // ----- answers -----

  // How many bytes of a block an answer takes.
  function TakenOf(a: SendAnswer, size: nat): nat {
    match a
    case TakesAll => size
    case Takes(count) => Min(count, size)
    case SendFails(_) => 0
  }

  predicate Throws(a: SendAnswer) { a.SendFails? && FailedCall(a.errno).Thrown? }

  // The answer of the second send of a call.
  function SecondSend(link: Link): SendAnswer { if |link.sends| <= 1 then TakesAll else link.sends[1] }

  // The connection once a send used up its answer and took some bytes.
  function Took(link: Link, bytes: seq<byte>): Link {
    link.(sends := if link.sends == [] then [] else link.sends[1..], wire := link.wire + bytes)
  }

  lemma SendByAnswer(link: Link, data: seq<byte>)
    requires |data| <= INT_MAX
    ensures var a, r := link.NextSend(), Send(link, data);
            && r.moved == TakenOf(a, |data|) && r.link == Took(link, data[..r.moved])
            && (Throws(a) ==> r.call == Thrown(FailedCall(a.errno).failure))
            && (a.SendFails? && !Throws(a) ==> r.call == Returned(SIZE_MAX))
            && (!a.SendFails? ==> r.call == Returned(r.moved))
  {
    AppendNothing(link.wire);
  }

  // ----- blocks -----

  // The flush of the pending bytes that comes first in a put.
  function Offer(s: Stream): Flush
    requires s.Shaped()
  { Flush(s.Pending(), TakenOf(s.link.NextSend(), s.ppos)) }

  /** xsputn flushes before every block, whatever room there is: once a block is put,
      what was pending has been offered to send and is pending no more, and what send
      did not take of it is gone. The block is pending itself, or, longer than the put
      area, was offered right after. */
  lemma PutOffersPending(code: Code, s: Stream, data: seq<byte>)
    requires s.Shaped() && s.connected && Step(code, s, PutBlock(data)).out == Ret(|data|)
    ensures var n, first := Step(code, s, PutBlock(data)).next, Offer(s);
            if |data| <= BUFFER_SIZE then
              n.Pending() == data && n.log == s.log + [first] && n.link == Took(s.link, s.Pending()[..first.sent])
            else
              && n.Pending() == [] && n.log[..|n.log| - 1] == s.log + [first] && n.log[|n.log| - 1].block == data
              && (|data| <= INT_MAX ==> n.log[|n.log| - 1].sent == TakenOf(SecondSend(s.link), |data|))
  {
    SendByAnswer(s.link, s.Pending());
  }

  // The entry that comes next in the log.
  lemma PutLogsPending(code: Code, s: Stream, data: seq<byte>)
    requires s.Shaped() && s.connected && Step(code, s, PutBlock(data)).out == Ret(|data|)
    ensures var n := Step(code, s, PutBlock(data)).next;
            && n.Pending() == (if |data| <= BUFFER_SIZE then data else [])
            && |s.log| < |n.log| && n.log[..|s.log|] == s.log && n.log[|s.log|].block == s.Pending()
  {
    var n, start := Step(code, s, PutBlock(data)).next, s.log + [Offer(s)];
    PutOffersPending(code, s, data);
    if |data| > BUFFER_SIZE { assert n.log == start + [n.log[|n.log| - 1]]; }
  }

  /** When a put succeeds, whatever the system answers: exactly when neither of its
      sends throws. A short send is no failure. */
  lemma PutSucceedsIff(code: Code, s: Stream, data: seq<byte>)
    requires s.Shaped() && s.connected && |data| <= INT_MAX
    ensures Step(code, s, PutBlock(data)).out == Ret(|data|)
            <==> !Throws(s.link.NextSend()) && (|data| > BUFFER_SIZE ==> !Throws(SecondSend(s.link)))
  {
    SendByAnswer(s.link, s.Pending());
    SendByAnswer(FlushBlock(s, s.Pending()).next.link, data);
  }

  // A flush that throws keeps every byte; a long block that throws has been flushed
  // before, and none of it was sent.
  lemma PutThatThrows(code: Code, s: Stream, data: seq<byte>)
    requires s.Shaped() && s.connected && Step(code, s, PutBlock(data)).out.Threw?
    ensures var n := Step(code, s, PutBlock(data)).next;
            if Throws(s.link.NextSend()) then n == s.(link := Took(s.link, []))
            else
              && |data| > BUFFER_SIZE && n.Pending() == [] && n.log == s.log + [Offer(s)]
              && n.link.wire == s.link.wire + s.Pending()[..Offer(s).sent]
  {
    SendByAnswer(s.link, s.Pending());
    AppendNothing(s.link.wire);
    AppendNothing(FlushBlock(s, s.Pending()).next.link.wire);
  }

  // ----- a series of blocks -----

  function Puts(blocks: seq<seq<byte>>): seq<Op> { seq(|blocks|, i requires 0 <= i < |blocks| => PutBlock(blocks[i])) }

  function Offered(log: seq<Flush>): seq<seq<byte>> { seq(|log|, i requires 0 <= i < |log| => log[i].block) }

  // Each block one call late, a long one at once.
  function OneLate(pending: seq<byte>, blocks: seq<seq<byte>>): seq<seq<byte>>
    decreases |blocks|
  {
    if blocks == [] then []
    else if |blocks[0]| <= BUFFER_SIZE then [pending] + OneLate(blocks[0], blocks[1..])
    else [pending, blocks[0]] + OneLate([], blocks[1..])
  }

  function LastShort(pending: seq<byte>, blocks: seq<seq<byte>>): seq<byte>
    decreases |blocks|
  {
    if blocks == [] then pending
    else LastShort(if |blocks[0]| <= BUFFER_SIZE then blocks[0] else [], blocks[1..])
  }

  lemma OfferedAfterPut(code: Code, s: Stream, data: seq<byte>)
    requires s.Shaped() && s.connected && Step(code, s, PutBlock(data)).out == Ret(|data|)
    ensures var n := Step(code, s, PutBlock(data)).next;
            && n.connected && n.Pending() == (if |data| <= BUFFER_SIZE then data else [])
            && Offered(n.log) == Offered(s.log) + [s.Pending()] + if |data| <= BUFFER_SIZE then [] else [data]
  {
    var n := Step(code, s, PutBlock(data)).next;
    PutOffersPending(code, s, data);
    if |data| > BUFFER_SIZE {
      assert n.log == n.log[..|n.log| - 1] + [n.log[|n.log| - 1]];
    }
  }

  lemma OneLateFirst(before: seq<seq<byte>>, pending: seq<byte>, blocks: seq<seq<byte>>)
    requires blocks != []
    ensures var data := blocks[0];
            before + OneLate(pending, blocks)
            == (before + [pending] + if |data| <= BUFFER_SIZE then [] else [data])
               + OneLate(if |data| <= BUFFER_SIZE then data else [], blocks[1..])
  {
  }

  predicate AllPut(outs: seq<Outcome>, blocks: seq<seq<byte>>) {
    |outs| == |blocks| && forall i | 0 <= i < |blocks| :: outs[i] == Ret(|blocks[i]|)
  }

  lemma AllPutRest(outs: seq<Outcome>, rest: seq<Outcome>, blocks: seq<seq<byte>>)
    requires AllPut(outs, blocks) && blocks != []
    ensures outs[0] == Ret(|blocks[0]|) && (outs == [outs[0]] + rest ==> AllPut(rest, blocks[1..]))
  {
    if outs == [outs[0]] + rest { assert forall i | 0 <= i < |rest| :: rest[i] == outs[i + 1]; }
  }

  lemma RunOfPuts(code: Code, s: Stream, blocks: seq<seq<byte>>)
    requires s.Shaped() && blocks != []
    ensures var t, r := Run(code, s, Puts(blocks)), Step(code, s, PutBlock(blocks[0]));
            && t.outs[0] == r.out
            && (r.out != Wild ==>
                  var u := Run(code, r.next, Puts(blocks[1..]));
                  t.outs == [r.out] + u.outs && t.last == u.last)
  {
    assert Puts(blocks)[1..] == Puts(blocks[1..]);
  }

  /** So no two blocks ever leave in one send: over any series of puts that succeed,
      send is offered each block by itself, one call late, or at once if it is longer
      than the put area. */
  lemma {:induction false} EachBlockLeavesAlone(code: Code, s: Stream, blocks: seq<seq<byte>>)
    requires s.Shaped() && s.connected && AllPut(Run(code, s, Puts(blocks)).outs, blocks)
    ensures var last := Run(code, s, Puts(blocks)).last;
            && Offered(last.log) == Offered(s.log) + OneLate(s.Pending(), blocks)
            && last.Pending() == LastShort(s.Pending(), blocks)
    decreases |blocks|
  {
    if blocks == [] {
      assert Offered(s.log) + [] == Offered(s.log);
    } else {
      var data, r := blocks[0], Step(code, s, PutBlock(blocks[0]));
      var t, u := Run(code, s, Puts(blocks)), Run(code, r.next, Puts(blocks[1..]));
      RunOfPuts(code, s, blocks);
      AllPutRest(t.outs, u.outs, blocks);
      OfferedAfterPut(code, s, data);
      EachBlockLeavesAlone(code, r.next, blocks[1..]);
      OneLateFirst(Offered(s.log), s.Pending(), blocks);
    }
  }

  // ----- sync -----

  /** What sync does with every answer: an exception keeps all bytes, a send of nothing
      is eof and keeps them too; anything else is 0 and empties the put area, whether
      send took all of it, some, or, after a safe error, nothing. */
  lemma SyncByAnswer(s: Stream)
    requires s.Shaped() && s.connected
    ensures var a, r, p := s.link.NextSend(), Sync(s), s.Pending();
            if Throws(a) then
              r.out == Threw(FailedCall(a.errno).failure) && r.next == s.(link := Took(s.link, []))
            else if TakenOf(a, |p|) == 0 && p != [] && !a.SendFails? then
              r.out == Eof && r.next == s.(link := Took(s.link, []))
            else
              && r.out == Ret(0) && r.next.Pending() == [] && r.next.link == Took(s.link, p[..TakenOf(a, |p|)])
              && r.next.log == s.log + [Offer(s)]
  {
    SendByAnswer(s.link, s.Pending());
    AppendNothing(s.link.wire);
  }

  // Exactly when a sync that returned 0 lost bytes: send took less than was pending.
  lemma SyncLosesIff(s: Stream)
    requires s.Shaped() && s.connected && Sync(s).out == Ret(0)
    ensures var n, p := Sync(s).next, s.Pending();
            n.link.wire + n.Pending() == s.link.wire + p <==> TakenOf(s.link.NextSend(), |p|) == |p|
  {
    SyncByAnswer(s);
    AppendNothing(Sync(s).next.link.wire);
  }

  // ----- characters -----

  // A character is kept as long as there is room, connected or not.
  lemma CharIntoRoom(code: Code, s: Stream, c: byte)
    requires s.Shaped() && s.ppos < BUFFER_SIZE
    ensures var r := Step(code, s, PutChar(c));
            && r.out == Char(c) && r.next.Pending() == s.Pending() + [c]
            && r.next == s.(obuf := r.next.obuf, ppos := s.ppos + 1)
  {
  }

  lemma CharIntoFull(s: Stream, c: byte)
    requires s.Shaped() && s.ppos == BUFFER_SIZE
    ensures var r := Step(AsWritten, s, PutChar(c)); r.next == s && r.out == if s.connected then Wild else Eof
  {
  }

  /** overflow called with room, as a derived class could: the code as written answers
      with the character but does not keep it, so the next one takes its place. */
  lemma OverflowForgetsCharacter(s: Stream, c: byte, d: byte)
    requires s.Shaped() && s.connected && s.ppos < BUFFER_SIZE
    ensures var r := Overflow(AsWritten, s, Some(c));
            && r.out == Char(c) && r.next.Pending() == s.Pending() && r.next.link == s.link
            && r.next.obuf[s.ppos] == c
            && Overflow(AsWritten, r.next, Some(d)).next == Overflow(AsWritten, s, Some(d)).next
    ensures Overflow(AsWritten, s, None) == Answer(Eof, s)
  {
    var r := Overflow(AsWritten, s, Some(c));
    assert r.next.obuf[s.ppos := d] == s.obuf[s.ppos := d];
  }
}

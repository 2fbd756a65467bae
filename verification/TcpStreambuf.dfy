/** The `tcp_streambuf` class over its two arrays and the client's socket. Each
    method does what the transition function of its name says, byte for byte and
    answer for answer; the results about runs then apply to it. */
module TcpStream {
  import opened Os
  import opened SocketPool
  import opened Sockets
  import opened StreamModel
  import WriterProofs
  import ReaderProofs
  import CodedWrites
  import opened Failures

  // What XsPutN promises besides its transition.
  lemma PutPromises(s: Stream, data: seq<byte>)
    requires s.Shaped()
    ensures var r := Xsputn(s, data, CodedTest(|data|, s.ppos));
            && Reported(s.link.sends, r.next.link.sends, r.out, SendFailure)
            && (s.connected && s.link.FullSends() && |data| <= INT_MAX ==>
                  r.out == Ret(|data|) && r.next.link.wire + r.next.Pending() == s.link.wire + s.Pending() + data)
            && (s.connected && r.out == Ret(|data|) ==>
                  && r.next.Pending() == (if |data| <= BUFFER_SIZE then data else [])
                  && |s.log| < |r.next.log| && r.next.log[..|s.log|] == s.log
                  && r.next.log[|s.log|].block == s.Pending())
  {
    var r := Xsputn(s, data, CodedTest(|data|, s.ppos));
    XsputnReports(s, data, CodedTest(|data|, s.ppos));
    if s.connected && s.link.FullSends() && |data| <= INT_MAX {
      WriterProofs.PutBlockConserves(s, data, CodedTest(|data|, s.ppos));
    }
    if s.connected && r.out == Ret(|data|) { CodedWrites.PutLogsPending(AsWritten, s, data); }
  }

  // What XsGetN promises besides its transition.
  lemma ReadPromises(s: Stream, dst: seq<byte>)
    requires s.Shaped()
    ensures var r := Xsgetn(s, dst);
            && Reported(s.link.recvs, r.next.link.recvs, r.out, RecvFailure)
            && (s.connected ==> (r.out == Eof <==> !r.next.connected))
            && (s.Valid() && s.link.Smooth() ==>
                  && (r.out == Ret(|dst|) <==> |dst| <= |s.Reach()| && Rest(s, dst) <= INT_MAX)
                  && (r.out == Ret(|dst|) ==> r.dst == s.Reach()[..|dst|]))
  {
    XsgetnReports(s, dst);
    if s.connected { BlockReadEndsIffClosed(s, dst); }
    if s.Valid() && s.link.Smooth() { ReaderProofs.XsgetnOutcome(s, dst); }
  }

  class TcpStreambuf {
    const code: Code
    const ibuf: array<byte>
    const obuf: array<byte>
    var gpos: int
    var gend: int
    var ppos: int
    // tcp_client hands connected, send and recv on to its socket.
    const client: Socket
    ghost var log: seq<Flush>

    ghost predicate Valid()
      reads this
    {
      && ibuf != obuf && ibuf.Length == BUFFER_SIZE && obuf.Length == BUFFER_SIZE
      && 0 <= gpos <= BUFFER_SIZE && -1 <= gend <= BUFFER_SIZE && 0 <= ppos <= BUFFER_SIZE
    }

    ghost function View(): (s: Stream)
      requires Valid()
      reads this, ibuf, obuf, client
      ensures s.Shaped()
    {
      Stream(ibuf[..], gpos, gend, obuf[..], ppos, client.connected, client.link, log)
    }

    constructor (code: Code, client: Socket)
      ensures Valid() && fresh(ibuf) && fresh(obuf) && this.code == code && this.client == client
      ensures View().Valid() && View().Avail() == [] && View().Pending() == [] && log == []
      ensures client.View() == old(client.View()) && client.link == old(client.link)
    {
      this.code, this.client := code, client;
      ibuf := new byte[BUFFER_SIZE](_ => 0);
      obuf := new byte[BUFFER_SIZE](_ => 0);
      gpos, gend, ppos := 0, 0, 0;
      log := [];
    }

    // Sends a block; unless send throws, setp resets the put area.
    method FlushPut(block: seq<byte>) returns (r: Outcome)
      requires Valid() && client.connected
      modifies this`ppos, this`log, client`link
      ensures Valid()
      ensures Answer(r, View()) == FlushBlock(old(View()), block)
    {
      ghost var sent := Os.Send(client.link, block);
      var c := client.Send(block);
      match c
      case Overran => r := Wild;
      case Thrown(f) => r := Threw(f);
      case Returned(count) =>
        ppos := 0;
        log := log + [Flush(block, sent.moved)];
        r := Ret(count);
    }

    method Overflow(c: Option<byte>) returns (r: Outcome)
      requires Valid()
      modifies this`ppos, this`log, obuf, client`link
      ensures Valid()
      ensures Answer(r, View()) == StreamModel.Overflow(code, old(View()), c)
      ensures Reported(old(client.link.sends), client.link.sends, r, SendFailure)
    {
      OverflowReports(code, View(), c);
      if !client.connected || c == None {
        return Eof;
      }
      var full := if code.Repaired? then ppos == BUFFER_SIZE else OBUF + ppos == IBUF;
      if full {
        var f := FlushPut(obuf[..]);
        if !f.Ret? { return f; }
      }
      if BUFFER_SIZE <= ppos {
        return Wild;
      }
      obuf[ppos] := c.value;
      if code.Repaired? {
        ppos := ppos + 1;
      }
      return Char(c.value);
    }

    /** Whatever was pending is offered to send first. An exception of send reaches the
        caller; with whole sends, wire and pending bytes together grow by the block. */
    method XsPutN(data: seq<byte>) returns (r: Outcome)
      requires Valid()
      modifies this`ppos, this`log, obuf, client`link
      ensures Valid()
      ensures Answer(r, View()) == Xsputn(old(View()), data, CodedTest(|data|, old(ppos)))
      ensures client.connected && old(client.link).FullSends() && |data| <= INT_MAX ==>
        r == Ret(|data|)
        && client.link.wire + View().Pending() == old(client.link.wire) + old(View().Pending()) + data
      ensures Reported(old(client.link.sends), client.link.sends, r, SendFailure)
      ensures client.connected && r == Ret(|data|) ==>
        && View().Pending() == (if |data| <= BUFFER_SIZE then data else [])
        && |old(log)| < |log| && log[..|old(log)|] == old(log) && log[|old(log)|].block == old(View().Pending())
    {
      PutPromises(View(), data);
      if !client.connected {
        return Eof;
      }
      if |data| > IBUF - (OBUF + ppos) {
        var f := FlushPut(obuf[..ppos]);
        if !f.Ret? { return f; }
      }
      if |data| > BUFFER_SIZE {
        r := SendLong(data);
      } else {
        r := CopyShort(data);
      }
    }

    // A block longer than the put area.
    method SendLong(data: seq<byte>) returns (r: Outcome)
      requires Valid() && client.connected
      modifies this`log, client`link
      ensures Valid()
      ensures Answer(r, View()) == SendAround(old(View()), data)
    {
      ghost var sent := Os.Send(client.link, data);
      var c := client.Send(data);
      match c
      case Overran => r := Wild;
      case Thrown(e) => r := Threw(e);
      case Returned(_) =>
        log := log + [Flush(data, sent.moved)];
        r := Ret(|data|);
    }

    // A block that fits in what is left of the put area.
    method CopyShort(data: seq<byte>) returns (r: Outcome)
      requires Valid()
      modifies this`ppos, obuf
      ensures Valid()
      ensures Answer(r, View()) == CopyIn(old(View()), data)
    {
      if ppos + |data| > BUFFER_SIZE {
        return Wild;
      }
      forall i | 0 <= i < |data| {
        obuf[ppos + i] := data[i];
      }
      ppos := ppos + |data|;
      assert obuf[..] == old(obuf[..ppos]) + data + old(obuf[ppos + |data|..]);
      return Ret(|data|);
    }

    method Sync() returns (r: Outcome)
      requires Valid()
      modifies this`ppos, this`log, client`link
      ensures Valid()
      ensures Answer(r, View()) == StreamModel.Sync(old(View()))
      ensures Reported(old(client.link.sends), client.link.sends, r, SendFailure)
    {
      SyncReports(View());
      if !client.connected {
        return Eof;
      }
      ghost var sent := Os.Send(client.link, obuf[..ppos]);
      var c := client.Send(obuf[..ppos]);
      match c
      case Overran => r := Wild;
      case Thrown(f) => r := Threw(f);
      case Returned(count) =>
        if count == 0 && ppos != 0 {
          return Eof;
        }
        log := log + [Flush(obuf[..ppos], sent.moved)];
        ppos := 0;
        r := Ret(0);
    }

    method Receive() returns (c: Call)
      requires Valid() && client.connected
      modifies ibuf, client, client.kernel
      ensures client.OnlyCloses()
      ensures var got := Os.Recv(old(client.link), BUFFER_SIZE);
              c == got.call && View() == Arrived(old(View()), got)
    {
      c := client.Recv(ibuf, 0, BUFFER_SIZE);
    }

    method SetGet(c: Call) returns (r: Outcome)
      requires Valid() && gpos == gend && (c.Returned? ==> c.count <= BUFFER_SIZE || c.count == SIZE_MAX)
      modifies this`gpos, this`gend
      ensures Valid()
      ensures Answer(r, View()) == AfterReceive(code, old(View()), c)
    {
      match c
      case Overran => return Wild;
      case Thrown(f) => return Threw(f);
      case Returned(count) =>
        if code.Repaired? && !(0 < count <= BUFFER_SIZE) {
          return Eof;
        }
        gpos, gend := 0, EndOffset(count);
        return Char(ibuf[gpos]);
    }

    method Refill() returns (r: Outcome)
      requires Valid() && gpos == gend && client.connected
      modifies this`gpos, this`gend, ibuf, client, client.kernel
      ensures Valid() && client.OnlyCloses()
      ensures Answer(r, View()) == StreamModel.Refill(code, old(View()))
    {
      var c := Receive();
      r := SetGet(c);
    }

    method Underflow() returns (r: Outcome)
      requires Valid()
      modifies this`gpos, this`gend, ibuf, client, client.kernel
      ensures Valid() && client.OnlyCloses()
      ensures Answer(r, View()) == StreamModel.Underflow(code, old(View()))
      ensures Reported(old(client.link.recvs), client.link.recvs, r, RecvFailure)
    {
      UnderflowReports(code, View());
      if gpos == gend {
        if !client.connected {
          return Eof;
        }
        r := Refill();
        return;
      }
      if BUFFER_SIZE <= gpos {
        return Wild;
      }
      return Char(ibuf[gpos]);
    }

    // The variables of the read loop, as they stand.
    ghost function LoopNow(dst: array<byte>, read: int): Loop
      reads dst, client
    { Loop(dst[..], read, client.connected, client.link) }

    method ReceiveInto(dst: array<byte>, read: nat) returns (c: Call)
      requires read <= dst.Length && client.connected
      modifies dst, client, client.kernel
      ensures client.OnlyCloses()
      ensures var got := Os.Recv(old(client.link), dst.Length - read);
              c == got.call && LoopNow(dst, read + |got.bytes|) == LoopArrived(old(LoopNow(dst, read)), got)
    {
      c := client.Recv(dst, read, dst.Length - read);
    }

    // One turn of the read loop: None while the loop goes on.
    method ReceiveMore(dst: array<byte>, read: int) returns (done: Option<Outcome>, next: int)
      requires read < dst.Length
      modifies dst, client, client.kernel
      ensures client.OnlyCloses() && next <= dst.Length
      ensures LoopTurn(old(LoopNow(dst, read))) ==
              if done.Some? then Done(done.value, LoopNow(dst, next)) else Again(LoopNow(dst, next))
      ensures old(client.connected) && 0 <= read ==>
        Passes(Os.Recv(old(client.link), dst.Length - read).call, if done.Some? then done.value else Ret(0))
    {
      if client.connected && 0 <= read { TurnPasses(LoopNow(dst, read)); }
      if !client.connected {
        return Some(Eof), read;
      }
      if read < 0 {
        return Some(Wild), read;
      }
      var c := ReceiveInto(dst, read);
      match c
      case Overran => return Some(Wild), read;
      case Thrown(f) => return Some(Threw(f)), read;
      case Returned(count) => return None, if count == SIZE_MAX then read - 1 else read + count;
    }

    // The read loop.
    method ReceiveRest(dst: array<byte>, have: int) returns (r: Outcome, ghost read: int)
      requires have <= dst.Length
      modifies dst, client, client.kernel
      ensures client.OnlyCloses() && read <= dst.Length
      ensures ReadLoop(old(LoopNow(dst, have))) == Done(r, LoopNow(dst, read))
      ensures Reported(old(client.link.recvs), client.link.recvs, r, RecvFailure)
    {
      LoopReports(LoopNow(dst, have));
      var at := have;
      ghost var end := ReadLoop(LoopNow(dst, have));
      while at < dst.Length
        invariant at <= dst.Length && client.OnlyCloses()
        invariant ReadLoop(LoopNow(dst, at)) == end
        decreases |client.link.recvs|, client.connected, dst.Length - at
      {
        var done, next := ReceiveMore(dst, at);
        at := next;
        if done.Some? {
          return done.value, at;
        }
      }
      return Ret(at), at;
    }

    // Hands out what the get area holds, up to the size asked for.
    method TakeAvail(dst: array<byte>) returns (read: int)
      requires Valid() && dst != ibuf && dst != obuf && gpos <= gend
      modifies this`gpos, dst
      ensures Valid() && read == Min(dst.Length, old(gend - gpos))
      ensures LoopNow(dst, read) == LoopStart(old(View()), old(dst[..])) && View() == old(View()).(gpos := gpos)
      ensures gpos == old(gpos) + read
    {
      read := Min(dst.Length, gend - gpos);
      forall i | 0 <= i < read {
        dst[i] := ibuf[gpos + i];
      }
      assert dst[..] == ibuf[gpos..gpos + read] + old(dst[..])[read..];
      gpos := gpos + read;
    }

    // The get area first, then the system.
    method TakeAndReceive(dst: array<byte>) returns (r: Outcome)
      requires Valid() && dst != ibuf && dst != obuf && gpos <= gend
      modifies this`gpos, dst, client, client.kernel
      ensures Valid() && client.OnlyCloses()
      ensures var s := old(View());
              var g := AfterLoop(s, Min(dst.Length, s.gend - s.gpos), ReadLoop(LoopStart(s, old(dst[..]))));
              r == g.out && dst[..] == g.dst && View() == g.next
    {
      var have := TakeAvail(dst);
      ghost var l := LoopNow(dst, have);
      ghost var read;
      r, read := ReceiveRest(dst, have);
      assert ReadLoop(l) == Done(r, LoopNow(dst, read));
    }

    /** Reads dst.Length bytes. An exception of recv reaches the caller, and eof means
        that the connection is closed. On one whose recv never fails it returns the
        length, with the next bytes, if and only if that many are reachable and what
        the get area does not hold fits in an int. */
    method XsGetN(dst: array<byte>) returns (r: Outcome)
      requires Valid() && dst != ibuf && dst != obuf
      modifies this`gpos, dst, client, client.kernel
      ensures Valid() && client.OnlyCloses()
      ensures var g := Xsgetn(old(View()), old(dst[..]));
              r == g.out && dst[..] == g.dst && View() == g.next
      ensures Reported(old(client.link.recvs), client.link.recvs, r, RecvFailure)
      ensures old(client.connected) ==> (r == Eof <==> !client.connected)
      ensures old(View().Valid() && client.link.Smooth()) ==>
        (r == Ret(dst.Length) <==> dst.Length <= |old(View().Reach())| && Rest(old(View()), old(dst[..])) <= INT_MAX)
        && (r == Ret(dst.Length) ==> dst[..] == old(View().Reach())[..dst.Length])
    {
      ReadPromises(View(), dst[..]);
      if Min(dst.Length, gend - gpos) < 0 {
        return Wild;
      }
      r := TakeAndReceive(dst);
    }
  }
}

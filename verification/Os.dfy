/** What the operating system may answer to the library: error numbers, the
    wrapper that turns them into exceptions or wrapped counts, and one end of a
    connected byte channel whose chunking is decided by a script of answers.

    A script is an arbitrary finite sequence. Once it is used up the system
    behaves smoothly: it takes everything offered and gives everything it can.
    Any run that ends asks a finite number of questions, so no run is excluded. */
module Os {
  type byte = bv8

  /** Which version of a function runs where the repository's own departs from what
      it is for: the one it has, or a repaired one. */
  datatype Code = AsWritten | Repaired

  datatype Option<+T> = None | Some(value: T)

  // size_t(-1)
  const SIZE_MAX: nat := 0xFFFF_FFFF_FFFF_FFFF

  function Min(a: int, b: int): int { if a <= b then a else b }

  function Max(a: int, b: int): int { if a <= b then b else a }

  datatype Errno =
    | EWouldBlock | EInProgress | EAlready | ENoBufs | ENotConn | EIsConn | EShutdown
    | EConnReset | EConnAborted
    | Other(code: int)

  datatype Failure = SocketError | SocketClosedError

  // How a wrapped system call ends: a size_t count, an exception, or undefined
  // because the length became negative in its cast to int.
  datatype Call = Returned(count: nat) | Thrown(failure: Failure) | Overran

  predicate IsSafe(e: Errno) { !e.Other? }

  // A failed call throws unless the error is safe; a safe error other than a
  // reset comes back to the caller as -1 converted to size_t.
  function FailedCall(e: Errno): (r: Call)
    ensures r == Thrown(SocketError) <==> e.Other?
    ensures r == Thrown(SocketClosedError) <==> e == EConnReset || e == EConnAborted
    ensures r == Returned(SIZE_MAX) <==> !e.Other? && e != EConnReset && e != EConnAborted
  {
    if !IsSafe(e) then Thrown(SocketError)
    else if e == EConnReset || e == EConnAborted then Thrown(SocketClosedError)
    else Returned(SIZE_MAX)
  }

  datatype SendAnswer = TakesAll | Takes(count: nat) | SendFails(errno: Errno)

  datatype RecvAnswer = Gives(count: nat) | RecvFails(errno: Errno)

  /** One end of a connection: the bytes the peer sends before it closes and that
      were not received yet, the bytes put on the wire so far, and the answers to
      the next calls. */
  datatype Link = Link(inbound: seq<byte>, wire: seq<byte>,
                       recvs: seq<RecvAnswer>, sends: seq<SendAnswer>)
  {
    function NextRecv(): RecvAnswer { if recvs == [] then Gives(|inbound|) else recvs[0] }

    function NextSend(): SendAnswer { if sends == [] then TakesAll else sends[0] }

    // Every block offered is taken whole.
    predicate FullSends() { forall i | 0 <= i < |sends| :: sends[i].TakesAll? }

    // A blocking socket without timeout: recv never comes back with a wrapped -1.
    predicate Blocking() { forall i | 0 <= i < |recvs| :: recvs[i].RecvFails? ==> FailedCall(recvs[i].errno).Thrown? }

    // recv never fails; it only chooses how many bytes to hand over.
    predicate Smooth() { forall i | 0 <= i < |recvs| :: recvs[i].Gives? }
  }

  // The `(int)` casts of the system call wrappers.
  const INT_MAX: int := 0x7FFF_FFFF

  function IntLength(len: nat): (n: int)
    ensures n <= len && n <= INT_MAX
    ensures len <= INT_MAX ==> n == len
  {
    var m := len % 0x1_0000_0000;
    if m <= INT_MAX then m else m - 0x1_0000_0000
  }

  // The cast keeps the low 32 bits, read as a signed number.
  lemma IntLengthIsCast(len: nat)
    ensures -0x8000_0000 <= IntLength(len) <= INT_MAX && (len - IntLength(len)) % 0x1_0000_0000 == 0
  {
  }

  // Taking away no more than the cast length lowers it by as much.
  lemma IntLengthShrinks(len: nat, k: nat)
    requires k <= IntLength(len)
    ensures IntLength(len - k) == IntLength(len) - k
  {
  }

  datatype Sent = Sent(call: Call, moved: nat, link: Link)

  datatype Received = Received(call: Call, bytes: seq<byte>, link: Link)

  // The connection with one answer used up.
  function AnswerSent(link: Link): (r: Link)
    ensures r == link.(sends := r.sends) && |r.sends| <= |link.sends|
    ensures link.FullSends() ==> r.FullSends()
  { link.(sends := if link.sends == [] then [] else link.sends[1..]) }

  function AnswerReceived(link: Link): (r: Link)
    ensures r == link.(recvs := r.recvs) && |r.recvs| <= |link.recvs|
    ensures (link.Blocking() ==> r.Blocking()) && (link.Smooth() ==> r.Smooth())
  { link.(recvs := if link.recvs == [] then [] else link.recvs[1..]) }

  function Send(link: Link, data: seq<byte>): (r: Sent)
    ensures r.moved <= |data| && r.link.wire == link.wire + data[..r.moved]
    ensures r.link.inbound == link.inbound && r.link.recvs == link.recvs
    ensures !r.call.Returned? ==> r.moved == 0
    ensures r.call.Returned? ==> r.call.count == r.moved || (r.call.count == SIZE_MAX && r.moved == 0)
    ensures |data| <= INT_MAX ==> !r.call.Overran?
    ensures link.FullSends() ==> r.link.FullSends()
    ensures link.FullSends() && |data| <= INT_MAX ==> r.call == Returned(|data|) && r.moved == |data|
  {
    var len := IntLength(|data|);
    var rest := AnswerSent(link);
    if len < 0 then Sent(Overran, 0, link)
    else
      match link.NextSend()
      case TakesAll => Sent(Returned(len), len, rest.(wire := link.wire + data[..len]))
      case Takes(count) =>
        var n := Min(count, len);
        Sent(Returned(n), n, rest.(wire := link.wire + data[..n]))
      case SendFails(e) => Sent(FailedCall(e), 0, rest)
  }

  function Recv(link: Link, len: nat): (r: Received)
    ensures |r.bytes| <= len && |r.bytes| <= INT_MAX && r.bytes + r.link.inbound == link.inbound
    ensures r.link.wire == link.wire && r.link.sends == link.sends
    ensures !r.call.Returned? ==> r.bytes == []
    ensures r.call.Returned? ==> r.call.count == |r.bytes| || (r.call.count == SIZE_MAX && r.bytes == [])
    ensures len <= INT_MAX ==> !r.call.Overran?
    ensures r.call == Returned(0) && 0 < len <= INT_MAX ==> link.inbound == []
    ensures link.Blocking() ==> r.link.Blocking() && (r.call.Returned? ==> r.call.count == |r.bytes|)
    ensures link.Smooth() ==> r.link.Smooth() && !r.call.Thrown? && r.call != Returned(SIZE_MAX)
    ensures |r.link.recvs| <= |link.recvs|
    ensures r.call == Returned(SIZE_MAX) ==> |r.link.recvs| < |link.recvs|
  {
    var n := IntLength(len);
    var rest := AnswerReceived(link);
    if n < 0 then Received(Overran, [], link)
    else
      match link.NextRecv()
      case Gives(count) =>
        var k := if n == 0 || link.inbound == [] then 0
                 else Min(Max(count, 1), Min(n, |link.inbound|));
        Received(Returned(k), link.inbound[..k], rest.(inbound := link.inbound[k..]))
      case RecvFails(e) => Received(FailedCall(e), [], rest)
  }

  // ----- every behaviour is scripted -----

  /** A script can make send take any part of a block, or fail in any way; what is
      left of the connection is then as before but for the bytes taken. */
  lemma EverySendIsScripted(link: Link, data: seq<byte>, n: nat, e: Errno)
    requires n <= |data| <= INT_MAX
    ensures Send(link.(sends := [Takes(n)] + link.sends), data)
         == Sent(Returned(n), n, link.(wire := link.wire + data[..n]))
    ensures Send(link.(sends := [SendFails(e)] + link.sends), data) == Sent(FailedCall(e), 0, link)
  {
    assert ([Takes(n)] + link.sends)[1..] == link.sends && ([SendFails(e)] + link.sends)[1..] == link.sends;
  }

  /** And recv hand over any positive number of the bytes that are there, report the
      end when there are none, or fail in any way. */
  lemma EveryRecvIsScripted(link: Link, len: nat, n: nat, e: Errno)
    requires 0 < len <= INT_MAX && n <= len && n <= |link.inbound| && (n == 0 <==> link.inbound == [])
    ensures Recv(link.(recvs := [Gives(n)] + link.recvs), len)
         == Received(Returned(n), link.inbound[..n], link.(inbound := link.inbound[n..]))
    ensures Recv(link.(recvs := [RecvFails(e)] + link.recvs), len) == Received(FailedCall(e), [], link)
  {
    assert ([Gives(n)] + link.recvs)[1..] == link.recvs && ([RecvFails(e)] + link.recvs)[1..] == link.recvs;
  }
}

/** The `socket` class: the handle it names, its two flags, and the calls that
    transfer or close the handle or move bytes. Its value is a `Sock` of the pool;
    each method changes it, and the kernel's table, as the pool's actions do. */
module Sockets {
  import opened Os
  import opened SocketPool

  class Kernel {
    var table: Table

    constructor ()
      ensures table == EMPTY_POOL.table
    {
      table := EMPTY_POOL.table;
    }

    // impl::close_socket
    method CloseSocket(h: Handle)
      modifies this
      ensures table == old(table).Close(h)
    {
      table := table.Close(h);
    }
  }

  class Socket {
    const code: Code
    const kernel: Kernel
    var handle: Handle
    var connected: bool
    var closed: bool
    // The kernel's end of the connection the handle names.
    var link: Link

    function View(): Sock
      reads this
    { Sock(handle, connected, closed) }

    constructor Default(code: Code, kernel: Kernel)
      ensures this.code == code && this.kernel == kernel && View() == Fresh(INVALID, false)
      ensures handle == INVALID && !connected && !closed
    {
      this.code, this.kernel := code, kernel;
      handle, connected, closed := INVALID, false, false;
    }

    constructor FromHandle(code: Code, kernel: Kernel, h: Handle, connected: bool, link: Link)
      ensures this.code == code && this.kernel == kernel && View() == Fresh(h, connected)
      ensures handle == h && this.connected == connected && !closed && this.link == link
    {
      this.code, this.kernel := code, kernel;
      handle, this.connected, closed, this.link := h, connected, false, link;
    }

    /** The new object has the handle and the connection; the other keeps its flags. */
    constructor Move(other: Socket)
      modifies other
      ensures handle == old(other.handle) && connected == old(other.connected)
      ensures closed == (code.Repaired? && old(other.closed))
      ensures other.handle == INVALID && other.connected == old(other.connected) && other.closed == old(other.closed)
      ensures code == other.code && kernel == other.kernel && link == old(other.link)
      ensures View() == Moved(code, old(other.View())) && other.View() == old(other.View()).MovedFrom()
    {
      code, kernel, link := other.code, other.kernel, other.link;
      connected, handle := other.connected, other.handle;
      closed := if other.code.Repaired? then other.closed else false;
      new;
      other.handle := INVALID;
    }

    /** close(), then the handle and the connection of the other, which has neither any
        more; onto itself only the close() remains. */
    method MoveAssign(other: Socket)
      requires kernel == other.kernel && code == other.code
      modifies this, other, kernel
      ensures this != other ==>
        && handle == old(other.handle) && connected == old(other.connected)
        && closed == (code.AsWritten? || old(other.closed))
        && other.handle == INVALID && !other.connected && other.closed == old(other.closed)
      ensures this == other ==> handle == INVALID && !connected && closed
      ensures kernel.table ==
        if old(handle) != INVALID && !old(closed) then old(kernel.table).Close(old(handle)) else old(kernel.table)
      ensures kernel.table == CloseIn(old(View()), old(kernel.table))
      ensures this != other ==>
        View() == Assigned(code, old(other.View())) && other.View() == old(other.View()).Vacated()
      ensures this == other ==> View() == old(View()).Closed().Vacated()
      ensures link == old(other.link)
    {
      Close();
      handle, connected, link := other.handle, other.connected, other.link;
      if code.Repaired? {
        closed := other.closed;
      }
      other.handle := INVALID;
      other.connected := false;
    }

    method Close()
      modifies this, kernel
      ensures handle == old(handle) && !connected && closed
      ensures kernel.table ==
        if old(handle) != INVALID && !old(closed) then old(kernel.table).Close(old(handle)) else old(kernel.table)
      ensures View() == old(View()).Closed() && kernel.table == CloseIn(old(View()), old(kernel.table))
      ensures link == old(link)
    {
      connected := false;
      if handle != INVALID && !closed {
        kernel.CloseSocket(handle);
      }
      closed := true;
    }

    // The answer is the error of the system call, if any; a safe one (a
    // non-blocking connect in progress) still marks the socket connected.
    method Connect(answer: Option<Errno>) returns (r: Call)
      modifies this`connected
      ensures r.Thrown? <==> answer.Some? && FailedCall(answer.value).Thrown?
      ensures connected == (!r.Thrown? || old(connected))
    {
      if answer.Some? {
        r := FailedCall(answer.value);
        if r.Thrown? { return; }
      }
      r := Returned(0);
      connected := true;
    }

    method Send(data: seq<byte>) returns (r: Call)
      modifies this`link
      ensures !connected ==> r == Thrown(SocketError) && link == old(link)
      ensures connected ==> var sent := Os.Send(old(link), data); r == sent.call && link == sent.link
    {
      if !connected {
        return Thrown(SocketError);
      }
      var sent := Os.Send(link, data);
      link := sent.link;
      r := sent.call;
    }

    // What a call does to the handle: nothing, or it closes a connected socket.
    twostate predicate OnlyCloses()
      reads this, kernel
    {
      if old(connected) && !connected then
        View() == old(View()).Closed() && kernel.table == CloseIn(old(View()), old(kernel.table))
      else
        View() == old(View()) && kernel.table == old(kernel.table)
    }

    /** Receives at most len bytes to dst[off..]; on 0 the socket closes itself. */
    method Recv(dst: array<byte>, off: nat, len: nat) returns (r: Call)
      requires off + len <= dst.Length
      modifies this, kernel, dst
      ensures !old(connected) ==>
        r == Thrown(SocketError) && link == old(link) && dst[..] == old(dst[..])
      ensures old(connected) ==>
        var got := Os.Recv(old(link), len);
        r == got.call && link == got.link
        && dst[..] == old(dst[..off]) + got.bytes + old(dst[off + |got.bytes|..])
      ensures connected == (old(connected) && r != Returned(0)) && OnlyCloses()
    {
      if !connected {
        return Thrown(SocketError);
      }
      var got := Os.Recv(link, len);
      link := got.link;
      forall i | 0 <= i < |got.bytes| {
        dst[off + i] := got.bytes[i];
      }
      assert dst[..] == old(dst[..off]) + got.bytes + old(dst[off + |got.bytes|..]);
      r := got.call;
      if r == Returned(0) {
        Close();
      }
    }
  }
}

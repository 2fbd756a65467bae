/** The `poll_list` class and the two `impl::poll` functions, with the answer of the
    poll system call as a parameter. */
module PollLists {
  import opened Os
  import opened SocketPool
  import opened Sockets

  // ----- flags -----

  // pollin, pollout, pollerr, pollhang
  const POLL_IN: bv32 := 0x1
  const POLL_OUT: bv32 := 0x2
  const POLL_ERR: bv32 := 0x4
  const POLL_HANG: bv32 := 0x8

  // POLLIN, POLLOUT, POLLERR, POLLHUP on Linux
  const SYS_IN: bv16 := 0x1
  const SYS_OUT: bv16 := 0x4
  const SYS_ERR: bv16 := 0x8
  const SYS_HUP: bv16 := 0x10

  function MapPollFlags(flags: bv32): bv16 {
    (if flags & POLL_IN != 0 then SYS_IN else 0)
    | (if flags & POLL_OUT != 0 then SYS_OUT else 0)
    | (if flags & POLL_ERR != 0 then SYS_ERR else 0)
  }

  function MapPollEvents(events: bv16): bv32 {
    (if events & SYS_IN != 0 then POLL_IN else 0)
    | (if events & SYS_OUT != 0 then POLL_OUT else 0)
    | (if events & SYS_ERR != 0 then POLL_ERR else 0)
    | (if events & SYS_HUP != 0 then POLL_HANG else 0)
  }

  // Asking and hearing back keeps exactly the three flags one can ask for.
  lemma FlagsRoundTrip(flags: bv32)
    ensures MapPollEvents(MapPollFlags(flags)) == flags & (POLL_IN | POLL_OUT | POLL_ERR)
  {
  }

  // The system is asked for exactly the three kinds of events that the flags ask for.
  predicate AsksFor(events: bv16, flags: bv32) {
    && (events & SYS_IN != 0 <==> flags & POLL_IN != 0) && (events & SYS_OUT != 0 <==> flags & POLL_OUT != 0)
    && (events & SYS_ERR != 0 <==> flags & POLL_ERR != 0)
    && events | SYS_IN | SYS_OUT | SYS_ERR == SYS_IN | SYS_OUT | SYS_ERR
  }

  // Exactly the four kinds of events are reported, each when the system reports it.
  predicate Tells(r: bv32, events: bv16) {
    && (r & POLL_IN != 0 <==> events & SYS_IN != 0) && (r & POLL_OUT != 0 <==> events & SYS_OUT != 0)
    && (r & POLL_ERR != 0 <==> events & SYS_ERR != 0) && (r & POLL_HANG != 0 <==> events & SYS_HUP != 0)
    && r <= (POLL_IN | POLL_OUT | POLL_ERR | POLL_HANG)
  }

  lemma FlagsAsked(flags: bv32)
    ensures AsksFor(MapPollFlags(flags), flags)
  {
  }

  lemma EventsReported(events: bv16)
    ensures Tells(MapPollEvents(events), events)
  {
  }

  // ----- the system call -----

  // A descriptor is an int: the handle is cast, the invalid one to -1.
  datatype PollFd = PollFd(fd: int, events: bv16, revents: bv16)

  // revents for each descriptor, or an error that leaves them as they were.
  datatype PollAnswer = Ready(revents: seq<bv16>) | PollFails(errno: Errno)

  // The number of descriptors with events, as poll returns it.
  function CountReady(revents: seq<bv16>): nat {
    if revents == [] then 0 else CountReady(revents[..|revents| - 1]) + if revents[|revents| - 1] != 0 then 1 else 0
  }

  lemma {:induction false} CountReadyCounts(revents: seq<bv16>)
    ensures CountReady(revents) == |set i | 0 <= i < |revents| && revents[i] != 0|
  {
    if revents != [] {
      var n := |revents| - 1;
      var before := set i | 0 <= i < n && revents[..n][i] != 0;
      var all := set i | 0 <= i < |revents| && revents[i] != 0;
      CountReadyCounts(revents[..n]);
      assert all == if revents[n] != 0 then before + {n} else before;
    }
  }

  // ----- the list as a sequence -----

  datatype Entry = Entry(handle: Handle, events: bv32, result: bv32)

  // The position of the first entry with a handle.
  function IndexOf(es: seq<Entry>, h: Handle): (i: nat)
    ensures i <= |es|
    ensures i < |es| ==> es[i].handle == h
    ensures forall j | 0 <= j < i :: es[j].handle != h
  {
    if es == [] || es[0].handle == h then 0 else 1 + IndexOf(es[1..], h)
  }

  function Removed(es: seq<Entry>, h: Handle): seq<Entry> {
    var i := IndexOf(es, h);
    if i < |es| then es[..i] + es[i + 1..] else es
  }

  function ResultOf(es: seq<Entry>, h: Handle): bv32 {
    var i := IndexOf(es, h);
    if i < |es| then es[i].result else 0
  }

  function Polled(es: seq<Entry>, revents: seq<bv16>): (r: seq<Entry>)
    requires |revents| == |es|
    ensures |r| == |es|
  {
    seq(|es|, i requires 0 <= i < |es| => es[i].(result := MapPollEvents(revents[i])))
  }

  function NoEvents(n: nat): (z: seq<bv16>)
    ensures |z| == n
  { seq(n, _ => 0) }

  function Asked(es: seq<Entry>): (fds: seq<PollFd>)
    ensures |fds| == |es|
  {
    seq(|es|, i requires 0 <= i < |es| => PollFd(IntLength(es[i].handle), MapPollFlags(es[i].events), 0))
  }

  function Answered(fds: seq<PollFd>, answer: PollAnswer): (r: seq<PollFd>)
    requires answer.Ready? ==> |answer.revents| == |fds|
    ensures |r| == |fds|
  {
    if answer.PollFails? then fds
    else seq(|fds|, i requires 0 <= i < |fds| => fds[i].(revents := answer.revents[i]))
  }

  lemma DescriptorsAsk(es: seq<Entry>, answer: PollAnswer)
    requires answer.Ready? ==> |answer.revents| == |es|
    ensures forall i | 0 <= i < |es| ::
      var fd := Answered(Asked(es), answer)[i];
      && fd.fd == IntLength(es[i].handle) && AsksFor(fd.events, es[i].events)
      && fd.revents == if answer.Ready? then answer.revents[i] else 0
  {
    forall i | 0 <= i < |es|
      ensures AsksFor(Asked(es)[i].events, es[i].events)
    {
      FlagsAsked(es[i].events);
    }
  }

  // ----- the class -----

  datatype PollEntry = PollEntry(socket: Socket, events: bv32, result: bv32)

  class PollList {
    var entries: seq<PollEntry>

    ghost function Sockets(): set<Socket>
      reads this
    { set e | e in entries :: e.socket }

    ghost function View(): (v: seq<Entry>)
      reads this, Sockets()
      ensures |v| == |entries|
    {
      seq(|entries|, i requires 0 <= i < |entries| reads this, Sockets() =>
        assert entries[i] in entries;
        Entry(entries[i].socket.handle, entries[i].events, entries[i].result))
    }

    constructor ()
      ensures View() == []
    {
      entries := [];
    }

    method Push(socket: Socket, events: bv32)
      modifies this
      ensures View() == old(View()) + [Entry(socket.handle, events, 0)]
      ensures entries == old(entries) + [PollEntry(socket, events, 0)]
    {
      entries := entries + [PollEntry(socket, events, 0)];
    }

    // find_if over *e.socket == socket, which compares handles
    method FindIf(socket: Socket) returns (i: nat)
      ensures i == IndexOf(View(), socket.handle)
    {
      i := 0;
      while i < |entries| && entries[i].socket.handle != socket.handle
        invariant i <= |entries|
        invariant forall j | 0 <= j < i :: View()[j].handle != socket.handle
      {
        i := i + 1;
      }
      FirstIsIndexOf(View(), socket.handle, i);
    }

    method Remove(socket: Socket)
      modifies this
      ensures View() == Removed(old(View()), socket.handle)
      ensures forall e | e in entries :: e in old(entries)
    {
      ghost var before := View();
      var i := FindIf(socket);
      assert View() == before;
      if i < |entries| {
        entries := entries[..i] + entries[i + 1..];
        assert View() == before[..i] + before[i + 1..];
      }
      assert View() == Removed(before, socket.handle);
    }

    method Result(socket: Socket) returns (r: bv32)
      ensures r == ResultOf(View(), socket.handle)
      ensures var i := IndexOf(View(), socket.handle); r == if i < |entries| then entries[i].result else 0
    {
      var i := FindIf(socket);
      r := if i < |entries| then entries[i].result else 0;
    }

    // The descriptors handed to the system call.
    method Descriptors() returns (fds: array<PollFd>)
      ensures fresh(fds) && fds[..] == Asked(View())
    {
      fds := new PollFd[|entries|](_ => PollFd(0, 0, 0));
      for i := 0 to |entries|
        invariant forall j | 0 <= j < i :: fds[j] == Asked(View())[j]
        invariant forall j | i <= j < |entries| :: fds[j] == PollFd(0, 0, 0)
      {
        fds[i] := PollFd(IntLength(entries[i].socket.handle), MapPollFlags(entries[i].events), 0);
      }
    }

    // The system call and the wrapper's treatment of an error.
    static method AskSystem(fds: array<PollFd>, answer: PollAnswer) returns (r: Call)
      requires answer.Ready? ==> |answer.revents| == fds.Length
      modifies fds
      ensures fds[..] == Answered(old(fds[..]), answer)
      ensures r == match answer case Ready(revents) => Returned(CountReady(revents)) case PollFails(e) => FailedCall(e)
    {
      match answer {
        case Ready(revents) =>
          forall i | 0 <= i < fds.Length { fds[i] := fds[i].(revents := revents[i]); }
          r := Returned(CountReady(revents));
        case PollFails(e) =>
          r := FailedCall(e);
      }
    }

    // Asks for what each entry wants.
    method Ask(answer: PollAnswer) returns (r: Call, fds: array<PollFd>)
      requires answer.Ready? ==> |answer.revents| == |entries|
      ensures fresh(fds) && fds[..] == Answered(Asked(View()), answer)
      ensures fds.Length == |entries| && forall i | 0 <= i < fds.Length ::
        && fds[i].fd == IntLength(entries[i].socket.handle) && AsksFor(fds[i].events, entries[i].events)
        && fds[i].revents == if answer.Ready? then answer.revents[i] else 0
      ensures r == match answer case Ready(revents) => Returned(CountReady(revents)) case PollFails(e) => FailedCall(e)
    {
      fds := Descriptors();
      r := AskSystem(fds, answer);
      DescriptorsAsk(View(), answer);
    }

    // Copies the events found into the entries.
    method StoreResults(fds: array<PollFd>, ghost revents: seq<bv16>)
      requires fds.Length == |revents| == |entries| && forall j | 0 <= j < |revents| :: fds[j].revents == revents[j]
      modifies this
      ensures View() == Polled(old(View()), revents) && |entries| == |old(entries)|
      ensures forall i | 0 <= i < |entries| ::
        entries[i].socket == old(entries)[i].socket && entries[i].events == old(entries)[i].events
        && Tells(entries[i].result, revents[i])
    {
      var n := |entries|;
      for i := 0 to n
        invariant |entries| == n
        invariant forall j | 0 <= j < i :: entries[j] == old(entries)[j].(result := MapPollEvents(revents[j]))
        invariant forall j | i <= j < n :: entries[j] == old(entries)[j]
      {
        entries := entries[i := entries[i].(result := MapPollEvents(fds[i].revents))];
      }
      forall i | 0 <= i < n
        ensures Tells(entries[i].result, revents[i])
      {
        EventsReported(revents[i]);
      }
    }

    /** impl::poll over the list: asks for what each entry wants. An unsafe error or a
        reset throws and leaves the list; a safe one clears the results and comes
        back as a wrapped -1. */
    method Poll(answer: PollAnswer) returns (r: Call, fds: array<PollFd>)
      requires answer.Ready? ==> |answer.revents| == |entries|
      modifies this
      ensures fresh(fds) && fds[..] == Answered(Asked(old(View())), answer)
      ensures r == match answer case Ready(revents) => Returned(CountReady(revents)) case PollFails(e) => FailedCall(e)
      ensures fds.Length == |old(entries)| && forall i | 0 <= i < fds.Length ::
        && fds[i].fd == IntLength(old(entries)[i].socket.handle) && AsksFor(fds[i].events, old(entries)[i].events)
        && fds[i].revents == if answer.Ready? then answer.revents[i] else 0
      ensures |entries| == |old(entries)| && forall i | 0 <= i < |entries| ::
        var e := old(entries)[i];
        && entries[i].socket == e.socket && entries[i].events == e.events
        && (r.Thrown? ==> entries[i].result == e.result)
        && (!r.Thrown? ==> Tells(entries[i].result, if answer.Ready? then answer.revents[i] else 0))
      ensures View() ==
        if r.Thrown? then old(View())
        else Polled(old(View()), if answer.Ready? then answer.revents else NoEvents(|old(View())|))
    {
      r, fds := Ask(answer);
      if !r.Thrown? {
        StoreResults(fds, if answer.Ready? then answer.revents else NoEvents(|entries|));
      }
    }
  }

  lemma {:induction false} FirstIsIndexOf(es: seq<Entry>, h: Handle, i: nat)
    requires i <= |es| && (i < |es| ==> es[i].handle == h) && forall j | 0 <= j < i :: es[j].handle != h
    ensures IndexOf(es, h) == i
  {
  }

  // impl::poll on a single socket: its flags, or an exception
  datatype Polling = Flags(events: bv32) | Threw(failure: Failure)

  function PollOne(answer: PollAnswer): Polling
    requires answer.Ready? ==> |answer.revents| == 1
  {
    match answer
    case Ready(revents) => if CountReady(revents) == 0 then Flags(0) else Flags(MapPollEvents(revents[0]))
    case PollFails(e) =>
      var failed := FailedCall(e);
      if failed.Thrown? then Threw(failed.failure) else Flags(MapPollEvents(0))
  }

  // ----- results about the list -----

  // The entries with a handle, or with any other, in order.
  function Those(es: seq<Entry>, h: Handle, wanted: bool): seq<Entry> {
    if es == [] then []
    else (if (es[0].handle == h) == wanted then [es[0]] else []) + Those(es[1..], h, wanted)
  }

  lemma SkipOneMore(e: Entry, rest: seq<Entry>, i: nat)
    requires i < |rest|
    ensures ([e] + rest)[..1 + i] + ([e] + rest)[1 + i + 1..] == [e] + (rest[..i] + rest[i + 1..])
  {
  }

  lemma IndexOfCons(e: Entry, rest: seq<Entry>, h: Handle)
    ensures IndexOf([e] + rest, h) == if e.handle == h then 0 else 1 + IndexOf(rest, h)
  {
    assert ([e] + rest)[1..] == rest;
  }

  lemma RemovedCons(e: Entry, rest: seq<Entry>, h: Handle)
    ensures Removed([e] + rest, h) == if e.handle == h then rest else [e] + Removed(rest, h)
  {
    IndexOfCons(e, rest, h);
    var i := IndexOf(rest, h);
    if e.handle == h {
      assert ([e] + rest)[..0] + ([e] + rest)[1..] == rest;
    } else if i < |rest| {
      SkipOneMore(e, rest, i);
    }
  }

  lemma ThoseCons(e: Entry, rest: seq<Entry>, h: Handle, wanted: bool)
    ensures Those([e] + rest, h, wanted)
         == (if (e.handle == h) == wanted then [e] else []) + Those(rest, h, wanted)
  {
  }

  /** remove takes out the first entry of the handle and nothing else: the entries of
      other handles stay as they were, in order, and so do the later ones of this. */
  lemma {:induction false} RemovedTakesFirstOnly(es: seq<Entry>, h: Handle)
    ensures Those(Removed(es, h), h, false) == Those(es, h, false)
    ensures var mine := Those(es, h, true);
            Those(Removed(es, h), h, true) == if mine == [] then [] else mine[1..]
  {
    if es != [] {
      var e, rest := es[0], es[1..];
      assert es == [e] + rest;
      RemovedCons(e, rest, h);
      ThoseCons(e, rest, h, true);
      ThoseCons(e, rest, h, false);
      if e.handle != h {
        RemovedTakesFirstOnly(rest, h);
        ThoseCons(e, Removed(rest, h), h, true);
        ThoseCons(e, Removed(rest, h), h, false);
      }
    }
  }

  // Pushing an entry and removing its handle, absent before, changes nothing.
  lemma PushThenRemove(es: seq<Entry>, e: Entry)
    requires IndexOf(es, e.handle) == |es|
    ensures Removed(es + [e], e.handle) == es
  {
    FirstIsIndexOf(es + [e], e.handle, |es|);
  }

  /** After a successful poll, the result for a handle is what the system reported
      for the first entry of that handle, and 0 for a handle not listed. */
  lemma ResultAfterPoll(es: seq<Entry>, revents: seq<bv16>, h: Handle)
    requires |revents| == |es|
    ensures var i := IndexOf(es, h);
            ResultOf(Polled(es, revents), h) == if i < |es| then MapPollEvents(revents[i]) else 0
  {
    FirstIsIndexOf(Polled(es, revents), h, IndexOf(es, h));
  }

  // A one-entry list and the single poll agree, whatever the system answers.
  lemma SinglePollAgrees(e: Entry, answer: PollAnswer)
    requires answer.Ready? ==> |answer.revents| == 1
    ensures match PollOne(answer)
            case Threw(f) => answer.PollFails? && FailedCall(answer.errno) == Thrown(f)
            case Flags(events) =>
              events == ResultOf(Polled([e], if answer.Ready? then answer.revents else NoEvents(1)), e.handle)
  {
  }
}

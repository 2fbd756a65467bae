# netsock, verified

A Dafny 4.11 model of the parts of the netsock socket library that carry state or
arithmetic, with proofs of what they are for. `dafny verify dfyconfig.toml` checks it.

## What is modelled

- **Buffered TCP streams** (`Os`, `StreamModel`, `TcpStreambuf`, and the proofs in
  `WriterProofs`, `ReaderProofs`, `CodedWrites`, `CodedReads`, `Failures`, `Transport`,
  `Duplex`). `tcp_streambuf` is a class over two
  512-byte arrays with the get and put pointers as offsets. The operating system answers
  every `send` and `recv` from an arbitrary finite script: how many bytes it takes or
  gives, or which error it reports. When the script is used up it takes and gives all it
  can. A run that ends asks only a finite number of questions, so no run is excluded. The
  error wrapper turns unsafe errors and resets into exceptions and every other safe error
  into -1 converted to `size_t`. The `(int)len` casts of the wrappers are modelled too.
  Each method of the class equals a transition function; the results are about all runs of
  these functions.
- **Handle ownership** (`SocketPool`, `Connections`, `Socket`). Live `socket` objects and a kernel table
  whose numbers are reused after a close. A generation number per opening makes "closed
  exactly once" a statement about openings, not numbers.
- **Addresses** (`Endian`, `SocketAddress`, `Addresses`, `EndpointParser`). Byte swaps on
  integers and the reversing copy loop, the conversions between endpoints and the bytes of
  `sockaddr_in` and `sockaddr_in6` (section 3.3 of RFC 3493) on a little-endian Linux host,
  the owning buffer class that holds them, and the endpoint string parser.
- **Failures**. Which exception of the system reaches which caller is part of every
  result about the streams: `RunReportsEveryFailure` says that none is lost or made up.
- **Poll lists** (`PollList`). The class over a sequence of entries, both poll functions
  and the flag mappings.

## Where the code departs from its intent

Functions with a `Code` parameter come in two versions: `AsWritten` is the repository's,
`Repaired` a minimal repair: `overflow` flushes a full put area and advances past the
character it stores, `underflow` returns eof unless recv gave 1 to 512 bytes, and moves carry
`_closed` over. Theorems name the version they are about, and every departure
has its exact condition.

- `src/tcp_stream.cpp:22` compares the put pointer with the start of the get area, and
  line 27 does not advance it: a character put into a full area of a connected stream is
  stored past the area. `src/tcp_stream.cpp:36` does not look at a zero or wrapped count:
  a character read at the end of the stream hands out a stale byte.
  `CodedAgreesIffNoHazard` and `RunsAgreeIffHazardFree` show these are the only
  differences, `HazardSymptoms` what happens instead, `HazardsAreReachable` that a stream
  just constructed gets there. After such a read the get pointer is past the end of what
  was received: `SticksExactly` says when, `StuckForGood` that the stream never receives
  again, and `EndHandsOutWholeArea` that 512 old bytes come out.
- `src/tcp_stream.cpp:45` subtracts pointers into two arrays. With `_ibuf` declared before
  `_obuf` (`include/netsock/tcp_stream.hpp:25-26`) the difference is negative and `xsputn`
  always flushes first (`PutOffersPending`, and `EachBlockLeavesAlone` over series of
  blocks). `FlushTimingIndependence` shows that this is harmless.
- `src/tcp_stream.cpp:23`, `:46` and `:50` ignore how much `send` took.
  `WireIsSubsequence` says what is left of the accepted bytes, and when nothing is lost,
  `SyncByAnswer` what a sync does with each answer.
- A safe error makes `recv` return -1 as a `size_t`, and `xsgetn` lowers its count by one
  for it: the inbound stream is delivered whole and in order if and only if no block read
  meets one (`XsgetnConservesIffNoWrap`, `InboundConservedIffNoneLost`);
  `SafeErrorAimsBeforeDestination` is the worst case.
- `(int)len` in `src/impl/linux.cpp:184` and `:191`. On the write side
  `BlockCarriedIffFits`. On the read side the cast length is what the get area does not
  hold: `XsgetnOutcome` and `XsgetnReturnsIffRestFits` say when a read succeeds,
  `StepAbandonsIff` and `RunAbandonsIff` when a live connection is closed with bytes still to
  come; `HugeReadClosesLiveConnection` is an instance.
- `src/socket.cpp:27-29` does not carry `_closed` over and `src/socket.cpp:31-38` does not
  reset it: `AsWrittenSafeIffCareful`, with `LeakIsReachable` and `DoubleCloseIsReachable`
  from an empty pool. A moved-from socket still calls itself connected:
  `HonestRunIffKept`.
- `src/ip_address.cpp:40-42` drops the scope: `CharsDropScope`.

## Model

| member | source | states |
|---|---|---|
| Os.FailedCall | src/impl/linux.cpp:121-142 | an unsafe error throws a socket error and a reset or an abort a closed error, and nothing else throws; every other safe error comes back as -1 in a `size_t` |
| Os.Send | src/impl/linux.cpp:183-188 | a prefix of the block goes on the wire and nothing else changes; the count is what moved or a wrapped -1; whole sends move every block whose length fits in an int |
| Os.Recv | src/impl/linux.cpp:190-195 | what it hands over and what is left are the inbound bytes; 0 for a length of 1 to 2^31-1 means the end was reached; a wrapped -1 moves nothing |
| Os.EverySendIsScripted | src/impl/linux.cpp:183-188 | the scripts exclude nothing: send may take any part of a block that fits in an int, or fail with any error, and changes nothing but the wire by the bytes taken |
| Os.EveryRecvIsScripted | src/impl/linux.cpp:190-195 | and recv may hand over any positive number of the bytes there, report the end when there are none, or fail with any error |
| Os.IntLengthIsCast | src/impl/linux.cpp:184 | the cast length is the 32-bit signed number congruent to the length |
| StreamModel.LoopTurn | src/tcp_stream.cpp:63-67 | every turn that continues uses up an answer, loses the connection, or reads more: the loop ends; what a turn does with an exception is in `Failures.LoopReports` |
| Failures.LoopReports | src/tcp_stream.cpp:63-67 | the read loop stops at the first answer of recv that throws, with its exception, and throws only then |
| Failures.ReportedMeans | src/impl/linux.cpp:132-142 | what that means by positions: with n the answers used, what is left is the script from n on, and the call threw if and only if answer n-1 throws, with that failure, and none before it does |
| Failures.ReadThrowsWithLast | src/tcp_stream.cpp:31-69 | each of the three reads, in both versions and for any answers, throws if and only if the last answer of recv it used does, and uses none of send |
| Failures.WriteThrowsWithLast | src/tcp_stream.cpp:19-79 | the same for puts, blocks and syncs and the answers of send |
| Failures.RunReportsEveryFailure | src/impl/linux.cpp:121-142 | over any run of either version the exceptions its reads threw are exactly those in the answers of recv it used, in order, and the same for its writes and send |
| Failures.ToldMeans | src/impl/linux.cpp:132-142 | what that means by positions: the rest of the script is left, and the part used holds these failures in this order |
| Failures.BlockReadEndsIffClosed | src/tcp_stream.cpp:63-68 | on a live connection a block read reports eof if and only if it closed the connection; an exception never does |
| Failures.CharReadClosesIff | src/tcp_stream.cpp:31-40 | a character read closes exactly when it has to ask and recv finds the end |
| StreamModel.Run | src/tcp_stream.cpp:19-79 | every run of either version keeps the put pointer within 0..512 and the areas in size, every run of the repaired one the get pointers ordered; a run is cut short only by an access outside the arrays |
| TcpStream.TcpStreambuf.constructor | src/tcp_stream.cpp:6-9 | both areas empty, client untouched |
| TcpStream.TcpStreambuf.FlushPut | src/tcp_stream.cpp:45-48 | the new state is that of the transition function |
| TcpStream.TcpStreambuf.Overflow | src/tcp_stream.cpp:19-29 | result and new state are those of the transition function; an exception of send reaches the caller |
| TcpStream.TcpStreambuf.XsPutN | src/tcp_stream.cpp:42-56 | result and new state are those of the transition function; what was pending is offered to send first, and the block is pending after it unless it is longer than the area; an exception of send reaches the caller; with whole sends wire plus pending grow by exactly the block |
| TcpStream.TcpStreambuf.Sync | src/tcp_stream.cpp:71-79 | result and new state are those of the transition function; an exception of send reaches the caller |
| TcpStream.TcpStreambuf.Refill | src/tcp_stream.cpp:35-39 | result and new state are those of the transition function; the handle is at most closed |
| TcpStream.TcpStreambuf.Underflow | src/tcp_stream.cpp:31-40 | result and new state are those of the transition function; the handle is at most closed; an exception of recv reaches the caller |
| TcpStream.TcpStreambuf.ReceiveMore | src/tcp_stream.cpp:63-67 | one turn of the loop is the transition function's, and ends with the exception of recv if there is one |
| TcpStream.TcpStreambuf.ReceiveRest | src/tcp_stream.cpp:63-68 | the loop ends as the transition function does, from any loop state; an exception of recv reaches the caller |
| TcpStream.TcpStreambuf.TakeAvail | src/tcp_stream.cpp:59-62 | copies what the get area holds, up to the size asked for, and moves the get pointer past it |
| TcpStream.TcpStreambuf.XsGetN | src/tcp_stream.cpp:58-69 | result, destination and new state are those of the transition function; an exception of recv reaches the caller, and eof means exactly that the connection was closed; when recv never fails, the length comes back with the next bytes if and only if that many are reachable and what the get area does not hold fits in an int |
| WriterProofs.PutBlockKeepsLedger | src/tcp_stream.cpp:42-56 | for any timely flush decision and any answers: flushed blocks and pending bytes are what was accepted, the wire is their sent prefixes |
| WriterProofs.PutCharKeepsLedger | src/tcp_stream.cpp:19-29 | the same for a single character, in both versions |
| WriterProofs.SyncKeepsLedger | src/tcp_stream.cpp:71-79 | the same for sync |
| WriterProofs.RunKeepsLedger | src/tcp_stream.cpp:19-79 | the same after every run, whatever the system answers |
| WriterProofs.SentPositions | src/tcp_stream.cpp:42-56 | strictly increasing positions at which the flushed blocks carry the sent bytes |
| WriterProofs.WireIsSubsequence | src/tcp_stream.cpp:42-79 | under short and failed sends the wire is an in-order subsequence of the accepted bytes, a prefix of each flushed block; wire plus pending is all that was accepted if and only if every flush was complete |
| WriterProofs.FruitlessSyncKeepsBlock | src/tcp_stream.cpp:74-76 | a sync that sent 0 reports eof and keeps block, wire and log, so a retry duplicates nothing |
| CodedWrites.SyncByAnswer | src/tcp_stream.cpp:71-79 | what sync does with every answer: an exception or a send of nothing keeps all bytes; anything else returns 0 and empties the area, also when send took only a part, or nothing after a safe error |
| CodedWrites.SyncLosesIff | src/tcp_stream.cpp:74-78 | a sync that returned 0 lost bytes if and only if send took less than was pending |
| CodedWrites.PutOffersPending | src/tcp_stream.cpp:45-55 | after a block put, for any answers: what was pending was offered to send before the block, and the part not taken is gone; the block is pending, or was offered right after if it is longer than the area |
| CodedWrites.EachBlockLeavesAlone | src/tcp_stream.cpp:42-56 | over any series of puts that succeed send is offered each block by itself, one call late, a long one at once |
| CodedWrites.PutSucceedsIff | src/tcp_stream.cpp:42-56 | a block put succeeds if and only if neither of its sends throws; a short send is no failure |
| CodedWrites.PutThatThrows | src/tcp_stream.cpp:45-52 | a flush that throws keeps every byte; a long block whose send throws has been flushed before |
| CodedWrites.CharIntoRoom | src/tcp_stream.cpp:6-9 | a character is kept as long as there is room, connected or not |
| CodedWrites.CharIntoFull | src/tcp_stream.cpp:19-29 | into a full area: stored past it on a live connection, eof without one |
| CodedWrites.OverflowForgetsCharacter | src/tcp_stream.cpp:26-28 | overflow called with room answers with the character but does not keep it: the next one takes its place |
| WriterProofs.WriterConservation | src/tcp_stream.cpp:19-79 | with whole sends, after any run, wire then pending is what was there then everything accepted, in order |
| WriterProofs.PutBlockConserves | src/tcp_stream.cpp:42-56 | with whole sends any timely flush decision accepts the block and carries it after the earlier bytes |
| WriterProofs.BlockCarriedIffFits | src/tcp_stream.cpp:49-52 | with whole sends a block is accepted and carried whole if and only if its length fits in an int |
| WriterProofs.SyncConserves | src/tcp_stream.cpp:71-79 | with whole sends sync empties the put area onto the wire |
| WriterProofs.FlushTimingIndependence | src/tcp_stream.cpp:42-56 | any flush policy that flushes in time gives, after the final sync, the wire of sending every block directly |
| WriterProofs.CodedAndFreeSpaceTestsAgree | src/tcp_stream.cpp:45 | the coded pointer test and a test of the free space give the same wire |
| WriterProofs.UntimelyDecisionFails | src/tcp_stream.cpp:45-54 | wherever a decision not to flush is untimely, some stream overruns or reorders bytes |
| WriterProofs.DisconnectedStaysSilent | src/tcp_stream.cpp:42-79 | after the connection is lost no run changes the wire or reconnects, and every xsputn and sync returns eof |
| ReaderProofs.ReadLoopCount | src/tcp_stream.cpp:63-68 | whatever the system answers, the loop takes as many bytes as its count grew plus one per wrapped -1 (a count; contents and order are in `ReadLoopMoves` and `XsgetnConservesIffNoWrap`) |
| ReaderProofs.ReadLoopMoves | src/tcp_stream.cpp:63-68 | a loop that meets no wrapped -1 moves inbound bytes into place in order and touches nothing else of the destination, for any size |
| ReaderProofs.ReadLoopEnds | src/tcp_stream.cpp:63-68 | for every size, when recv never fails: filled if and only if what is left fits in an int and is there, undefined when its cast is negative, eof and closed otherwise; the number of bytes it takes; chunks play no part |
| ReaderProofs.ReadLoopClosesAtEnd | src/tcp_stream.cpp:63-68 | whatever the system answers, a loop that has at most 2^31 bytes left to read loses a live connection only when nothing is left to receive |
| ReaderProofs.XsgetnConserves | src/tcp_stream.cpp:58-69 | on a blocking socket what it copied, then get area and unreceived bytes, is what was ahead before; the destination starts with what it copied |
| ReaderProofs.XsgetnConservesIffNoWrap | src/tcp_stream.cpp:58-69 | whatever the system answers, unless it accesses memory outside the destination: that holds if and only if it met no wrapped -1, and each one met loses one byte |
| ReaderProofs.XsgetnRefines | src/tcp_stream.cpp:58-69 | it does what a reader without buffer and chunks does, as long as what the get area does not hold fits in an int |
| ReaderProofs.XsgetnOutcome | src/tcp_stream.cpp:58-69 | for every size: returns n with the next n bytes if and only if that many are reachable and what the get area does not hold fits in an int; undefined if and only if its cast is negative on a live connection; otherwise eof, socket closed, and a prefix of the reachable bytes in the destination, all of them exactly unless the cast length is less than what is to come |
| ReaderProofs.XsgetnReturnsIffRestFits | src/impl/linux.cpp:190-195 | when the bytes are there, the length comes back if and only if what the get area does not hold fits in an int |
| ReaderProofs.SafeErrorAimsBeforeDestination | src/impl/linux.cpp:190-195 | with an empty get area a first wrapped -1 makes the next receive aim before the destination |
| ReaderProofs.ReadsRefinePlain | src/tcp_stream.cpp:31-69 | every read of the repaired buffered stream returns, delivers and leaves what the reference reader does |
| ReaderProofs.StepConservesInbound | src/tcp_stream.cpp:31-69 | one call: delivered bytes, then what is ahead, is what was ahead |
| ReaderProofs.InboundConservation | src/tcp_stream.cpp:31-69 | any run: delivered bytes, get area and unreceived bytes are the whole stream, even when recv throws |
| ReaderProofs.InboundConservedIffNoneLost | src/tcp_stream.cpp:31-69 | any run of the repaired code that stays inside its arrays, whatever the system answers: the inbound stream is delivered whole and in order if and only if no block read met a wrapped -1 |
| ReaderProofs.ChunkIndependence | src/tcp_stream.cpp:19-79 | streams that can yield the same bytes answer any mix of reads and writes alike, call by call, however the bytes are cut |
| ReaderProofs.CodedAgreesIffNoHazard | src/tcp_stream.cpp:19-40 | one call of the code as written equals the repaired one if and only if it meets no hazard |
| ReaderProofs.HazardSymptoms | src/tcp_stream.cpp:22-38 | a hazard stores past the put area, or hands out the stale first byte where the end should be reported |
| CodedReads.SticksExactly | src/tcp_stream.cpp:36-37 | exactly the calls of the code as written that leave the get pointer past the end: taking a character when recv gives none, or peeking at one when recv gives a wrapped -1 |
| CodedReads.ReadOfNothingLeaves | src/tcp_stream.cpp:36-39 | the state and answer of a character read for which recv gave no byte |
| CodedReads.PeekAtEndThenEof | src/tcp_stream.cpp:31-40 | a peek at the end shows an old byte once and eof after that |
| CodedReads.StuckForGood | src/tcp_stream.cpp:31-69 | from then on no run receives anything, and what it delivers are the old bytes of the area in order |
| CodedReads.RunSticksIff | src/tcp_stream.cpp:31-69 | a run of the code as written ends in such a state if and only if one of its calls is of that kind |
| CodedReads.EndHandsOutWholeArea | src/tcp_stream.cpp:31-40 | taking characters at the end of the stream hands out all 512 bytes of the area, then reads past it |
| ReaderProofs.HazardsAreReachable | src/tcp_stream.cpp:19-40 | on a stream just constructed the 513th character put is stored past the area, and a peek at a peer that closed at once shows a byte where the repaired code reports the end |
| ReaderProofs.RunsAgreeIffHazardFree | src/tcp_stream.cpp:19-79 | whole runs of the two versions are equal if and only if no call meets a hazard |
| ReaderProofs.StepClosesOnlyAtEnd | src/tcp_stream.cpp:31-69 | whatever the system answers, a call loses the connection only when nothing is left to receive, as long as the rest of a block read fits in an int |
| ReaderProofs.RunClosesOnlyAtEnd | src/socket.cpp:88-95 | the same for runs of either version |
| ReaderProofs.StepAbandonsIff | src/impl/linux.cpp:190-195 | for every size, when recv never fails: a call of either version closes a live connection with bytes still to come if and only if it is a block read whose rest exceeds an int and is cast to less than what is to come, but not below 0 |
| ReaderProofs.RunAbandonsIff | src/impl/linux.cpp:190-195 | a run of either version ends disconnected with bytes still to come if and only if one of its calls is such a read |
| ReaderProofs.HugeReadClosesLiveConnection | src/impl/linux.cpp:191 | an instance: a rest that is a multiple of 2^32 closes the connection with nothing received |
| Transport.PutAllPutsFlat | include/netsock/raw.hpp:30-35 | values put one after the other lie end to end on wire and put area |
| Transport.GetAllCutsFlat | include/netsock/raw.hpp:37-42 | reading values of given sizes cuts the inbound bytes at those sizes |
| Transport.PutAllGoodIff | include/netsock/raw.hpp:30-35 | whatever the system answers, writing values leaves the stream good if and only if it is connected and no answer of send that was used throws |
| Transport.FlushGoodIff | src/tcp_stream.cpp:71-79 | flushing leaves it good unless send throws or takes nothing of what is pending |
| Transport.GetAllGoodIff | include/netsock/raw.hpp:37-42 | reading values leaves the stream good if and only if all their bytes are there, and then leaves the rest |
| Transport.GetAllByReach | include/netsock/raw.hpp:37-42 | when the bytes run out: each object before that point holds its bytes, the one it falls into those that came before its old ones, all later ones are untouched |
| Transport.BadStaysBad | include/netsock/raw.hpp:30-42 | a stream that is not good is left alone, and so are the objects to read |
| Transport.RawTransport | include/netsock/raw.hpp:30-42 | end to end, code as written: values put with put_raw and flushed arrive with get_raw as they were, value by value, for all sizes below 2^31 and all chunkings |
| Transport.DeliveredIsPrefixOfAccepted | src/tcp_stream.cpp:19-79 | any run of calls at the writer and any at the reader, under whole sends: delivered bytes are a prefix of accepted bytes |
| Transport.DeliveredIsSubsequenceOfAccepted | src/tcp_stream.cpp:19-79 | under short and failed sends and for any sizes: delivered bytes are an in-order subsequence of accepted bytes |
| Duplex.CallConserves | src/tcp_stream.cpp:19-79 | one call by either of two live peers conserves the bytes of both directions and keeps the connection |
| Duplex.Final | src/tcp_stream.cpp:19-79 | after any interleaving of calls by both live peers the connection is up and each direction is heard, ahead or pending, in order, and nothing else |
| Duplex.HeardIsPrefixOfSaid | src/tcp_stream.cpp:19-79 | at any moment what one side heard is a prefix of what the other said |
| SocketPool.StepKeepsInv | src/socket.cpp:14-38 | every action of the repaired code, and every careful one of the code as written, keeps exclusive ownership without leak |
| SocketPool.CarelessStepBreaksInv | src/socket.cpp:27-38 | a careless move of the code as written always breaks it: double ownership after construction, a leak after assignment |
| SocketPool.LeakIsReachable | src/socket.cpp:31-38 | a run from nothing: a socket adopted and moved onto a default one leaves its handle open and owned by nobody |
| SocketPool.DoubleCloseIsReachable | src/socket.cpp:27-29 | a run from nothing: a socket constructed from a closed one closes the number once more when destroyed |
| SocketPool.AsWrittenSafeIffCareful | src/socket.cpp:18-38 | a run of the code as written keeps ownership in every state if and only if every move in it is careful |
| SocketPool.RepairedSafe | src/socket.cpp:18-38 | every run keeps ownership once `_closed` is carried over and reset |
| Connections.MoveTransfersConnection | src/socket.cpp:27-38 | after either kind of move the target has the handle and the flag the source had, the source has no handle, and every other object is as it was |
| Connections.StepHoldsIff | src/socket.cpp:27-38 | an action keeps an owned connection with its holder, wherever it moves, if and only if it does not close, destroy or overwrite the holder or make a second owner of the handle |
| Connections.ConnectionSurvives | src/socket.cpp:27-38 | over any run without such an action, in either version and careless moves included, the object the connection ended up in is connected, over the same opening of the same handle |
| Connections.ConnectedSocketStaysUsable | src/socket.cpp:52-55 | in particular a connection made on a socket that owns its handle |
| Connections.HeldExactlyUntilEnded | src/socket.cpp:27-38 | with `_closed` carried over, an owned connection is held in every state of a run if and only if no action closes, destroys or overwrites its holder |
| SocketPool.AllClosedOnce | src/socket.cpp:229-238 | when all objects are gone each handle ever opened was closed exactly once, and no number was closed while not open |
| SocketPool.HonestIffKept | src/socket.cpp:27-55 | after one action the connected flags are truthful exactly when it moves no connected object, connects none without a handle and adopts no failed accept |
| SocketPool.HonestRunIffKept | src/socket.cpp:18-55 | a run of the code as written has truthful connected flags in every state if and only if every action in it is of that kind |
| Sockets.Socket.FromHandle | src/socket.cpp:18-20 | an open object with the handle and flag given, not marked closed |
| Sockets.Socket.Move | src/socket.cpp:27-29 | the new object has the handle and the connected flag the other had; the other has no handle and keeps its flags; as the pool's action |
| Sockets.Socket.MoveAssign | src/socket.cpp:31-38 | closes its own handle if it would, then has the handle and flag the other had, which has neither any more; onto itself only the closing remains; as the pool's action |
| Sockets.Socket.Close | src/socket.cpp:229-234 | the handle is closed if it is valid and was not closed by this object |
| Sockets.Socket.Connect | src/socket.cpp:52-55 | connected unless the call throws; a safe error counts as success |
| Sockets.Socket.Send | src/socket.cpp:97-101 | throws when not connected, otherwise hands the block to the system |
| Sockets.Socket.Recv | src/socket.cpp:88-95 | throws when not connected; the bytes received go to the place given and nowhere else; 0 closes |
| Endian.Swap16IsNetworkOrder | include/netsock/endian.hpp:26-28 | in memory the swapped integer is the reversal of the integer's bytes, which is its network order; read most significant byte first these bytes are the integer |
| Endian.Swap32IsNetworkOrder | include/netsock/endian.hpp:30-32 | the same for 32 bits |
| Endian.Swap64IsNetworkOrder | include/netsock/endian.hpp:34-36 | the same for 64 bits |
| Endian.Copy | include/netsock/endian.hpp:18-24 | between any two ranges, overlapping or not, the result is the bytes as they were, each at the place given by where the loop read it; nothing else changes |
| Endian.CopiedApart | include/netsock/endian.hpp:18-24 | between ranges that do not overlap the loop reverses, so doing it twice restores the bytes |
| Endian.CopiedOnto | include/netsock/endian.hpp:18-24 | a range copied onto itself keeps its bytes if and only if they are a palindrome |
| SocketAddresses.SocketAddress.constructor | src/socket_address.cpp:7-9 | no storage, and the pool stays separated |
| SocketAddresses.SocketAddress.Sized | src/socket_address.cpp:11-13 | zero bytes in storage of its own, and the pool stays separated |
| SocketAddresses.SocketAddress.Copy | src/socket_address.cpp:22-24 | the same bytes in storage of its own |
| SocketAddresses.SocketAddress.Move | src/socket_address.cpp:26-29 | takes the storage over and leaves the source empty |
| SocketAddresses.SocketAddress.CopyAssign | src/socket_address.cpp:31-39 | the same bytes in new storage, the old deleted once; nothing for itself |
| SocketAddresses.SocketAddress.MoveAssign | src/socket_address.cpp:41-48 | takes the storage over, the old deleted once; onto itself it ends empty |
| SocketAddresses.SocketAddress.Resize | src/socket_address.cpp:62-70 | keeps the bytes common to both sizes; new storage exactly when it grows |
| SocketAddresses.BytesBelowAllSizesSurvive | src/socket_address.cpp:62-70 | over any series of contents that resizes can produce, a byte below every size seen is unchanged |
| SocketAddresses.ResizeThrough | src/socket_address.cpp:62-70 | resizing an object through any list of sizes produces such a series; its bytes below all of them are the ones it started with, and the pool stays separated |
| SocketAddresses.OtherBytesAreIndeterminate | src/socket_address.cpp:62-70 | and only those are promised: for any other byte of the last size and any value there is a series that ends with it |
| Addresses.StoredWordIsGroup | src/impl/linux.cpp:241-246 | stored word i is the big-endian group 7-i of the 16-byte network address |
| Addresses.AddressesEqual | src/ip_address.cpp:60-69 | true exactly for the same family and address, whatever the scope |
| Addresses.EncodedFamily | src/impl/linux.cpp:292-308 | the family field in host order |
| Addresses.EncodedPort | src/impl/linux.cpp:297 | the port in network order at bytes 2 and 3 |
| Addresses.EncodedAddress | src/impl/linux.cpp:302-307 | an IPv4 address in network order at bytes 4 to 7, padding zero |
| Addresses.EncodedAddress6 | src/impl/linux.cpp:293-300 | flow info zero, group 7-i of the address field holding stored word i |
| Addresses.EncodedScope | src/impl/linux.cpp:298 | the scope in network order at bytes 24 to 27 |
| Addresses.DecodeInvertsEncode | src/impl/linux.cpp:277-308 | endpoint to socket address to endpoint restores family, port, address and scope |
| Addresses.EncodeDecodeNormalises | src/impl/linux.cpp:277-308 | the other way keeps family, port, address and scope bytes and makes every other byte zero; other families are refused |
| Addresses.NormalIsFixed | src/impl/linux.cpp:277-308 | that normalisation is idempotent and keeps the endpoint |
| Addresses.EqualIffEncodedAlike | src/ip_endpoint.cpp:52-54 | endpoints are equal if and only if their encodings agree outside the IPv6 scope |
| Addresses.EncodeIsInjective | src/ip_endpoint.cpp:48-50 | equal encodings come from identical endpoints |
| Addresses.ToSocketAddress | src/impl/linux.cpp:292-308 | the filled buffer is the encoding, in storage of its own |
| Addresses.ToEndpoint | src/impl/linux.cpp:277-290 | the endpoint is the decoding of the buffer, or invalid_argument for other families |
| EndpointParser.Find | src/ip_endpoint.cpp:14-25 | the first position of a character from a start, or none |
| EndpointParser.AddressCarriesNetwork | src/ip_address.cpp:16-24 | text is accepted exactly when inet_pton accepts it for the family its colons decide; the address then holds in network order the very bytes inet_pton gave |
| EndpointParser.ScopedCarriesNetwork | src/ip_address.cpp:35-38 | the constructor with a scope accepts exactly what inet_pton accepts as IPv6, and holds its bytes and the scope |
| EndpointParser.CharsDropScope | src/ip_address.cpp:35-42 | exactly when the two scoped constructors agree |
| EndpointParser.ParseEndpoint | src/ip_endpoint.cpp:13-33 | the step-by-step constructor returns what cutting the text and parsing the parts gives; which texts those are is in the next rows |
| EndpointParser.ParseInBrackets | src/ip_endpoint.cpp:15-23 | the same for its part with brackets |
| EndpointParser.BracketsNeedColon | src/ip_endpoint.cpp:14-21 | text with an opening bracket is cut exactly when a colon follows its first closing bracket, and is an invalid argument otherwise |
| EndpointParser.ParseOfBrackets | src/ip_endpoint.cpp:14-23 | by positions: the address stands between the first brackets, or after the opening one when they are the wrong way round, the port after the first colon behind the closing one; the address is refused first, and the port is cut to 16 bits |
| EndpointParser.ParseOfPlain | src/ip_endpoint.cpp:25-32 | without an opening bracket: the address stands before the first colon, the port after it |
| EndpointParser.AcceptedIff | src/ip_endpoint.cpp:13-33 | exactly which texts are accepted, by the positions of brackets and colon alone |
| EndpointParser.StoIReads | src/ip_endpoint.cpp:22 | stoi reads white space, an optional sign and all the digits that follow, leading zeros included, ignores the rest, and is out of range exactly beyond the ints |
| EndpointParser.StoIRefusesIff | src/ip_endpoint.cpp:22 | stoi is invalid_argument exactly for text that is not of that form |
| EndpointParser.StoIOfDecimal | src/ip_endpoint.cpp:22 | stoi inverts decimal notation on the ints and is out of range beyond |
| EndpointParser.SplitBracketed | src/ip_endpoint.cpp:14-23 | `[address]:port` is cut into these two if and only if the address holds no closing bracket |
| EndpointParser.SplitPlain | src/ip_endpoint.cpp:25-32 | `address:port`, when it holds no opening bracket, is cut into these two if and only if the address holds no colon |
| EndpointParser.ParseBracketed | src/ip_endpoint.cpp:14-23 | the bracketed canonical text of an address without closing bracket parses to that address and port, the port modulo 65536 up to the largest int, out of range beyond |
| EndpointParser.ParsePlain | src/ip_endpoint.cpp:25-32 | the same for the plain canonical text of an address without opening bracket or colon |
| EndpointParser.ParseWithoutPort | src/ip_endpoint.cpp:25-30 | text without colon or bracket is an address with port 0 |
| EndpointParser.Inet6NeedsBracket | src/ip_endpoint.cpp:13-33 | an accepted text gives an IPv6 endpoint only if it holds an opening bracket |
| EndpointParser.FamilyFollowsColon | src/ip_address.cpp:16-24 | for every accepted text the family is IPv6 exactly when the part cut out as the address holds a colon |
| EndpointParser.TextToWire | src/impl/linux.cpp:241-246 | a parsed bracketed text yields a socket address with the very bytes of inet_pton and the port in network order |
| PollLists.FlagsRoundTrip | src/impl/linux.cpp:113-119 | mapping flags out and back keeps exactly in, out and err |
| PollLists.FlagsAsked | src/impl/linux.cpp:113-115 | the system is asked for exactly the three events that the flags ask for, and no other bit is set |
| PollLists.EventsReported | src/impl/linux.cpp:117-119 | each of the four events is reported exactly when the system reports it, and nothing else |
| PollLists.CountReadyCounts | src/impl/linux.cpp:316-321 | the count returned is the number of entries with events |
| PollLists.PollList.Push | src/poll_list.cpp:16-18 | the socket and flags given, with result 0, at the end |
| PollLists.PollList.FindIf | src/poll_list.cpp:21-23 | the first entry of the handle |
| PollLists.PollList.Remove | src/poll_list.cpp:20-26 | the new list is that of the sequence function |
| PollLists.PollList.Result | src/poll_list.cpp:40-47 | the result of the first entry of the handle, 0 if there is none |
| PollLists.PollList.Poll | src/impl/linux.cpp:310-322 | descriptor i is asked with the handle of entry i, cast to int, and exactly the flags of entry i; result i is then the mapped answer i, or 0 after a safe error; sockets and flags stay, and an exception leaves the list |
| PollLists.RemovedTakesFirstOnly | src/poll_list.cpp:20-26 | remove takes the first entry of the handle only and keeps the order of all others |
| PollLists.PushThenRemove | src/poll_list.cpp:16-26 | pushing and removing an absent handle is the identity |
| PollLists.ResultAfterPoll | src/poll_list.cpp:28-47 | after a poll the result of a handle is the mapped answer for its first entry |
| PollLists.SinglePollAgrees | src/impl/linux.cpp:310-332 | the single poll and a one-entry list agree on every answer |

## Left out

- `impl::error_code` and the global error number: only which errors throw is modelled.
- `src/impl/windows.cpp`: repeats the Linux conversions over another system interface.
- `resolve_hosts` and `dns::resolve`: input and output around foreign calls.
- `tcp_client`, `tcp_listener`, `udp_socket`, `udp_connection`: they forward to `socket`; the stream model talks to its client's socket directly.
- `bind`, `listen`, socket options, timeouts and blocking mode: they only forward to the system.
- `recvfrom` and `sendto`: a receive of 0 closes as modelled by the pool's Close action; the datagram bytes are not modelled.
- `wait_read`, `wait_send`: they end only if the system is fair.
- `inet_pton`: an uninterpreted function from text to a network address.
- iostream sentries, locale and formatting: a stream is its good bit and its buffer.
- The 64-bit range of lengths and sizes apart from the `(int)` casts: sizes and handles are naturals.
- What the program does after an access outside its arrays: the outcome is `Wild`, and a run ends there in the state before it.
- The `endian_converter` for equal byte orders: `include/netsock/endian.hpp:13` never selects it.
- A handle opened by code other than netsock: the kernel table holds only handles given to sockets.
- `socket_address(address_family, size)`: not used by the library.
- `socket_address` has no destructor, so storage outlives its owner; only operations on live objects are modelled.
- Addresses.ToEndpoint: requires a buffer long enough for its family, as the casts in the source do.

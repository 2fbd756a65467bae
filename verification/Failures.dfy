/** How a failed send or recv reaches the caller: which answers of the system a call
    uses up, that an exception comes out exactly when the last of them throws, and
    what a call that throws leaves behind. */
module Failures {
  import opened Os
  import opened StreamModel
  import opened WriterProofs
  import opened ReaderProofs

  // ----- answers used by one call -----

  // The exception that an answer makes the wrapper throw, if any.
  function RecvFailure(a: RecvAnswer): Option<Failure> {
    if a.RecvFails? && FailedCall(a.errno).Thrown? then Some(FailedCall(a.errno).failure) else None
  }

  function SendFailure(a: SendAnswer): Option<Failure> {
    if a.SendFails? && FailedCall(a.errno).Thrown? then Some(FailedCall(a.errno).failure) else None
  }

  /** A call used up the answers that `after` lacks of `before`, up to one that throws:
      then it threw that failure and used no more; otherwise it did not throw. */
  ghost predicate Reported<A>(before: seq<A>, after: seq<A>, out: Outcome, failure: A -> Option<Failure>)
    decreases |before|
  {
    if |before| <= |after| then before == after && !out.Threw?
    else if failure(before[0]).Some? then after == before[1..] && out == Threw(failure(before[0]).value)
    else Reported(before[1..], after, out, failure)
  }

  /** By positions: `after` is what is left of `before`, and the call threw if and only
      if the last answer it used throws, with that failure. */
  predicate ThrewWithLast<A(==)>(before: seq<A>, after: seq<A>, out: Outcome, failure: A -> Option<Failure>) {
    var n := |before| - |after|;
    && 0 <= n && after == before[n..]
    && (forall i | 0 <= i < n - 1 :: failure(before[i]).None?)
    && (out.Threw? <==> 0 < n && failure(before[n - 1]).Some?)
    && (out.Threw? ==> failure(before[n - 1]) == Some(out.failure))
  }

  lemma {:induction false} ReportedMeans<A>(before: seq<A>, after: seq<A>, out: Outcome, failure: A -> Option<Failure>)
    requires Reported(before, after, out, failure)
    ensures ThrewWithLast(before, after, out, failure)
    decreases |before|
  {
    if |after| < |before| && failure(before[0]).None? {
      var n := |before| - |after|;
      ReportedMeans(before[1..], after, out, failure);
      assert before[1..][n - 1..] == before[n..];
      forall i | 0 <= i < n - 1
        ensures failure(before[i]).None?
      {
        if i > 0 { assert before[i] == before[1..][i - 1]; }
      }
    }
  }

  // Answers used without exception, then a call that goes on from there.
  lemma {:induction false} ReportedAfter<A>(a: seq<A>, b: seq<A>, c: seq<A>, quiet: Outcome, out: Outcome,
                                            failure: A -> Option<Failure>)
    requires !quiet.Threw? && Reported(a, b, quiet, failure) && Reported(b, c, out, failure)
    ensures Reported(a, c, out, failure)
    decreases |a|
  {
    ReportedMeans(b, c, out, failure);
    if |b| < |a| { ReportedAfter(a[1..], b, c, quiet, out, failure); }
  }

  lemma NothingUsed<A>(a: seq<A>, out: Outcome, failure: A -> Option<Failure>)
    requires !out.Threw?
    ensures Reported(a, a, out, failure)
  {
  }

  // A call of the wrapper, and an outcome that passes its exception on.
  predicate Passes(c: Call, out: Outcome) {
    if c.Thrown? then out == Threw(c.failure) else !out.Threw?
  }

  lemma RecvReports(link: Link, len: nat, out: Outcome)
    requires Passes(Recv(link, len).call, out)
    ensures Reported(link.recvs, Recv(link, len).link.recvs, out, RecvFailure)
  {
    if 0 <= IntLength(len) && link.recvs != [] {
      assert Recv(link, len).link.recvs == link.recvs[1..];
    } else {
      NothingUsed(link.recvs, out, RecvFailure);
    }
  }

  lemma SendReports(link: Link, data: seq<byte>, out: Outcome)
    requires Passes(Send(link, data).call, out)
    ensures Reported(link.sends, Send(link, data).link.sends, out, SendFailure)
  {
    if 0 <= IntLength(|data|) && link.sends != [] {
      assert Send(link, data).link.sends == link.sends[1..];
    } else {
      NothingUsed(link.sends, out, SendFailure);
    }
  }

  // ----- the read loop -----

  function Result(t: Turn): Outcome { if t.Done? then t.out else Ret(0) }

  lemma TurnPasses(l: Loop)
    requires l.Valid() && l.connected && 0 <= l.read < |l.dst|
    ensures var t, got := LoopTurn(l), Recv(l.link, |l.dst| - l.read);
            t.l.link == got.link && Passes(got.call, Result(t))
  {
  }

  lemma TurnReports(l: Loop)
    requires l.Valid()
    ensures var t := LoopTurn(l); Reported(l.link.recvs, t.l.link.recvs, Result(t), RecvFailure)
  {
    if l.connected && 0 <= l.read < |l.dst| {
      TurnPasses(l);
      RecvReports(l.link, |l.dst| - l.read, Result(LoopTurn(l)));
    } else {
      NothingUsed(l.link.recvs, Result(LoopTurn(l)), RecvFailure);
    }
  }

  lemma {:induction false} LoopReports(l: Loop)
    requires l.Valid()
    ensures var r := ReadLoop(l); Reported(l.link.recvs, r.l.link.recvs, r.out, RecvFailure)
    decreases |l.link.recvs|, l.connected, |l.dst| - l.read
  {
    var t := LoopTurn(l);
    TurnReports(l);
    if t.Again? {
      LoopReports(t.l);
      var r := ReadLoop(t.l);
      ReportedAfter(l.link.recvs, t.l.link.recvs, r.l.link.recvs, Ret(0), r.out, RecvFailure);
    }
  }

  lemma XsgetnReports(s: Stream, dst: seq<byte>)
    requires s.Shaped()
    ensures var r := Xsgetn(s, dst); Reported(s.link.recvs, r.next.link.recvs, r.out, RecvFailure)
  {
    if 0 <= Min(|dst|, s.gend - s.gpos) { LoopReports(LoopStart(s, dst)); }
  }

  // ----- every call -----

  lemma AfterReceivePasses(code: Code, s: Stream, c: Call)
    requires s.Shaped() && s.gpos == s.gend
    requires c.Returned? ==> c.count <= BUFFER_SIZE || c.count == SIZE_MAX
    ensures var r := AfterReceive(code, s, c); r.next.link == s.link && Passes(c, r.out)
  {
  }

  lemma RefillReports(code: Code, s: Stream)
    requires s.Shaped() && s.gpos == s.gend
    ensures var r := Refill(code, s); Reported(s.link.recvs, r.next.link.recvs, r.out, RecvFailure)
  {
    var got := Recv(s.link, BUFFER_SIZE);
    AfterReceivePasses(code, Arrived(s, got), got.call);
    RecvReports(s.link, BUFFER_SIZE, Refill(code, s).out);
  }

  lemma UnderflowReports(code: Code, s: Stream)
    requires s.Shaped()
    ensures var r := Underflow(code, s); Reported(s.link.recvs, r.next.link.recvs, r.out, RecvFailure)
  {
    if s.gpos == s.gend && s.connected {
      RefillReports(code, s);
    } else {
      NothingUsed(s.link.recvs, Underflow(code, s).out, RecvFailure);
    }
  }

  lemma PeekReports(code: Code, s: Stream)
    requires s.Shaped()
    ensures var r := Sgetc(code, s); Reported(s.link.recvs, r.next.link.recvs, r.out, RecvFailure)
  {
    if s.gpos < s.gend {
      NothingUsed(s.link.recvs, Sgetc(code, s).out, RecvFailure);
    } else {
      UnderflowReports(code, s);
    }
  }

  // The other read of a character gives the same answer.
  lemma GetCharReports(code: Code, s: Stream)
    requires s.Shaped()
    ensures var r := Sbumpc(code, s); Reported(s.link.recvs, r.next.link.recvs, r.out, RecvFailure)
  {
    var r, p := Sbumpc(code, s), Sgetc(code, s);
    assert r.out == p.out && r.next.link == p.next.link;
    PeekReports(code, s);
  }

  lemma FlushReports(s: Stream, block: seq<byte>)
    requires s.Shaped()
    ensures var r := FlushBlock(s, block); Reported(s.link.sends, r.next.link.sends, r.out, SendFailure)
  {
    SendReports(s.link, block, FlushBlock(s, block).out);
  }

  lemma SendAroundReports(s: Stream, data: seq<byte>)
    requires s.Shaped()
    ensures var r := SendAround(s, data); Reported(s.link.sends, r.next.link.sends, r.out, SendFailure)
  {
    SendReports(s.link, data, SendAround(s, data).out);
  }

  lemma SyncReports(s: Stream)
    requires s.Shaped()
    ensures var r := Sync(s); Reported(s.link.sends, r.next.link.sends, r.out, SendFailure)
  {
    if s.connected {
      SendReports(s.link, s.Pending(), Sync(s).out);
    } else {
      NothingUsed(s.link.sends, Eof, SendFailure);
    }
  }

  lemma OverflowReports(code: Code, s: Stream, c: Option<byte>)
    requires s.Shaped()
    ensures var r := Overflow(code, s, c); Reported(s.link.sends, r.next.link.sends, r.out, SendFailure)
  {
    var r := Overflow(code, s, c);
    if code.Repaired? && s.connected && c.Some? && s.ppos == BUFFER_SIZE {
      FlushReports(s, s.obuf);
      var f := FlushBlock(s, s.obuf);
      assert r.next.link.sends == f.next.link.sends && (r.out.Threw? || f.out.Threw? ==> r.out == f.out);
    } else {
      NothingUsed(s.link.sends, r.out, SendFailure);
    }
  }

  lemma SputcReports(code: Code, s: Stream, c: byte)
    requires s.Shaped()
    ensures var r := Sputc(code, s, c); Reported(s.link.sends, r.next.link.sends, r.out, SendFailure)
  {
    if s.ppos < BUFFER_SIZE {
      NothingUsed(s.link.sends, Sputc(code, s, c).out, SendFailure);
    } else {
      OverflowReports(code, s, Some(c));
    }
  }

  lemma XsputnReports(s: Stream, data: seq<byte>, flushFirst: bool)
    requires s.Shaped()
    ensures var r := Xsputn(s, data, flushFirst); Reported(s.link.sends, r.next.link.sends, r.out, SendFailure)
  {
    var r := Xsputn(s, data, flushFirst);
    if s.connected {
      var f := if flushFirst then FlushBlock(s, s.Pending()) else Answer(Ret(0), s);
      if flushFirst { FlushReports(s, s.Pending()); } else { NothingUsed(s.link.sends, f.out, SendFailure); }
      if f.out.Ret? {
        if |data| > BUFFER_SIZE {
          SendAroundReports(f.next, data);
        } else {
          NothingUsed(f.next.link.sends, r.out, SendFailure);
        }
        ReportedAfter(s.link.sends, f.next.link.sends, r.next.link.sends, f.out, r.out, SendFailure);
      }
    } else {
      NothingUsed(s.link.sends, Eof, SendFailure);
    }
  }

  lemma ReadReports(code: Code, s: Stream, op: Op)
    requires s.Shaped() && Reading(op)
    ensures var r := Step(code, s, op);
            Reported(s.link.recvs, r.next.link.recvs, r.out, RecvFailure) && r.next.link.sends == s.link.sends
  {
    ReadsLeavePutSide(code, s, op);
    match op
    case GetBlock(dst) => XsgetnReports(s, dst);
    case GetChar => GetCharReports(code, s);
    case _ => PeekReports(code, s);
  }

  lemma WriteReports(code: Code, s: Stream, op: Op)
    requires s.Shaped() && !Reading(op)
    ensures var r := Step(code, s, op);
            Reported(s.link.sends, r.next.link.sends, r.out, SendFailure) && r.next.link.recvs == s.link.recvs
  {
    WritesLeaveGetSide(code, s, op);
    match op
    case PutChar(c) => SputcReports(code, s, c);
    case PutBlock(data) => XsputnReports(s, data, CodedTest(|data|, s.ppos));
    case _ => SyncReports(s);
  }

  /** Whatever the system answers, a read of either version uses answers of recv only,
      and throws if and only if the last one it used does. */
  lemma ReadThrowsWithLast(code: Code, s: Stream, op: Op)
    requires s.Shaped() && Reading(op)
    ensures var r := Step(code, s, op);
            ThrewWithLast(s.link.recvs, r.next.link.recvs, r.out, RecvFailure) && r.next.link.sends == s.link.sends
  {
    var r := Step(code, s, op);
    ReadReports(code, s, op);
    ReportedMeans(s.link.recvs, r.next.link.recvs, r.out, RecvFailure);
  }

  /** The same for puts, flushes and syncs, and the answers of send. */
  lemma WriteThrowsWithLast(code: Code, s: Stream, op: Op)
    requires s.Shaped() && !Reading(op)
    ensures var r := Step(code, s, op);
            ThrewWithLast(s.link.sends, r.next.link.sends, r.out, SendFailure) && r.next.link.recvs == s.link.recvs
  {
    var r := Step(code, s, op);
    WriteReports(code, s, op);
    ReportedMeans(s.link.sends, r.next.link.sends, r.out, SendFailure);
  }

  // ----- runs -----

  // The exceptions in a list of answers, in order.
  function FailuresIn<A>(answers: seq<A>, failure: A -> Option<Failure>): seq<Failure> {
    if answers == [] then []
    else
      (if failure(answers[0]).Some? then [failure(answers[0]).value] else []) + FailuresIn(answers[1..], failure)
  }

  // The exceptions that the reads of a run, or its writes, threw.
  function Caught(ops: seq<Op>, outs: seq<Outcome>, reading: bool): seq<Failure>
    requires |outs| <= |ops|
    decreases |outs|
  {
    if outs == [] then []
    else
      (if Reading(ops[0]) == reading && outs[0].Threw? then [outs[0].failure] else [])
      + Caught(ops[1..], outs[1..], reading)
  }

  // The answers used up hold exactly these exceptions.
  ghost predicate Told<A>(before: seq<A>, after: seq<A>, seen: seq<Failure>, failure: A -> Option<Failure>)
    decreases |before|
  {
    if |before| <= |after| then before == after && seen == []
    else if failure(before[0]).Some? then
      seen != [] && seen[0] == failure(before[0]).value && Told(before[1..], after, seen[1..], failure)
    else Told(before[1..], after, seen, failure)
  }

  lemma {:induction false} ToldMeans<A>(before: seq<A>, after: seq<A>, seen: seq<Failure>,
                                        failure: A -> Option<Failure>)
    requires Told(before, after, seen, failure)
    ensures var n := |before| - |after|;
            0 <= n && after == before[n..] && FailuresIn(before[..n], failure) == seen
    decreases |before|
  {
    if |after| < |before| {
      var n := |before| - |after|;
      ToldMeans(before[1..], after, if failure(before[0]).Some? then seen[1..] else seen, failure);
      assert before[1..][n - 1..] == before[n..] && before[..n][1..] == before[1..][..n - 1];
    }
  }

  lemma ToldNothing<A>(a: seq<A>, failure: A -> Option<Failure>)
    ensures Told(a, a, [], failure)
  {
  }

  // What one call reported is what its answers held.
  lemma {:induction false} ToldOnce<A>(before: seq<A>, after: seq<A>, out: Outcome, failure: A -> Option<Failure>)
    requires Reported(before, after, out, failure)
    ensures Told(before, after, if out.Threw? then [out.failure] else [], failure)
    decreases |before|
  {
    if |after| < |before| && failure(before[0]).None? { ToldOnce(before[1..], after, out, failure); }
  }

  lemma {:induction false} ToldJoin<A>(a: seq<A>, b: seq<A>, c: seq<A>, x: seq<Failure>, y: seq<Failure>,
                                       failure: A -> Option<Failure>)
    requires Told(a, b, x, failure) && Told(b, c, y, failure)
    ensures Told(a, c, x + y, failure)
    decreases |a|
  {
    ToldMeans(b, c, y, failure);
    if |a| <= |b| {
      assert [] + y == y;
    } else if failure(a[0]).Some? {
      ToldJoin(a[1..], b, c, x[1..], y, failure);
      assert (x + y)[1..] == x[1..] + y;
    } else {
      ToldJoin(a[1..], b, c, x, y, failure);
    }
  }

  // The first call of a run, then the others; a run that left its arrays has no others.
  lemma CaughtFirst(ops: seq<Op>, out: Outcome, outs: seq<Outcome>, rest: seq<Op>, reading: bool)
    requires ops != [] && |outs| <= |rest| && rest == Later(out, ops)
    ensures Caught(ops, [out] + outs, reading)
         == (if Reading(ops[0]) == reading && out.Threw? then [out.failure] else []) + Caught(rest, outs, reading)
  {
    assert ([out] + outs)[1..] == outs;
    assert outs == [] || rest == ops[1..];
  }

  lemma StepTells(code: Code, s: Stream, op: Op)
    requires s.Shaped()
    ensures var r := Step(code, s, op);
            var seen := if r.out.Threw? then [r.out.failure] else [];
            && Told(s.link.recvs, r.next.link.recvs, if Reading(op) then seen else [], RecvFailure)
            && Told(s.link.sends, r.next.link.sends, if Reading(op) then [] else seen, SendFailure)
  {
    var r := Step(code, s, op);
    if Reading(op) {
      ReadReports(code, s, op);
      ToldOnce(s.link.recvs, r.next.link.recvs, r.out, RecvFailure);
      ToldNothing(s.link.sends, SendFailure);
    } else {
      WriteReports(code, s, op);
      ToldOnce(s.link.sends, r.next.link.sends, r.out, SendFailure);
      ToldNothing(s.link.recvs, RecvFailure);
    }
  }

  /** No failure is lost or made up: in any run of either version, the exceptions its
      reads threw are those in the answers of recv it used up, in order, and the same
      for its writes and the answers of send. */
  lemma {:induction false} RunReportsEveryFailure(code: Code, s: Stream, ops: seq<Op>)
    requires s.Shaped()
    ensures var t := Run(code, s, ops);
            && Told(s.link.recvs, t.last.link.recvs, Caught(ops, t.outs, true), RecvFailure)
            && Told(s.link.sends, t.last.link.sends, Caught(ops, t.outs, false), SendFailure)
    decreases |ops|
  {
    if ops != [] {
      var r := Step(code, s, ops[0]);
      var rest := Later(r.out, ops);
      var u := Run(code, r.next, rest);
      StepTells(code, s, ops[0]);
      RunReportsEveryFailure(code, r.next, rest);
      CaughtFirst(ops, r.out, u.outs, rest, true);
      CaughtFirst(ops, r.out, u.outs, rest, false);
      var seen := if r.out.Threw? then [r.out.failure] else [];
      ToldJoin(s.link.recvs, r.next.link.recvs, u.last.link.recvs,
               if Reading(ops[0]) then seen else [], Caught(rest, u.outs, true), RecvFailure);
      ToldJoin(s.link.sends, r.next.link.sends, u.last.link.sends,
               if Reading(ops[0]) then [] else seen, Caught(rest, u.outs, false), SendFailure);
    }
  }

  // ----- what a call that fails leaves -----

  // A read that throws keeps the connection; the caller may try again.
  lemma {:induction false} LoopEndsIffClosed(l: Loop)
    requires l.Valid() && l.connected
    ensures var r := ReadLoop(l); r.out == Eof <==> !r.l.connected
    decreases |l.link.recvs|, l.connected, |l.dst| - l.read
  {
    var t := LoopTurn(l);
    if t.Again? {
      if t.l.connected { LoopEndsIffClosed(t.l); } else { assert LoopTurn(t.l) == Done(Eof, t.l); }
    }
  }

  /** On a live connection a block read of either version reports eof if and only if
      it closed the connection, whatever the system answers: an exception never does. */
  lemma BlockReadEndsIffClosed(s: Stream, dst: seq<byte>)
    requires s.Shaped() && s.connected
    ensures var r := Xsgetn(s, dst); r.out == Eof <==> !r.next.connected
  {
    if 0 <= Min(|dst|, s.gend - s.gpos) { LoopEndsIffClosed(LoopStart(s, dst)); }
  }

  // A character read closes exactly when it has to ask and recv finds the end.
  lemma CharReadClosesIff(code: Code, s: Stream, op: Op)
    requires s.Shaped() && s.connected && (op.PeekChar? || op.GetChar?)
    ensures !Step(code, s, op).next.connected
            <==> s.gpos == s.gend && s.link.inbound == [] && s.link.NextRecv().Gives?
  {
  }
}

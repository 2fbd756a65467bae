/** What happens to the bytes that callers hand to the stream: the ledger of
    flushed blocks, exact conservation, and independence from when the put area
    is flushed. Everything holds for the code as written unless a statement names
    the repaired version. */
module WriterProofs {
  import opened Os
  import opened StreamModel

  // ----- the ledger -----

  predicate Complete(log: seq<Flush>) { forall i | 0 <= i < |log| :: log[i].sent == |log[i].block| }

  /** The put side accounts for every byte: what was on the wire before history
      began, then the sent prefix of each flushed block, is the wire; and the
      flushed blocks followed by the pending bytes are what callers handed over. */
  predicate Ledger(s: Stream, base: seq<byte>, accepted: seq<byte>)
    requires s.Shaped()
  {
    && WellLogged(s.log)
    && s.link.wire == base + Sents(s.log)
    && accepted == Blocks(s.log) + s.Pending()
  }

  lemma LogSnoc(log: seq<Flush>, f: Flush)
    requires WellLogged(log) && f.sent <= |f.block|
    ensures WellLogged(log + [f])
    ensures Blocks(log + [f]) == Blocks(log) + f.block
    ensures Sents(log + [f]) == Sents(log) + f.block[..f.sent]
  {
    assert (log + [f])[..|log|] == log;
  }

  // A ledger after a block is logged: the wire grew by its sent part, and with the
  // block the flushed and pending bytes are what was accepted.
  lemma LoggedKeepsLedger(s: Stream, t: Stream, f: Flush, base: seq<byte>, accepted: seq<byte>)
    requires s.Shaped() && t.Shaped() && WellLogged(s.log) && f.sent <= |f.block|
    requires s.link.wire == base + Sents(s.log)
    requires t.log == s.log + [f] && t.link.wire == s.link.wire + f.block[..f.sent]
    requires Blocks(s.log) + f.block + t.Pending() == accepted
    ensures Ledger(t, base, accepted)
  {
    LogSnoc(s.log, f);
    Regroup(base, Sents(s.log), f.block[..f.sent]);
  }

  // Nothing was logged, and nothing reached the wire.
  lemma UnloggedKeepsLedger(s: Stream, t: Stream, base: seq<byte>, accepted: seq<byte>)
    requires s.Shaped() && t.Shaped() && Ledger(s, base, accepted)
    requires t.log == s.log && t.Pending() == s.Pending() && t.link.wire == s.link.wire
    ensures Ledger(t, base, accepted) && Ledger(t, base, accepted + [])
  {
    AppendNothing(accepted);
  }

  // A byte or a block copied into the put area.
  lemma CopiedKeepsLedger(s: Stream, t: Stream, data: seq<byte>, base: seq<byte>, accepted: seq<byte>)
    requires s.Shaped() && t.Shaped() && Ledger(s, base, accepted)
    requires t.log == s.log && t.Pending() == s.Pending() + data && t.link.wire == s.link.wire
    ensures Ledger(t, base, accepted + data)
  {
    Regroup(Blocks(s.log), s.Pending(), data);
  }

  lemma UnsentLeavesWire(link: Link, data: seq<byte>)
    requires !Send(link, data).call.Returned?
    ensures Send(link, data).link.wire == link.wire
  {
    AppendNothing(link.wire);
  }

  lemma FlushKeepsLedger(s: Stream, base: seq<byte>, accepted: seq<byte>)
    requires s.Shaped() && Ledger(s, base, accepted)
    ensures var f := FlushBlock(s, s.Pending());
            Ledger(f.next, base, accepted) && (f.out.Ret? ==> f.next.Pending() == [])
  {
    var sent, f := Send(s.link, s.Pending()), FlushBlock(s, s.Pending()).next;
    if sent.call.Returned? {
      AppendNothing(Blocks(s.log) + s.Pending());
      LoggedKeepsLedger(s, f, Flush(s.Pending(), sent.moved), base, accepted);
    } else {
      UnsentLeavesWire(s.link, s.Pending());
      UnloggedKeepsLedger(s, f, base, accepted);
    }
  }

  lemma SendAroundKeepsLedger(s: Stream, data: seq<byte>, base: seq<byte>, accepted: seq<byte>)
    requires s.Shaped() && Ledger(s, base, accepted) && s.ppos == 0
    ensures var r := SendAround(s, data);
            Ledger(r.next, base, accepted + if r.out == Ret(|data|) then data else [])
  {
    var sent, r := Send(s.link, data), SendAround(s, data).next;
    if sent.call.Returned? {
      AppendNothing(Blocks(s.log));
      AppendNothing(Blocks(s.log) + data);
      LoggedKeepsLedger(s, r, Flush(data, sent.moved), base, accepted + data);
    } else {
      UnsentLeavesWire(s.link, data);
      UnloggedKeepsLedger(s, r, base, accepted);
    }
  }

  lemma CopyInKeepsLedger(s: Stream, data: seq<byte>, base: seq<byte>, accepted: seq<byte>)
    requires s.Shaped() && Ledger(s, base, accepted)
    ensures var r := CopyIn(s, data);
            Ledger(r.next, base, accepted + if r.out == Ret(|data|) then data else [])
  {
    if s.ppos + |data| <= BUFFER_SIZE {
      CopiedKeepsLedger(s, CopyIn(s, data).next, data, base, accepted);
    } else {
      AppendNothing(accepted);
    }
  }

  // A flush decision that never lets a block overrun or overtake pending bytes.
  predicate Timely(s: Stream, data: seq<byte>, flushFirst: bool) {
    0 < s.ppos && FreeSpaceTest(|data|, s.ppos) ==> flushFirst
  }

  lemma PutBlockKeepsLedger(s: Stream, data: seq<byte>, flushFirst: bool, base: seq<byte>, accepted: seq<byte>)
    requires s.Shaped() && Ledger(s, base, accepted)
    requires Timely(s, data, flushFirst)
    ensures var r := Xsputn(s, data, flushFirst);
            Ledger(r.next, base, accepted + if r.out == Ret(|data|) then data else [])
  {
    if s.connected {
      FlushKeepsLedger(s, base, accepted);
      var f := if flushFirst then FlushBlock(s, s.Pending()) else Answer(Ret(0), s);
      if !f.out.Ret? {
        AppendNothing(accepted);
      } else if |data| > BUFFER_SIZE {
        SendAroundKeepsLedger(f.next, data, base, accepted);
      } else {
        CopyInKeepsLedger(f.next, data, base, accepted);
      }
    } else {
      AppendNothing(accepted);
    }
  }

  lemma SyncKeepsLedger(s: Stream, base: seq<byte>, accepted: seq<byte>)
    requires s.Shaped() && Ledger(s, base, accepted)
    ensures Ledger(Sync(s).next, base, accepted)
  {
    var sent, r := Send(s.link, s.Pending()), Sync(s);
    if s.connected && sent.call.Returned? && r.out != Eof {
      AppendNothing(Blocks(s.log) + s.Pending());
      LoggedKeepsLedger(s, r.next, Flush(s.Pending(), sent.moved), base, accepted);
    } else {
      AppendNothing(s.link.wire);
      UnloggedKeepsLedger(s, r.next, base, accepted);
    }
  }

  // The repaired overflow: flush what is pending, then store.
  lemma OverflowKeepsLedger(s: Stream, c: byte, base: seq<byte>, accepted: seq<byte>)
    requires s.Shaped() && Ledger(s, base, accepted) && s.connected && s.ppos == BUFFER_SIZE
    ensures var r := Overflow(Repaired, s, Some(c));
            Ledger(r.next, base, accepted + if r.out == Char(c) then [c] else [])
  {
    FlushKeepsLedger(s, base, accepted);
    assert s.Pending() == s.obuf;
    var f := FlushBlock(s, s.obuf);
    if f.out.Ret? {
      CopiedKeepsLedger(f.next, Overflow(Repaired, s, Some(c)).next, [c], base, accepted);
    } else {
      AppendNothing(accepted);
    }
  }

  lemma PutCharKeepsLedger(code: Code, s: Stream, c: byte, base: seq<byte>, accepted: seq<byte>)
    requires s.Shaped() && Ledger(s, base, accepted)
    ensures var r := Sputc(code, s, c);
            Ledger(r.next, base, accepted + if r.out == Char(c) then [c] else [])
  {
    if s.ppos < BUFFER_SIZE {
      CopiedKeepsLedger(s, Sputc(code, s, c).next, [c], base, accepted);
    } else if s.connected && code.Repaired? {
      OverflowKeepsLedger(s, c, base, accepted);
    } else {
      AppendNothing(accepted);
    }
  }

  predicate Reading(op: Op) { op.PeekChar? || op.GetChar? || op.GetBlock? }

  lemma ReadsLeavePutSide(code: Code, s: Stream, op: Op)
    requires s.Shaped() && Reading(op)
    ensures var r := Step(code, s, op);
            && r.next.obuf == s.obuf && r.next.ppos == s.ppos && r.next.log == s.log
            && r.next.link.wire == s.link.wire && r.next.link.sends == s.link.sends
            && Accepted(op, r.out) == []
  {
  }

  lemma StepKeepsLedger(code: Code, s: Stream, op: Op, base: seq<byte>, accepted: seq<byte>)
    requires s.Shaped() && Ledger(s, base, accepted)
    ensures var r := Step(code, s, op); Ledger(r.next, base, accepted + Accepted(op, r.out))
  {
    if Reading(op) {
      ReadsLeavePutSide(code, s, op);
      AppendNothing(accepted);
    } else if op.PutChar? {
      PutCharKeepsLedger(code, s, op.c, base, accepted);
    } else if op.PutBlock? {
      PutBlockKeepsLedger(s, op.data, CodedTest(|op.data|, s.ppos), base, accepted);
    } else {
      SyncKeepsLedger(s, base, accepted);
      AppendNothing(accepted);
    }
  }

  // Whatever the system answers, every run keeps the ledger.
  lemma {:induction false} RunKeepsLedger(code: Code, s: Stream, ops: seq<Op>, base: seq<byte>, accepted: seq<byte>)
    requires s.Shaped() && Ledger(s, base, accepted)
    ensures var t := Run(code, s, ops); Ledger(t.last, base, accepted + t.accepted)
    decreases |ops|
  {
    if ops != [] {
      var r := Step(code, s, ops[0]);
      var a := Accepted(ops[0], r.out);
      StepKeepsLedger(code, s, ops[0], base, accepted);
      RunKeepsLedger(code, r.next, Later(r.out, ops), base, accepted + a);
      Regroup(accepted, a, Run(code, r.next, Later(r.out, ops)).accepted);
    } else {
      AppendNothing(accepted);
    }
  }

  // ----- subsequence -----

  // Strictly increasing positions at which b carries the bytes of a.
  predicate Embeds(at: seq<nat>, a: seq<byte>, b: seq<byte>) {
    && |at| == |a|
    && (forall i | 0 <= i < |at| :: at[i] < |b| && b[at[i]] == a[i])
    && (forall i, j | 0 <= i < j < |at| :: at[i] < at[j])
  }

  ghost predicate IsSubsequence(a: seq<byte>, b: seq<byte>) { exists at: seq<nat> :: Embeds(at, a, b) }

  function SentPositions(log: seq<Flush>): (at: seq<nat>)
    requires WellLogged(log)
    ensures Embeds(at, Sents(log), Blocks(log))
  {
    if log == [] then []
    else
      var early := log[..|log| - 1];
      var last := log[|log| - 1];
      SentPositions(early) + seq(last.sent, i requires 0 <= i < last.sent => |Blocks(early)| + i)
  }

  lemma {:induction false} CompleteIffSameLength(log: seq<Flush>)
    requires WellLogged(log)
    ensures |Sents(log)| <= |Blocks(log)|
    ensures Complete(log) <==> |Sents(log)| == |Blocks(log)|
    ensures Complete(log) ==> Sents(log) == Blocks(log)
  {
    if log != [] {
      var early := log[..|log| - 1];
      CompleteIffSameLength(early);
      assert Complete(log) <==> Complete(early) && log[|log| - 1].sent == |log[|log| - 1].block|;
    }
  }

  lemma SubsequenceExtends(a: seq<byte>, b: seq<byte>, more: seq<byte>, at: seq<nat>)
    requires Embeds(at, a, b)
    ensures IsSubsequence(a, b + more)
  {
    assert Embeds(at, a, b + more);
  }

  // What a ledger says about one state.
  lemma LedgerMeans(s: Stream, base: seq<byte>, accepted: seq<byte>)
    requires s.Shaped() && Ledger(s, base, accepted)
    ensures base <= s.link.wire && s.link.wire[|base|..] == Sents(s.log)
    ensures IsSubsequence(s.link.wire[|base|..], accepted)
    ensures s.link.wire + s.Pending() == base + accepted <==> Complete(s.log)
  {
    SubsequenceExtends(Sents(s.log), Blocks(s.log), s.Pending(), SentPositions(s.log));
    CompleteIffSameLength(s.log);
    if Complete(s.log) {
      assert base + Blocks(s.log) + s.Pending() == base + (Blocks(s.log) + s.Pending());
    } else {
      assert |s.link.wire + s.Pending()| < |base + accepted|;
    }
  }

  /** Under arbitrary short and failed sends, in any run: what reached the wire is
      an in-order subsequence of the accepted bytes, made of a prefix of each
      flushed block, and wire plus pending is exactly what was accepted if and only
      if every flush was complete. */
  lemma WireIsSubsequence(code: Code, s: Stream, ops: seq<Op>)
    requires s.Shaped() && s.log == []
    ensures var t := Run(code, s, ops);
            var accepted := s.Pending() + t.accepted;
            && WellLogged(t.last.log)
            && s.link.wire <= t.last.link.wire
            && t.last.link.wire[|s.link.wire|..] == Sents(t.last.log)
            && Blocks(t.last.log) + t.last.Pending() == accepted
            && IsSubsequence(t.last.link.wire[|s.link.wire|..], accepted)
            && (t.last.link.wire + t.last.Pending() == s.link.wire + accepted <==> Complete(t.last.log))
  {
    RunKeepsLedger(code, s, ops, s.link.wire, s.Pending());
    LedgerMeans(Run(code, s, ops).last, s.link.wire, s.Pending() + Run(code, s, ops).accepted);
  }

  /** A sync that sent nothing keeps the block: it reports eof and leaves wire,
      pending bytes and log as they were, so a retry sends the block once. */
  lemma FruitlessSyncKeepsBlock(s: Stream)
    requires s.Shaped() && s.connected && s.ppos != 0 && Send(s.link, s.Pending()).call == Returned(0)
    ensures var r := Sync(s);
            r.out == Eof && r.next == s.(link := r.next.link) && r.next.link.wire == s.link.wire
  {
  }

  // ----- exact conservation -----

  // The blocks whose `(int)len` casts keep their length.
  predicate BlockFits(op: Op) { op.PutBlock? ==> |op.data| <= INT_MAX }

  predicate AllBlocksFit(ops: seq<Op>) { forall i | 0 <= i < |ops| :: BlockFits(ops[i]) }

  lemma FlushStaysComplete(s: Stream, block: seq<byte>)
    requires s.Shaped() && s.link.FullSends() && Complete(s.log) && |block| <= INT_MAX
    ensures var f := FlushBlock(s, block); f.next.link.FullSends() && Complete(f.next.log)
  {
  }

  lemma StepStaysComplete(code: Code, s: Stream, op: Op)
    requires s.Shaped() && s.link.FullSends() && Complete(s.log) && BlockFits(op)
    ensures var r := Step(code, s, op); r.next.link.FullSends() && Complete(r.next.log)
  {
    if Reading(op) {
      ReadsLeavePutSide(code, s, op);
    } else if op.PutChar? {
      FlushStaysComplete(s, s.obuf);
    } else if op.PutBlock? {
      FlushStaysComplete(s, s.Pending());
    }
  }

  lemma {:induction false} RunStaysComplete(code: Code, s: Stream, ops: seq<Op>)
    requires s.Shaped() && s.link.FullSends() && Complete(s.log) && AllBlocksFit(ops)
    ensures var t := Run(code, s, ops); t.last.link.FullSends() && Complete(t.last.log)
    decreases |ops|
  {
    if ops != [] {
      StepStaysComplete(code, s, ops[0]);
      var r := Step(code, s, ops[0]);
      RunStaysComplete(code, r.next, Later(r.out, ops));
    }
  }

  /** Conservation: when the system takes every block whole, wire followed by
      pending is what was there before followed by everything accepted, in order. */
  lemma WriterConservation(code: Code, s: Stream, ops: seq<Op>)
    requires s.Shaped() && s.log == [] && s.link.FullSends() && AllBlocksFit(ops)
    ensures var t := Run(code, s, ops);
            t.last.link.wire + t.last.Pending() == s.link.wire + s.Pending() + t.accepted
  {
    WireIsSubsequence(code, s, ops);
    RunStaysComplete(code, s, ops);
    Regroup(s.link.wire, s.Pending(), Run(code, s, ops).accepted);
  }

  // ----- flush timing -----

  // Writes blocks under a flush policy, then syncs.
  function WriteAll(policy: (int, int) -> bool, s: Stream, blocks: seq<seq<byte>>): (last: Stream)
    requires s.Shaped()
    ensures last.Shaped()
    decreases |blocks|
  {
    if blocks == [] then Sync(s).next
    else WriteAll(policy, Xsputn(s, blocks[0], policy(|blocks[0]|, s.ppos)).next, blocks[1..])
  }

  ghost predicate TimelyPolicy(policy: (int, int) -> bool) {
    forall n: int, ppos: int :: 0 < ppos <= BUFFER_SIZE && FreeSpaceTest(n, ppos) ==> policy(n, ppos)
  }

  predicate BlocksFit(blocks: seq<seq<byte>>) { forall i | 0 <= i < |blocks| :: |blocks[i]| <= INT_MAX }

  lemma PutBlockConserves(s: Stream, data: seq<byte>, flushFirst: bool)
    requires s.Shaped() && s.connected && s.link.FullSends() && |data| <= INT_MAX && Timely(s, data, flushFirst)
    ensures var r := Xsputn(s, data, flushFirst);
            && r.out == Ret(|data|) && r.next.connected && r.next.link.FullSends()
            && r.next.link.wire + r.next.Pending() == s.link.wire + s.Pending() + data
  {
  }

  /** The `(int)len` casts decide: with whole sends a block is accepted and carried
      in order if and only if its length fits in an int. */
  lemma BlockCarriedIffFits(s: Stream, data: seq<byte>)
    requires s.Shaped() && s.connected && s.link.FullSends()
    ensures var r := Xsputn(s, data, CodedTest(|data|, s.ppos));
            (r.out == Ret(|data|) && r.next.link.wire + r.next.Pending() == s.link.wire + s.Pending() + data)
            <==> |data| <= INT_MAX
  {
  }

  // The final sync empties the put area onto the wire.
  lemma SyncConserves(s: Stream)
    requires s.Shaped() && s.connected && s.link.FullSends()
    ensures Sync(s).out == Ret(0) && Sync(s).next.Pending() == []
    ensures Sync(s).next.link.wire == s.link.wire + s.Pending()
  {
  }

  // Any timely flush policy puts the same bytes on the wire as sending every
  // block directly after the pending bytes.
  lemma {:induction false} FlushTimingIndependence(policy: (int, int) -> bool, s: Stream, blocks: seq<seq<byte>>)
    requires TimelyPolicy(policy) && BlocksFit(blocks)
    requires s.Shaped() && s.connected && s.link.FullSends()
    ensures var last := WriteAll(policy, s, blocks);
            last.link.wire == s.link.wire + s.Pending() + Flat(blocks) && last.Pending() == []
    decreases |blocks|
  {
    var sofar := s.link.wire + s.Pending();
    if blocks == [] {
      SyncConserves(s);
      AppendNothing(sofar);
    } else {
      var data := blocks[0];
      PutBlockConserves(s, data, policy(|data|, s.ppos));
      FlushTimingIndependence(policy, Xsputn(s, data, policy(|data|, s.ppos)).next, blocks[1..]);
      Regroup(sofar, data, Flat(blocks[1..]));
    }
  }

  // The coded test, which always flushes, and the free-space test are both timely.
  lemma CodedAndFreeSpaceTestsAgree(s: Stream, blocks: seq<seq<byte>>)
    requires BlocksFit(blocks) && s.Shaped() && s.connected && s.link.FullSends()
    ensures WriteAll((n, p) => CodedTest(n, p), s, blocks).link.wire
         == WriteAll((n, p) => FreeSpaceTest(n, p), s, blocks).link.wire
  {
    FlushTimingIndependence((n, p) => CodedTest(n, p), s, blocks);
    FlushTimingIndependence((n, p) => FreeSpaceTest(n, p), s, blocks);
  }

  // A put area holding n zero bytes, ready to send.
  function ZeroPending(n: nat): Stream
    requires n <= BUFFER_SIZE
  {
    var zeros := seq(BUFFER_SIZE, i => 0 as byte);
    Stream(zeros, 0, 0, zeros, n, true, Link([], [], [], []), [])
  }

  /** Timeliness is necessary: for every fill level and length at which a decision
      not to flush is untimely, some stream loses or reorders bytes. */
  lemma UntimelyDecisionFails(n: nat, ppos: nat)
    requires 0 < ppos <= BUFFER_SIZE && FreeSpaceTest(n, ppos) && n <= INT_MAX
    ensures exists s: Stream, data: seq<byte> ::
              && s.Valid() && s.connected && s.link.FullSends() && s.ppos == ppos && |data| == n
              && (var r := Xsputn(s, data, false);
                  r.out == Wild || r.next.link.wire + r.next.Pending() != s.link.wire + s.Pending() + data)
  {
    var s := ZeroPending(ppos);
    var data := seq(n, i => 1 as byte);
    var r := Xsputn(s, data, false);
    if r.out != Wild {
      assert (r.next.link.wire + r.next.Pending())[0] == 1;
      assert (s.link.wire + s.Pending() + data)[0] == 0;
    }
  }

  // ----- a stream that lost its connection -----

  lemma DisconnectedStep(code: Code, s: Stream, op: Op)
    requires s.Shaped() && !s.connected
    ensures var r := Step(code, s, op);
            && !r.next.connected && r.next.link == s.link
            && (op.PutBlock? || op.Flushing? ==> r.out == Eof)
  {
  }

  // Nothing a disconnected stream is asked to do reaches the wire or reconnects
  // it; block writes and syncs report eof.
  lemma {:induction false} DisconnectedStaysSilent(code: Code, s: Stream, ops: seq<Op>)
    requires s.Shaped() && !s.connected
    ensures var t := Run(code, s, ops);
            && !t.last.connected && t.last.link == s.link
            && forall i | 0 <= i < |t.outs| :: ops[i].PutBlock? || ops[i].Flushing? ==> t.outs[i] == Eof
    decreases |ops|
  {
    if ops != [] {
      DisconnectedStep(code, s, ops[0]);
      var r := Step(code, s, ops[0]);
      DisconnectedStaysSilent(code, r.next, Later(r.out, ops));
    }
  }
}

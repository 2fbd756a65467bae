/** What becomes of the get side of the code as written once a character read got no
    byte: the get pointer passes the end of what was received, and from then on the
    stream hands out old bytes and never asks the system again. */
module CodedReads {
  import opened Os
  import opened StreamModel
  import opened WriterProofs
  import opened ReaderProofs

  // The get pointer is past the end of the get area.
  predicate Stuck(s: Stream) { s.Shaped() && s.gend < s.gpos }

  // The character read that found nothing was told so by a wrapped -1.
  predicate MeetsWrap(s: Stream) { Recv(s.link, BUFFER_SIZE).call == Returned(SIZE_MAX) }

  // The calls of the code as written that leave the stream stuck.
  predicate Sticks(s: Stream, op: Op) {
    ReadsNothing(s) && (op.GetChar? || (op.PeekChar? && MeetsWrap(s)))
  }

  /** Exactly which calls do: taking a character at the end of the stream, and taking
      or peeking at one when recv answers with a safe error. A peek at the end does
      not; its get area is empty, and the next one reports eof. */
  lemma SticksExactly(s: Stream, op: Op)
    requires s.Valid()
    ensures Stuck(Step(AsWritten, s, op).next) <==> Sticks(s, op)
    ensures !Sticks(s, op) ==> Step(AsWritten, s, op).next.Valid()
  {
  }

  // The state such a read leaves: the pointers at the start of the area and at what
  // was received, 0 bytes at the end of the stream and -1 after a safe error.
  lemma ReadOfNothingLeaves(s: Stream)
    requires s.Valid() && ReadsNothing(s)
    ensures var p := Step(AsWritten, s, PeekChar);
            && p.out == Char(s.ibuf[0]) && p.next.ibuf == s.ibuf && p.next.gpos == 0
            && p.next.gend == (if MeetsWrap(s) then -1 else 0) && p.next.connected == MeetsWrap(s)
            && Step(AsWritten, s, GetChar) == Taken(p.out, [], [s.ibuf[0]], p.next.(gpos := 1))
  {
    AppendNothing(s.ibuf);
    assert s.ibuf[0..] == s.ibuf;
  }

  lemma PeekAtEndThenEof(s: Stream)
    requires s.Valid() && ReadsNothing(s) && !MeetsWrap(s)
    ensures var n := Step(AsWritten, s, PeekChar).next;
            !n.connected && n.Avail() == [] && Step(AsWritten, n, PeekChar).out == Eof
  {
    ReadOfNothingLeaves(s);
  }

  // What a stuck stream answers.
  lemma StuckStep(s: Stream, op: Op)
    requires Stuck(s)
    ensures var r := Step(AsWritten, s, op);
            && Stuck(r.next) && r.next.ibuf == s.ibuf && r.next.connected == s.connected
            && r.next.link.inbound == s.link.inbound && r.next.link.recvs == s.link.recvs
            && r.got == s.ibuf[s.gpos..r.next.gpos]
            && (op.GetBlock? ==> r.out == Wild)
            && (op.PeekChar? || op.GetChar? ==>
                  r.out == if s.gpos < BUFFER_SIZE then Char(s.ibuf[s.gpos]) else Wild)
            && r.next.gpos == s.gpos + if op.GetChar? && s.gpos < BUFFER_SIZE then 1 else 0
  {
    var r := Step(AsWritten, s, op);
    if op.GetChar? && s.gpos < BUFFER_SIZE {
      assert r.got == s.ibuf[s.gpos..s.gpos + 1];
    } else {
      assert s.ibuf[s.gpos..s.gpos] == [];
      if !Reading(op) { WritesLeaveGetSide(AsWritten, s, op); }
    }
  }

  lemma SlicesJoin(b: seq<byte>, i: nat, j: nat, k: nat)
    requires i <= j <= k <= |b|
    ensures b[i..j] + b[j..k] == b[i..k]
  {
  }

  /** For good: whatever is asked of a stuck stream, it receives nothing any more, and
      what it delivers are the old bytes of the area in order, up to the end of it. */
  lemma {:induction false} StuckForGood(s: Stream, ops: seq<Op>)
    requires Stuck(s)
    ensures var t := Run(AsWritten, s, ops);
            && Stuck(t.last) && t.last.ibuf == s.ibuf && t.last.connected == s.connected
            && t.last.link.inbound == s.link.inbound && t.last.link.recvs == s.link.recvs
            && s.gpos <= t.last.gpos && Flat(t.got) == s.ibuf[s.gpos..t.last.gpos]
    decreases |ops|
  {
    if ops != [] {
      var r := Step(AsWritten, s, ops[0]);
      StuckStep(s, ops[0]);
      StuckForGood(r.next, Later(r.out, ops));
      SlicesJoin(s.ibuf, s.gpos, r.next.gpos, Run(AsWritten, s, ops).last.gpos);
    }
  }

  predicate SticksSometime(s: Stream, ops: seq<Op>)
    requires s.Valid()
    decreases |ops|
  {
    && ops != []
    && (Sticks(s, ops[0])
        || (SticksExactly(s, ops[0]);
            var r := Step(AsWritten, s, ops[0]); SticksSometime(r.next, Later(r.out, ops))))
  }

  /** Exactly which runs of the code as written end with the get pointer past the end. */
  lemma {:induction false} RunSticksIff(s: Stream, ops: seq<Op>)
    requires s.Valid()
    ensures Stuck(Run(AsWritten, s, ops).last) <==> SticksSometime(s, ops)
    decreases |ops|
  {
    if ops != [] {
      var r := Step(AsWritten, s, ops[0]);
      SticksExactly(s, ops[0]);
      if Sticks(s, ops[0]) {
        StuckForGood(r.next, Later(r.out, ops));
      } else {
        RunSticksIff(r.next, Later(r.out, ops));
      }
    }
  }

  function Gets(n: nat): seq<Op> { seq(n, _ => GetChar) }

  function Chars(bytes: seq<byte>): seq<Outcome> { seq(|bytes|, i requires 0 <= i < |bytes| => Char(bytes[i])) }

  lemma RunOfGets(s: Stream, n: nat)
    requires s.Shaped()
    ensures var t, r := Run(AsWritten, s, Gets(n + 1)), Step(AsWritten, s, GetChar);
            t.outs == if r.out == Wild then [Wild] else [r.out] + Run(AsWritten, r.next, Gets(n)).outs
  {
    assert Gets(n + 1)[0] == GetChar && Gets(n + 1)[1..] == Gets(n);
    assert Run(AsWritten, Step(AsWritten, s, GetChar).next, []).outs == [];
  }

  lemma FirstChar(bytes: seq<byte>, i: nat, rest: seq<Outcome>)
    requires i < |bytes|
    ensures [Char(bytes[i])] + (Chars(bytes[i + 1..]) + rest) == Chars(bytes[i..]) + rest
  {
  }

  lemma {:induction false} StaleRun(s: Stream, n: nat)
    requires Stuck(s) && s.gpos + n == BUFFER_SIZE
    ensures Run(AsWritten, s, Gets(n + 1)).outs == Chars(s.ibuf[s.gpos..]) + [Wild]
    decreases n
  {
    RunOfGets(s, n);
    StuckStep(s, GetChar);
    if n == 0 {
      assert Chars(s.ibuf[s.gpos..]) == [];
    } else {
      var next := Step(AsWritten, s, GetChar).next;
      StaleRun(next, n - 1);
      FirstChar(s.ibuf, s.gpos, [Wild]);
    }
  }

  lemma FirstStale(s: Stream)
    requires s.Valid() && ReadsNothing(s)
    ensures var r := Step(AsWritten, s, GetChar);
            r.out == Char(s.ibuf[0]) && Stuck(r.next) && r.next.gpos == 1 && r.next.ibuf == s.ibuf
  {
    ReadOfNothingLeaves(s);
  }

  /** Taking characters at the end of the stream: 512 calls hand out the whole area as
      if it had been received, and the next reads past it. */
  lemma EndHandsOutWholeArea(s: Stream)
    requires s.Valid() && ReadsNothing(s)
    ensures Run(AsWritten, s, Gets(|s.ibuf| + 1)).outs == Chars(s.ibuf) + [Wild]
  {
    var n, r := |s.ibuf|, Step(AsWritten, s, GetChar);
    FirstStale(s);
    RunOfGets(s, n);
    StaleRun(r.next, n - 1);
    FirstChar(s.ibuf, 0, [Wild]);
    assert s.ibuf[0..] == s.ibuf;
  }
}

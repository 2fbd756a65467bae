/** The raw value operators over a stream, and the end-to-end results that join a
    writing stream, a first-in first-out byte channel and a reading stream. */
module Transport {
  import opened Os
  import opened StreamModel
  import opened WriterProofs
  import opened ReaderProofs
  import opened CodedWrites
  import opened Failures

  // A std::ostream or std::istream over a stream buffer, reduced to its good bit.
  datatype IoStream = IoStream(good: bool, buf: Stream)

  // `os << put_raw(value)`: ostream::write of the object's bytes.
  function PutRaw(os: IoStream, value: seq<byte>): (r: IoStream)
    requires os.buf.Shaped()
    ensures r.buf.Shaped()
  {
    if !os.good then os
    else
      var p := Xsputn(os.buf, value, CodedTest(|value|, os.buf.ppos));
      IoStream(p.out == Ret(|value|), p.next)
  }

  function PutAll(os: IoStream, values: seq<seq<byte>>): (r: IoStream)
    requires os.buf.Shaped()
    ensures r.buf.Shaped()
    decreases |values|
  {
    if values == [] then os else PutAll(PutRaw(os, values[0]), values[1..])
  }

  // ostream::flush
  function FlushStream(os: IoStream): (r: IoStream)
    requires os.buf.Shaped()
    ensures r.buf.Shaped()
  {
    if !os.good then os
    else
      var p := Sync(os.buf);
      IoStream(p.out == Ret(0), p.next)
  }

  datatype Read = Read(value: seq<byte>, next: IoStream)

  // `is >> get_raw(value)`: istream::read over the object's bytes.
  function GetRaw(ins: IoStream, value: seq<byte>): (r: Read)
    requires ins.buf.Shaped()
    ensures r.next.buf.Shaped() && |r.value| == |value|
  {
    if !ins.good then Read(value, ins)
    else
      var g := Xsgetn(ins.buf, value);
      Read(g.dst, IoStream(g.out == Ret(|value|), g.next))
  }

  datatype Reads = Reads(values: seq<seq<byte>>, next: IoStream)

  function GetAll(ins: IoStream, values: seq<seq<byte>>): (r: Reads)
    requires ins.buf.Shaped()
    ensures |r.values| == |values|
    decreases |values|
  {
    if values == [] then Reads([], ins)
    else
      var first := GetRaw(ins, values[0]);
      var rest := GetAll(first.next, values[1..]);
      Reads([first.value] + rest.values, rest.next)
  }

  // With whole sends nothing fails on the way out.
  lemma {:induction false} PutAllPutsFlat(os: IoStream, values: seq<seq<byte>>)
    requires os.good && os.buf.Shaped() && os.buf.connected && os.buf.link.FullSends() && BlocksFit(values)
    ensures var r := PutAll(os, values);
            && r.good && r.buf.connected && r.buf.link.FullSends()
            && r.buf.link.wire + r.buf.Pending() == os.buf.link.wire + os.buf.Pending() + Flat(values)
    decreases |values|
  {
    var sofar := os.buf.link.wire + os.buf.Pending();
    if values == [] {
      AppendNothing(sofar);
    } else {
      PutBlockConserves(os.buf, values[0], true);
      PutAllPutsFlat(PutRaw(os, values[0]), values[1..]);
      Regroup(sofar, values[0], Flat(values[1..]));
    }
  }

  lemma FlushEmptiesPutArea(os: IoStream)
    requires os.good && os.buf.Shaped() && os.buf.connected && os.buf.link.FullSends()
    ensures var r := FlushStream(os);
            r.good && r.buf.Pending() == [] && r.buf.link.wire == os.buf.link.wire + os.buf.Pending()
  {
  }

  lemma GetRawCutsFirst(ins: IoStream, into: seq<byte>, value: seq<byte>, rest: seq<byte>)
    requires ins.good && ins.buf.Valid() && ins.buf.link.Smooth()
    requires |into| == |value| <= INT_MAX && ins.buf.Reach() == value + rest
    ensures var r := GetRaw(ins, into);
            && r.value == value && r.next.good && r.next.buf.Valid() && r.next.buf.link.Smooth()
            && r.next.buf.Reach() == rest
  {
    XsgetnRefines(ins.buf, into);
    XsgetnOutcome(ins.buf, into);
    assert (value + rest)[..|value|] == value && (value + rest)[|value|..] == rest;
  }

  // Reading values of the sizes written cuts the inbound bytes where they were joined.
  lemma {:induction false} GetAllCutsFlat(ins: IoStream, into: seq<seq<byte>>, values: seq<seq<byte>>, more: seq<byte>)
    requires ins.good && ins.buf.Valid() && ins.buf.link.Smooth() && BlocksFit(values)
    requires |into| == |values| && forall i | 0 <= i < |values| :: |into[i]| == |values[i]|
    requires ins.buf.Reach() == Flat(values) + more
    ensures var r := GetAll(ins, into);
            r.values == values && r.next.good && r.next.buf.Valid() && r.next.buf.Reach() == more
    decreases |values|
  {
    if values == [] {
      AppendNothing(more);
    } else {
      Regroup(values[0], Flat(values[1..]), more);
      GetRawCutsFirst(ins, into[0], values[0], Flat(values[1..]) + more);
      GetAllCutsFlat(GetRaw(ins, into[0]).next, into[1..], values[1..], more);
    }
  }

  /** End to end, for the code as written: values put with put_raw and flushed into
      a channel whose far end reads them with get_raw into objects of the same
      sizes arrive as they were, value by value, whatever their sizes below 2^31
      (longer than the buffer or empty included) and however recv cuts the bytes;
      what the peer sends afterwards is what is left to read. */
  lemma RawTransport(os: IoStream, ins: IoStream, values: seq<seq<byte>>, into: seq<seq<byte>>, more: seq<byte>)
    requires os.good && os.buf.Shaped() && os.buf.connected && os.buf.link.FullSends()
    requires os.buf.ppos == 0 && os.buf.link.wire == []
    requires BlocksFit(values)
    requires |into| == |values| && forall i | 0 <= i < |values| :: |into[i]| == |values[i]|
    requires ins.good && ins.buf.Valid() && ins.buf.connected && ins.buf.link.Smooth() && ins.buf.Avail() == []
    requires ins.buf.link.inbound == FlushStream(PutAll(os, values)).buf.link.wire + more
    ensures FlushStream(PutAll(os, values)).good
    ensures var r := GetAll(ins, into);
            r.values == values && r.next.good && r.next.buf.Valid() && r.next.buf.Reach() == more
  {
    PutAllPutsFlat(os, values);
    FlushEmptiesPutArea(PutAll(os, values));
    assert FlushStream(PutAll(os, values)).buf.link.wire == Flat(values);
    assert ins.buf.Reach() == Flat(values) + more;
    GetAllCutsFlat(ins, into, values, more);
  }

  // ----- the good bit -----

  // A stream that is not good is left alone, and so are the values to read.
  lemma {:induction false} BadStaysBad(io: IoStream, values: seq<seq<byte>>)
    requires !io.good && io.buf.Shaped()
    ensures PutAll(io, values) == io && GetAll(io, values) == Reads(values, io)
    decreases |values|
  {
    if values != [] { BadStaysBad(io, values[1..]); }
  }

  lemma PutEndsWell(s: Stream, data: seq<byte>)
    requires s.Shaped() && |data| <= INT_MAX
    ensures var r := Step(AsWritten, s, PutBlock(data));
            && r.next.connected == s.connected
            && (r.out == Ret(|data|) <==> s.connected && !r.out.Threw?)
  {
  }

  lemma PutRawGoodIff(os: IoStream, value: seq<byte>) returns (out: Outcome)
    requires os.good && os.buf.Shaped() && |value| <= INT_MAX
    ensures var r := PutRaw(os, value);
            && r.buf.connected == os.buf.connected
            && Reported(os.buf.link.sends, r.buf.link.sends, out, SendFailure)
            && (r.good <==> os.buf.connected && !out.Threw?)
  {
    out := Step(AsWritten, os.buf, PutBlock(value)).out;
    PutEndsWell(os.buf, value);
    WriteReports(AsWritten, os.buf, PutBlock(value));
  }

  /** Whatever the system answers, writing values leaves the stream good if and only if
      it is connected and the answers of send that it used hold no exception. */
  lemma {:induction false} PutAllGoodIff(os: IoStream, values: seq<seq<byte>>) returns (seen: seq<Failure>)
    requires os.good && os.buf.Shaped() && BlocksFit(values)
    ensures Told(os.buf.link.sends, PutAll(os, values).buf.link.sends, seen, SendFailure)
    ensures PutAll(os, values).good <==> values == [] || (os.buf.connected && seen == [])
    decreases |values|
  {
    seen := [];
    if values != [] {
      var p := PutRaw(os, values[0]);
      var out := PutRawGoodIff(os, values[0]);
      ToldOnce(os.buf.link.sends, p.buf.link.sends, out, SendFailure);
      if p.good {
        seen := PutAllGoodIff(p, values[1..]);
        ToldJoin(os.buf.link.sends, p.buf.link.sends, PutAll(p, values[1..]).buf.link.sends, [], seen, SendFailure);
        assert [] + seen == seen;
      } else {
        BadStaysBad(p, values[1..]);
        seen := if out.Threw? then [out.failure] else [];
      }
    }
  }

  // Flushing leaves it good unless send throws, or takes none of what is pending.
  lemma FlushGoodIff(os: IoStream)
    requires os.good && os.buf.Shaped() && os.buf.connected
    ensures var a, r := os.buf.link.NextSend(), FlushStream(os);
            r.good <==> !Throws(a) && (TakenOf(a, os.buf.ppos) > 0 || os.buf.ppos == 0 || a.SendFails?)
  {
    SyncByAnswer(os.buf);
  }

  // Reading one value when its bytes are there, and when they are not.
  lemma GetRawByReach(ins: IoStream, into: seq<byte>)
    requires ins.good && ins.buf.Valid() && ins.buf.link.Smooth() && |into| <= INT_MAX
    ensures var r, reach := GetRaw(ins, into), ins.buf.Reach();
            if |into| <= |reach| then
              && r.value == reach[..|into|] && r.next.good && r.next.buf.Valid() && r.next.buf.link.Smooth()
              && r.next.buf.Reach() == reach[|into|..]
            else !r.next.good && r.value == reach + into[|reach|..]
  {
    var reach := ins.buf.Reach();
    XsgetnOutcome(ins.buf, into);
    if |into| <= |reach| {
      GetRawCutsFirst(ins, into, reach[..|into|], reach[|into|..]);
    } else {
      XsgetnLeavesRest(ins.buf, into);
    }
  }

  // What the object at k holds after reading: its bytes if they were all there, those
  // that were before its own old bytes if they ran out in it, its old bytes after that.
  function Expected(reach: seq<byte>, into: seq<seq<byte>>, k: nat): seq<byte>
    requires k < |into|
  {
    var from := |Flat(into[..k])|;
    if from + |into[k]| <= |reach| then reach[from..from + |into[k]|]
    else if from <= |reach| then reach[from..] + into[k][|reach| - from..]
    else into[k]
  }

  lemma ExpectedFirst(reach: seq<byte>, into: seq<seq<byte>>)
    requires into != []
    ensures Expected(reach, into, 0)
         == if |into[0]| <= |reach| then reach[..|into[0]|] else reach + into[0][|reach|..]
  {
    assert reach[0..] == reach;
  }

  lemma ExpectedLater(reach: seq<byte>, into: seq<seq<byte>>, k: nat)
    requires 0 < k < |into|
    ensures |into[0]| > |reach| ==> Expected(reach, into, k) == into[k]
    ensures |into[0]| <= |reach| ==> Expected(reach, into, k) == Expected(reach[|into[0]|..], into[1..], k - 1)
  {
    assert into[..k][1..] == into[1..][..k - 1];
    if |into[0]| <= |reach| {
      var m, from := |into[0]|, |Flat(into[1..][..k - 1])|;
      if m + from + |into[k]| <= |reach| {
        assert reach[m..][from..from + |into[k]|] == reach[m + from..m + from + |into[k]|];
      } else if m + from <= |reach| {
        assert reach[m..][from..] == reach[m + from..];
      }
    }
  }

  /** Reading a series of values from a connection that ends somewhere: each object up
      to that point holds its bytes, the one it falls into those that came, and all
      later ones are untouched. */
  lemma {:induction false} GetAllByReach(ins: IoStream, into: seq<seq<byte>>, k: nat)
    requires ins.good && ins.buf.Valid() && ins.buf.link.Smooth() && BlocksFit(into) && k < |into|
    ensures GetAll(ins, into).values[k] == Expected(ins.buf.Reach(), into, k)
    decreases |into|
  {
    var first, reach := GetRaw(ins, into[0]), ins.buf.Reach();
    GetRawByReach(ins, into[0]);
    assert GetAll(ins, into).values == [first.value] + GetAll(first.next, into[1..]).values;
    if k == 0 {
      ExpectedFirst(reach, into);
    } else {
      ExpectedLater(reach, into, k);
      if first.next.good {
        GetAllByReach(first.next, into[1..], k - 1);
      } else {
        BadStaysBad(first.next, into[1..]);
      }
    }
  }

  /** And the stream stays good if and only if all the bytes were there. */
  lemma {:induction false} GetAllGoodIff(ins: IoStream, into: seq<seq<byte>>)
    requires ins.good && ins.buf.Valid() && ins.buf.link.Smooth() && BlocksFit(into)
    ensures var r, size := GetAll(ins, into), |Flat(into)|;
            && (r.next.good <==> size <= |ins.buf.Reach()|)
            && (r.next.good ==> r.next.buf.Valid() && r.next.buf.Reach() == ins.buf.Reach()[size..])
    decreases |into|
  {
    if into != [] {
      var first, reach := GetRaw(ins, into[0]), ins.buf.Reach();
      GetRawByReach(ins, into[0]);
      if first.next.good {
        GetAllGoodIff(first.next, into[1..]);
        var n, m := |into[0]|, |Flat(into[1..])|;
        if n + m <= |reach| { assert reach[n..][m..] == reach[n + m..]; }
      } else {
        BadStaysBad(first.next, into[1..]);
      }
    }
  }

  // ----- any runs -----

  lemma WireIsPrefixOfAccepted(code: Code, w: Stream, puts: seq<Op>)
    requires w.Shaped() && w.log == [] && w.ppos == 0 && w.link.wire == [] && w.link.FullSends() && AllBlocksFit(puts)
    ensures Run(code, w, puts).last.link.wire <= Run(code, w, puts).accepted
  {
    WriterConservation(code, w, puts);
    assert w.link.wire + w.Pending() + Run(code, w, puts).accepted == Run(code, w, puts).accepted;
  }

  lemma DeliveredIsPrefixOfInbound(r: Stream, gets: seq<Op>)
    requires r.Valid() && r.Avail() == [] && r.link.Blocking()
    ensures Flat(Run(Repaired, r, gets).got) <= r.link.inbound
  {
    InboundConservation(r, gets);
    assert Ahead(r) == r.link.inbound;
  }

  lemma PrefixTransitive(a: seq<byte>, b: seq<byte>, c: seq<byte>)
    requires a <= b <= c
    ensures a <= c
  {
  }

  /** Safety of any two runs joined by the channel: whatever mix of calls the writer
      made, whatever mix the reader makes, and whatever the sizes of its reads, the
      bytes delivered are a prefix of the bytes accepted. The reader may run the
      code as written as long as it meets no hazard. */
  lemma DeliveredIsPrefixOfAccepted(code: Code, w: Stream, puts: seq<Op>, reader: Code, r: Stream, gets: seq<Op>)
    requires w.Shaped() && w.log == [] && w.ppos == 0 && w.link.wire == [] && w.link.FullSends() && AllBlocksFit(puts)
    requires r.Valid() && r.Avail() == [] && r.link.Blocking()
    requires r.link.inbound == Run(code, w, puts).last.link.wire
    requires reader.AsWritten? ==> HazardFree(r, gets)
    ensures Flat(Run(reader, r, gets).got) <= Run(code, w, puts).accepted
  {
    if reader.AsWritten? { RunsAgreeIffHazardFree(r, gets); }
    DeliveredIsPrefixOfInbound(r, gets);
    WireIsPrefixOfAccepted(code, w, puts);
    PrefixTransitive(Flat(Run(reader, r, gets).got), r.link.inbound, Run(code, w, puts).accepted);
  }

  lemma PrefixOfSubsequence(a: seq<byte>, b: seq<byte>, c: seq<byte>)
    requires a <= b && IsSubsequence(b, c)
    ensures IsSubsequence(a, c)
  {
    var at :| Embeds(at, b, c);
    assert Embeds(at[..|a|], a, c);
  }

  /** The same under short and failed sends, and for blocks of any size: the bytes
      delivered are still an in-order subsequence of the bytes accepted. */
  lemma DeliveredIsSubsequenceOfAccepted(code: Code, w: Stream, puts: seq<Op>, reader: Code, r: Stream, gets: seq<Op>)
    requires w.Shaped() && w.log == [] && w.ppos == 0 && w.link.wire == []
    requires r.Valid() && r.Avail() == [] && r.link.Blocking()
    requires r.link.inbound == Run(code, w, puts).last.link.wire
    requires reader.AsWritten? ==> HazardFree(r, gets)
    ensures IsSubsequence(Flat(Run(reader, r, gets).got), Run(code, w, puts).accepted)
  {
    if reader.AsWritten? { RunsAgreeIffHazardFree(r, gets); }
    WireIsSubsequence(code, w, puts);
    AppendNothing(Run(code, w, puts).accepted);
    DeliveredIsPrefixOfInbound(r, gets);
    assert r.link.inbound[0..] == r.link.inbound;
    PrefixOfSubsequence(Flat(Run(reader, r, gets).got), r.link.inbound, Run(code, w, puts).accepted);
  }
}

/** The `socket_address` class, an owning buffer that grows on demand, with the
    allocator it takes its storage from. Every operation keeps a whole pool of such
    objects separated, and deletes only storage that is still live. */
module SocketAddresses {
  import opened Os

  /** operator new[] and delete[]; deleting storage twice is impossible to call. */
  class Allocator {
    ghost var live: set<array<byte>>

    constructor ()
      ensures live == {}
    {
      live := {};
    }

    // Storage with indeterminate contents.
    method New(n: nat) returns (a: array<byte>)
      modifies this
      ensures fresh(a) && a.Length == n && live == old(live) + {a}
    {
      a := new byte[n];
      live := live + {a};
    }

    method Delete(a: array?<byte>)
      requires a != null ==> a in live
      modifies this
      ensures live == if a == null then old(live) else old(live) - {a}
    {
      if a != null { live := live - {a}; }
    }
  }

  // Every object owns live storage at least as long as its size, or none, and no
  // two objects the same.
  ghost predicate Separated(heap: Allocator, pool: set<SocketAddress>)
    reads heap, pool
  {
    && (forall a | a in pool :: a.heap == heap && a.Valid())
    && (forall a, b | a in pool && b in pool && a != b && a.ptr != null :: a.ptr != b.ptr)
  }

  // The bytes after a resize: the common part is kept, the rest is indeterminate.
  predicate Resizes(before: seq<byte>, n: nat, after: seq<byte>) {
    |after| == n && after[..Min(|before|, n)] == before[..Min(|before|, n)]
  }

  class SocketAddress {
    const heap: Allocator
    var ptr: array?<byte>
    var size: nat

    ghost predicate Valid()
      reads this, heap
    {
      if ptr == null then size == 0 else ptr in heap.live && size <= ptr.Length
    }

    ghost function Contents(): (c: seq<byte>)
      requires Valid()
      reads this, heap, ptr
      ensures |c| == size
    { if ptr == null then [] else ptr[..size] }

    constructor (heap: Allocator, ghost pool: set<SocketAddress>)
      requires Separated(heap, pool)
      ensures this.heap == heap && ptr == null && Separated(heap, pool + {this}) && Contents() == []
    {
      this.heap, ptr, size := heap, null, 0;
    }

    constructor Sized(heap: Allocator, n: nat, ghost pool: set<SocketAddress>)
      requires Separated(heap, pool)
      modifies heap
      ensures this.heap == heap && fresh(ptr) && ptr.Length == n && heap.live == old(heap.live) + {ptr}
      ensures Separated(heap, pool + {this}) && Contents() == seq(n, _ => 0)
    {
      this.heap, size := heap, n;
      new;
      var a := heap.New(n);
      forall i | 0 <= i < n { a[i] := 0; }
      ptr := a;
      assert a[..n] == seq(n, _ => 0);
    }

    constructor Copy(address: SocketAddress, ghost pool: set<SocketAddress>)
      requires address in pool && Separated(address.heap, pool)
      modifies address.heap
      ensures heap == address.heap && fresh(ptr) && heap.live == old(address.heap.live) + {ptr}
      ensures Separated(heap, pool + {this}) && Contents() == old(address.Contents())
    {
      heap, size := address.heap, address.size;
      new;
      var a := heap.New(address.size);
      forall i | 0 <= i < address.size { a[i] := address.ptr[i]; }
      ptr := a;
    }

    constructor Move(address: SocketAddress, ghost pool: set<SocketAddress>)
      requires address in pool && Separated(address.heap, pool)
      modifies address
      ensures heap == address.heap && ptr == old(address.ptr) && Separated(heap, pool + {this})
      ensures Contents() == old(address.Contents()) && address.Contents() == []
    {
      heap, ptr, size := address.heap, address.ptr, address.size;
      new;
      address.ptr := null;
      address.size := 0;
    }

    method CopyAssign(address: SocketAddress, ghost pool: set<SocketAddress>)
      requires this in pool && address in pool && Separated(heap, pool)
      modifies this, heap
      ensures Separated(heap, pool)
      ensures Contents() == old(address.Contents())
      ensures this == address ==> ptr == old(ptr)
      ensures this != address ==> fresh(ptr) && heap.live == old(heap.live) - {old(ptr)} + {ptr}
    {
      if this == address {
        return;
      }
      heap.Delete(ptr);
      ptr := heap.New(address.size);
      size := address.size;
      forall i | 0 <= i < address.size { ptr[i] := address.ptr[i]; }
    }

    /** A move from another object hands the storage over; a move from the object
        itself deletes it and leaves the object empty. */
    method MoveAssign(address: SocketAddress, ghost pool: set<SocketAddress>)
      requires this in pool && address in pool && Separated(heap, pool)
      modifies this, address, heap
      ensures Separated(heap, pool)
      ensures this != address ==> Contents() == old(address.Contents()) && ptr == old(address.ptr)
      ensures address.ptr == null && address.Contents() == []
      ensures old(ptr) != null ==> heap.live == old(heap.live) - {old(ptr)}
    {
      heap.Delete(ptr);
      ptr := address.ptr;
      size := address.size;
      address.ptr := null;
      address.size := 0;
    }

    method Resize(n: nat, ghost pool: set<SocketAddress>)
      requires this in pool && Separated(heap, pool)
      modifies this, heap
      ensures Separated(heap, pool)
      ensures Resizes(old(Contents()), n, Contents())
      ensures n <= old(size) ==> ptr == old(ptr) && heap.live == old(heap.live)
      ensures n > old(size) ==> fresh(ptr) && heap.live == old(heap.live) - {old(ptr)} + {ptr}
    {
      if size < n {
        var tmp := heap.New(n);
        forall i | 0 <= i < size { tmp[i] := ptr[i]; }
        heap.Delete(ptr);
        ptr := tmp;
      }
      size := n;
    }
  }

  // ----- any series of resizes -----

  // Contents over time, one resize after the other.
  predicate ResizeHistory(contents: seq<seq<byte>>) {
    forall i | 0 <= i < |contents| - 1 :: Resizes(contents[i], |contents[i + 1]|, contents[i + 1])
  }

  // A byte below every size seen is still there.
  lemma {:induction false} BytesBelowAllSizesSurvive(contents: seq<seq<byte>>, k: nat)
    requires contents != [] && ResizeHistory(contents)
    requires forall i | 0 <= i < |contents| :: k < |contents[i]|
    ensures contents[|contents| - 1][k] == contents[0][k]
    decreases |contents|
  {
    if |contents| > 1 {
      var early := contents[..|contents| - 1];
      forall i | 0 <= i < |early| - 1
        ensures Resizes(early[i], |early[i + 1]|, early[i + 1])
      {
        assert Resizes(contents[i], |contents[i + 1]|, contents[i + 1]);
      }
      BytesBelowAllSizesSurvive(early, k);
      var a, b := contents[|contents| - 2], contents[|contents| - 1];
      assert Resizes(contents[|contents| - 2], |contents[|contents| - 2 + 1]|, contents[|contents| - 2 + 1]);
      assert b[k] == b[..Min(|a|, |b|)][k] == a[..Min(|a|, |b|)][k] == a[k];
    }
  }

  predicate IsBelowAll(k: nat, sizes: seq<nat>) { forall i | 0 <= i < |sizes| :: k < sizes[i] }

  lemma BelowAllSizes(history: seq<seq<byte>>, sizes: seq<nat>)
    requires |history| == |sizes| + 1 && ResizeHistory(history)
    requires forall i | 0 <= i < |sizes| :: |history[i + 1]| == sizes[i]
    ensures forall k: nat | k < |history[0]| && IsBelowAll(k, sizes) ::
              k < |history[|sizes|]| && history[|sizes|][k] == history[0][k]
  {
    forall k: nat | k < |history[0]| && IsBelowAll(k, sizes)
      ensures k < |history[|sizes|]| && history[|sizes|][k] == history[0][k]
    {
      forall i | 0 <= i < |history|
        ensures k < |history[i]|
      {
        if i > 0 { assert |history[i - 1 + 1]| == sizes[i - 1]; }
      }
      BytesBelowAllSizesSurvive(history, k);
    }
  }

  lemma HistoryGoesOn(history: seq<seq<byte>>, next: seq<byte>)
    requires history != [] && ResizeHistory(history) && Resizes(history[|history| - 1], |next|, next)
    ensures ResizeHistory(history + [next])
  {
    var h := history + [next];
    forall i | 0 <= i < |h| - 1
      ensures Resizes(h[i], |h[i + 1]|, h[i + 1])
    {
      if i + 1 < |history| { assert Resizes(history[i], |history[i + 1]|, history[i + 1]); }
    }
  }

  // The object's contents after each resize of a series.
  method ResizeThrough(s: SocketAddress, sizes: seq<nat>, ghost pool: set<SocketAddress>)
    returns (ghost history: seq<seq<byte>>)
    requires s in pool && Separated(s.heap, pool)
    modifies s, s.heap
    ensures Separated(s.heap, pool)
    ensures |history| == |sizes| + 1 && history[0] == old(s.Contents()) && history[|sizes|] == s.Contents()
    ensures ResizeHistory(history) && forall i | 0 <= i < |sizes| :: |history[i + 1]| == sizes[i]
    ensures forall k: nat | k < |old(s.Contents())| && IsBelowAll(k, sizes) ::
              k < |s.Contents()| && s.Contents()[k] == old(s.Contents())[k]
  {
    history := [s.Contents()];
    for i := 0 to |sizes|
      invariant Separated(s.heap, pool)
      invariant |history| == i + 1 && history[0] == old(s.Contents()) && history[i] == s.Contents()
      invariant ResizeHistory(history) && forall j | 0 <= j < i :: |history[j + 1]| == sizes[j]
    {
      ghost var before := s.Contents();
      s.Resize(sizes[i], pool);
      HistoryGoesOn(history, s.Contents());
      history := history + [s.Contents()];
    }
    BelowAllSizes(history, sizes);
  }

  // A resize whose new bytes all happen to be one filler.
  function Filled(before: seq<byte>, n: nat, filler: byte): (after: seq<byte>)
    ensures Resizes(before, n, after)
  {
    if n <= |before| then before[..n] else before + seq(n - |before|, _ => filler)
  }

  function FilledHistory(start: seq<byte>, sizes: seq<nat>, filler: byte): (h: seq<seq<byte>>)
    ensures |h| == |sizes| + 1 && h[0] == start
    ensures forall i | 0 <= i < |sizes| :: |h[i + 1]| == sizes[i]
    ensures ResizeHistory(h)
    decreases |sizes|
  {
    if sizes == [] then [start]
    else
      var h := FilledHistory(start, sizes[..|sizes| - 1], filler);
      h + [Filled(h[|h| - 1], sizes[|sizes| - 1], filler)]
  }

  /** And only those: once some size was not above k, byte k of a buffer that grew
      again may be anything at all. */
  lemma {:induction false} OtherBytesAreIndeterminate(start: seq<byte>, sizes: seq<nat>, filler: byte, k: nat)
    requires var h := FilledHistory(start, sizes, filler); k < |h[|h| - 1]|
    requires exists i | 0 <= i <= |sizes| :: |FilledHistory(start, sizes, filler)[i]| <= k
    ensures var h := FilledHistory(start, sizes, filler); h[|h| - 1][k] == filler
    decreases |sizes|
  {
    var h := FilledHistory(start, sizes, filler);
    if sizes != [] {
      var early := FilledHistory(start, sizes[..|sizes| - 1], filler);
      if k < |early[|early| - 1]| {
        var i :| 0 <= i <= |sizes| && |h[i]| <= k;
        assert i < |early| && early[i] == h[i];
        OtherBytesAreIndeterminate(start, sizes[..|sizes| - 1], filler, k);
      }
    }
  }
}

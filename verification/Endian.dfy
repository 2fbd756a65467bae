/** Byte order on a little-endian host: the byte-swapping operators on integers,
    the reversing copy loop, and what an integer's bytes in memory are. */
module Endian {
  import opened Os

  // endian_converter::operator(), 16, 32 and 64 bits wide
  function Swap16(v: bv16): bv16 { ((v >> 8) & 0xFF) | ((v << 8) & 0xFF00) }

  function Swap32(v: bv32): bv32 {
    ((v >> 24) & 0xFF) | ((v >> 8) & 0xFF00) | ((v << 8) & 0xFF_0000) | ((v << 24) & 0xFF00_0000)
  }

  function Swap64(v: bv64): bv64 {
    ((v >> 56) & 0xFF) | ((v >> 40) & 0xFF00) | ((v >> 24) & 0xFF_0000) | ((v >> 8) & 0xFF00_0000)
    | ((v << 8) & 0xFF_0000_0000) | ((v << 24) & 0xFF00_0000_0000)
    | ((v << 40) & 0xFF_0000_0000_0000) | ((v << 56) & 0xFF00_0000_0000_0000)
  }

  // An integer in the host's memory, least significant byte first.
  function Bytes16(v: bv16): (b: seq<byte>)
    ensures |b| == 2
  { [(v & 0xFF) as byte, (v >> 8) as byte] }

  function Bytes32(v: bv32): (b: seq<byte>)
    ensures |b| == 4
  { [(v & 0xFF) as byte, ((v >> 8) & 0xFF) as byte, ((v >> 16) & 0xFF) as byte, (v >> 24) as byte] }

  function Bytes64(v: bv64): (b: seq<byte>)
    ensures |b| == 8
  {
    [(v & 0xFF) as byte, ((v >> 8) & 0xFF) as byte, ((v >> 16) & 0xFF) as byte, ((v >> 24) & 0xFF) as byte,
     ((v >> 32) & 0xFF) as byte, ((v >> 40) & 0xFF) as byte, ((v >> 48) & 0xFF) as byte, (v >> 56) as byte]
  }

  // An integer in network order, most significant byte first.
  function Network16(v: bv16): (b: seq<byte>)
    ensures |b| == 2
  { [(v >> 8) as byte, (v & 0xFF) as byte] }

  function Network32(v: bv32): (b: seq<byte>)
    ensures |b| == 4
  { [(v >> 24) as byte, ((v >> 16) & 0xFF) as byte, ((v >> 8) & 0xFF) as byte, (v & 0xFF) as byte] }

  function Network64(v: bv64): (b: seq<byte>)
    ensures |b| == 8
  {
    [(v >> 56) as byte, ((v >> 48) & 0xFF) as byte, ((v >> 40) & 0xFF) as byte, ((v >> 32) & 0xFF) as byte,
     ((v >> 24) & 0xFF) as byte, ((v >> 16) & 0xFF) as byte, ((v >> 8) & 0xFF) as byte, (v & 0xFF) as byte]
  }

  function Join16(b0: byte, b1: byte): bv16 { (b0 as bv16) | ((b1 as bv16) << 8) }

  function Join32(b0: byte, b1: byte, b2: byte, b3: byte): bv32 {
    (b0 as bv32) | ((b1 as bv32) << 8) | ((b2 as bv32) << 16) | ((b3 as bv32) << 24)
  }

  function Load16(b: seq<byte>): bv16
    requires |b| == 2
  { Join16(b[0], b[1]) }

  function Load32(b: seq<byte>): bv32
    requires |b| == 4
  { Join32(b[0], b[1], b[2], b[3]) }

  // One more byte at the least significant end.
  function Push(high: bv64, low: byte): bv64 { (high << 8) | (low as bv64) }

  /** The value of a byte string read most significant byte first, the network's
      order: a reference independent of the operators above. */
  function BigEndian(b: seq<byte>): bv64 {
    if b == [] then 0 else Push(BigEndian(b[..|b| - 1]), b[|b| - 1])
  }

  function Reverse(s: seq<byte>): (r: seq<byte>)
    ensures |r| == |s|
    ensures forall i | 0 <= i < |s| :: r[i] == s[|s| - 1 - i]
  {
    seq(|s|, i requires 0 <= i < |s| => s[|s| - 1 - i])
  }

  lemma ReverseInvolution(s: seq<byte>)
    ensures Reverse(Reverse(s)) == s
  {
  }

  lemma Split16(b0: byte, b1: byte)
    ensures var v := Join16(b0, b1); (v & 0xFF) as byte == b0 && (v >> 8) as byte == b1
  {
  }

  lemma LoadOfBytes16(v: bv16)
    ensures Load16(Bytes16(v)) == v
  {
  }

  lemma BytesOfLoad16(b: seq<byte>)
    requires |b| == 2
    ensures Bytes16(Load16(b)) == b
  {
  }

  lemma LoadOfBytes32(v: bv32)
    ensures Load32(Bytes32(v)) == v
  {
  }

  lemma SwapInvolution16(v: bv16)
    ensures Swap16(Swap16(v)) == v
  {
  }

  lemma SwapInvolution32(v: bv32)
    ensures Swap32(Swap32(v)) == v
  {
  }

  lemma BigEndianPush(b: seq<byte>, low: byte)
    ensures BigEndian(b + [low]) == Push(BigEndian(b), low)
  {
  }

  // Four more bytes after what was read so far.
  lemma BigEndianPush4(b: seq<byte>, b0: byte, b1: byte, b2: byte, b3: byte)
    ensures BigEndian(b + [b0, b1, b2, b3]) == Push(Push(Push(Push(BigEndian(b), b0), b1), b2), b3)
  {
    var c1, c2, c3 := b + [b0], b + [b0, b1], b + [b0, b1, b2];
    assert c1 + [b1] == c2 && c2 + [b2] == c3 && c3 + [b3] == b + [b0, b1, b2, b3];
    BigEndianPush(b, b0);
    BigEndianPush(c1, b1);
    BigEndianPush(c2, b2);
    BigEndianPush(c3, b3);
  }

  lemma SwappedParts16(v: bv16)
    ensures var w := Swap16(v); (w & 0xFF) as byte == (v >> 8) as byte && (w >> 8) as byte == (v & 0xFF) as byte
  {
  }

  lemma SwappedParts32(v: bv32)
    ensures var w := Swap32(v);
            && (w & 0xFF) as byte == (v >> 24) as byte && ((w >> 8) & 0xFF) as byte == ((v >> 16) & 0xFF) as byte
            && ((w >> 16) & 0xFF) as byte == ((v >> 8) & 0xFF) as byte && (w >> 24) as byte == (v & 0xFF) as byte
  {
  }

  lemma SwappedParts64(v: bv64)
    ensures var b, c := Bytes64(Swap64(v)), Bytes64(v);
            && b[0] == c[7] && b[1] == c[6] && b[2] == c[5] && b[3] == c[4]
            && b[4] == c[3] && b[5] == c[2] && b[6] == c[1] && b[7] == c[0]
  {
  }

  lemma PushedParts16(v: bv16)
    ensures Push(Push(0, (v >> 8) as byte), (v & 0xFF) as byte) == v as bv64
  {
  }

  lemma PushedParts32(v: bv32)
    ensures Push(Push(Push(Push(0, (v >> 24) as byte), ((v >> 16) & 0xFF) as byte), ((v >> 8) & 0xFF) as byte),
                 (v & 0xFF) as byte) == v as bv64
  {
  }

  lemma PushedParts64(v: bv64)
    ensures var h := Push(Push(Push(Push(0, (v >> 56) as byte), ((v >> 48) & 0xFF) as byte),
                               ((v >> 40) & 0xFF) as byte), ((v >> 32) & 0xFF) as byte);
            Push(Push(Push(Push(h, ((v >> 24) & 0xFF) as byte), ((v >> 16) & 0xFF) as byte),
                      ((v >> 8) & 0xFF) as byte), (v & 0xFF) as byte) == v
  {
  }

  // Network order, read most significant byte first, is the integer.
  lemma Network16Value(v: bv16)
    ensures BigEndian(Network16(v)) == v as bv64
  {
    var b := Network16(v);
    PushedParts16(v);
    BigEndianPush([], b[0]);
    BigEndianPush([] + [b[0]], b[1]);
    assert [] + [b[0]] + [b[1]] == b;
  }

  lemma Network32Value(v: bv32)
    ensures BigEndian(Network32(v)) == v as bv64
  {
    var b := Network32(v);
    PushedParts32(v);
    BigEndianPush4([], b[0], b[1], b[2], b[3]);
    assert [] + [b[0], b[1], b[2], b[3]] == b;
  }

  lemma Network64Value(v: bv64)
    ensures BigEndian(Network64(v)) == v
  {
    var b := Network64(v);
    PushedParts64(v);
    BigEndianPush4([], b[0], b[1], b[2], b[3]);
    BigEndianPush4([] + [b[0], b[1], b[2], b[3]], b[4], b[5], b[6], b[7]);
    assert [] + [b[0], b[1], b[2], b[3]] + [b[4], b[5], b[6], b[7]] == b;
  }

  /** The fast swap refines the copy loop: in memory, a swapped integer is the
      reversal of the integer's bytes, which is its network order, and read most
      significant byte first it is the integer. */
  lemma Swap16IsNetworkOrder(v: bv16)
    ensures Bytes16(Swap16(v)) == Reverse(Bytes16(v)) == Network16(v)
    ensures BigEndian(Bytes16(Swap16(v))) == v as bv64
  {
    SwappedParts16(v);
    Network16Value(v);
  }

  lemma Swap32IsNetworkOrder(v: bv32)
    ensures Bytes32(Swap32(v)) == Reverse(Bytes32(v)) == Network32(v)
    ensures BigEndian(Bytes32(Swap32(v))) == v as bv64
  {
    SwappedParts32(v);
    Network32Value(v);
  }

  lemma Swap64IsNetworkOrder(v: bv64)
    ensures Bytes64(Swap64(v)) == Reverse(Bytes64(v)) == Network64(v)
    ensures BigEndian(Bytes64(Swap64(v))) == v
  {
    SwappedParts64(v);
    Network64Value(v);
  }

  // ----- the copy loop -----

  // The offset in the source of the byte that byte k of the destination ends up
  // with. In the same array, `shift` bytes on, the loop comes to read bytes that it
  // has already written.
  function SourceOf(same: bool, shift: int, n: nat, k: nat): (at: nat)
    requires k < n
    ensures at < n
  { if same && 0 <= shift + k < n - 1 - k then shift + k else n - 1 - k }

  // What copy makes of a source range, for any place of the destination.
  function Copied(same: bool, shift: int, s: seq<byte>): (r: seq<byte>)
    ensures |r| == |s|
    ensures forall k | 0 <= k < |s| :: r[k] == s[SourceOf(same, shift, |s|, k)]
  {
    seq(|s|, k requires 0 <= k < |s| => s[SourceOf(same, shift, |s|, k)])
  }

  /** endian_converter::copy between any two ranges, of one array or two. */
  method Copy(dst: array<byte>, to: nat, src: array<byte>, from: nat, n: nat)
    requires to + n <= dst.Length && from + n <= src.Length
    modifies dst
    ensures dst[to..to + n] == Copied(dst == src, to - from, old(src[from..from + n]))
    ensures dst[..to] == old(dst[..to]) && dst[to + n..] == old(dst[to + n..])
  {
    ghost var before, input := dst[..], src[from..from + n];
    ghost var goal := Copied(dst == src, to - from, input);
    var d, s := to + n, from;
    for i := 0 to n
      invariant d == to + n - i && s == from + i
      invariant forall k | 0 <= k < dst.Length :: dst[k] == if d <= k < to + n then goal[k - to] else before[k]
    {
      assert src[s] == goal[n - 1 - i] by {
        if dst == src && d <= s < to + n {
          assert src[s] == goal[s - to] == input[to + n - 1 - s];
        } else {
          assert src[s] == input[i];
        }
      }
      d := d - 1;
      dst[d] := src[s];
      s := s + 1;
    }
  }

  lemma CopiedReverses(same: bool, shift: int, s: seq<byte>)
    requires same ==> shift <= -|s| || |s| <= shift
    ensures Copied(same, shift, s) == Reverse(s)
  {
    forall k | 0 <= k < |s|
      ensures Copied(same, shift, s)[k] == Reverse(s)[k]
    {
      assert SourceOf(same, shift, |s|, k) == |s| - 1 - k;
    }
  }

  /** Between ranges that do not overlap copy reverses, and so is its own inverse. */
  lemma CopiedApart(same: bool, shift: int, s: seq<byte>)
    requires same ==> shift <= -|s| || |s| <= shift
    ensures Copied(same, shift, s) == Reverse(s)
    ensures Copied(same, -shift, Copied(same, shift, s)) == s
  {
    CopiedReverses(same, shift, s);
    CopiedReverses(same, -shift, Reverse(s));
    ReverseInvolution(s);
  }

  /** Copying a range onto itself keeps the bytes of palindromes only. */
  lemma CopiedOnto(s: seq<byte>)
    ensures Copied(true, 0, s) == s <==> s == Reverse(s)
  {
    var c, n := Copied(true, 0, s), |s|;
    if c == s {
      forall k | 0 <= k < n
        ensures s[k] == s[n - 1 - k]
      {
        assert s[k] == c[k] && s[n - 1 - k] == c[n - 1 - k];
      }
    }
    if s == Reverse(s) {
      forall k | 0 <= k < n
        ensures c[k] == s[k]
      {
        assert s[k] == Reverse(s)[k];
      }
    }
  }
}

/** IP addresses and endpoints, and their conversion from and to the bytes of a
    `sockaddr_in` or `sockaddr_in6` of a little-endian Linux host. */
module Addresses {
  import opened Os
  import opened Endian
  import opened SocketAddresses

  datatype Family = Inet | Inet6

  /** `word` is the union of the IPv4 address and the IPv6 scope; `words` the eight
      16-bit words of an IPv6 address, in the order of `_bytes`. */
  datatype IpAddress = IpAddress(family: Family, word: bv32, words: seq<bv16>)
  {
    // What every constructor leaves: an IPv4 address never sets the words.
    predicate Valid() {
      |words| == 8 && (family.Inet? ==> words == NO_WORDS)
    }
  }

  const NO_WORDS: seq<bv16> := [0, 0, 0, 0, 0, 0, 0, 0]

  datatype Endpoint = Endpoint(address: IpAddress, port: bv16)

  function V4(addr: bv32): (a: IpAddress)
    ensures a.Valid()
  { IpAddress(Inet, addr, NO_WORDS) }

  function V6(words: seq<bv16>, scope: bv32): (a: IpAddress)
    requires |words| == 8
    ensures a.Valid()
  { IpAddress(Inet6, scope, words) }

  // ----- words in memory -----

  function Memory(words: seq<bv16>): (b: seq<byte>)
    ensures |b| == 2 * |words|
  {
    if words == [] then [] else Memory(words[..|words| - 1]) + Bytes16(words[|words| - 1])
  }

  function Words(b: seq<byte>): (words: seq<bv16>)
    ensures |words| == |b| / 2
  {
    if |b| < 2 then [] else Words(b[..(|b| / 2 - 1) * 2]) + [Load16(b[(|b| / 2 - 1) * 2..|b| / 2 * 2])]
  }

  // One word more, and its two bytes.
  lemma MemoryPush(words: seq<bv16>, w: bv16)
    ensures Memory(words + [w]) == Memory(words) + Bytes16(w)
  {
    assert (words + [w])[..|words|] == words;
  }

  lemma WordsPush(b: seq<byte>, two: seq<byte>)
    requires |b| % 2 == 0 && |two| == 2
    ensures Words(b + two) == Words(b) + [Load16(two)]
  {
    var c, n := b + two, |b|;
    assert (|c| / 2 - 1) * 2 == n && |c| / 2 * 2 == n + 2;
    assert c[..n] == b && c[n..n + 2] == two;
  }

  lemma {:induction false} WordsOfMemory(words: seq<bv16>)
    ensures Words(Memory(words)) == words
    decreases |words|
  {
    if words != [] {
      var early, last := words[..|words| - 1], words[|words| - 1];
      assert words == early + [last];
      WordsOfMemory(early);
      MemoryPush(early, last);
      WordsPush(Memory(early), Bytes16(last));
      LoadOfBytes16(last);
    }
  }

  lemma {:induction false} MemoryOfWords(b: seq<byte>)
    requires |b| % 2 == 0
    ensures Memory(Words(b)) == b
    decreases |b|
  {
    if b != [] {
      var early, last := b[..|b| - 2], b[|b| - 2..];
      assert b == early + last;
      MemoryOfWords(early);
      WordsPush(early, last);
      MemoryPush(Words(early), Load16(last));
      BytesOfLoad16(last);
    }
  }

  // Word i occupies bytes 2i and 2i + 1.
  lemma {:induction false} WordAt(b: seq<byte>, i: nat)
    requires 2 * i + 1 < |b|
    ensures Words(b)[i] == Join16(b[2 * i], b[2 * i + 1])
    decreases |b|
  {
    var n := |b| / 2 - 1;
    if i < n {
      WordAt(b[..2 * n], i);
      assert Words(b)[i] == Words(b[..2 * n])[i];
    } else {
      assert Words(b)[n] == Load16(b[2 * n..2 * n + 2]);
    }
  }

  // network_to_host.copy of a 16-byte network address into the words.
  function FromNetwork(net: seq<byte>): (words: seq<bv16>)
    requires |net| == 16
    ensures |words| == 8
  { Words(Reverse(net)) }

  /** Layout: stored word i is the big-endian group 7 - i of the network address. */
  lemma StoredWordIsGroup(net: seq<byte>, i: nat)
    requires |net| == 16 && i < 8
    ensures net[14 - 2 * i..16 - 2 * i] == Network16(FromNetwork(net)[i])
  {
    var hi, lo := net[14 - 2 * i], net[15 - 2 * i];
    WordAt(Reverse(net), i);
    assert Reverse(net)[2 * i] == lo && Reverse(net)[2 * i + 1] == hi;
    Split16(lo, hi);
  }

  // ----- equality -----

  // Two addresses are the same when the family is, and the address; the scope of
  // an IPv6 address is not compared.
  predicate SameAddress(a: IpAddress, b: IpAddress) {
    a.family == b.family && if a.family.Inet? then a.word == b.word else a.words == b.words
  }

  // ip_address::operator==
  method AddressesEqual(a: IpAddress, b: IpAddress) returns (eq: bool)
    requires a.Valid() && b.Valid()
    ensures eq <==> SameAddress(a, b)
  {
    if a.family != b.family {
      return false;
    }
    if a.family.Inet? {
      return a.word == b.word;
    }
    for i := 0 to 8
      invariant forall j | 0 <= j < i :: a.words[j] == b.words[j]
    {
      if a.words[i] != b.words[i] {
        return false;
      }
    }
    return true;
  }

  // ip_endpoint::operator==
  predicate SameEndpoint(a: Endpoint, b: Endpoint) { SameAddress(a.address, b.address) && a.port == b.port }

  // ----- conversion -----

  const AF_INET: bv16 := 2
  const AF_INET6: bv16 := 10
  const SIZEOF_SOCKADDR_IN: nat := 16
  const SIZEOF_SOCKADDR_IN6: nat := 28

  function Zeros(n: nat): (z: seq<byte>)
    ensures |z| == n
  { seq(n, _ => 0) }

  // The fields of the two structures, in order.
  function SockaddrIn(family: seq<byte>, port: seq<byte>, addr: seq<byte>): seq<byte> {
    family + port + addr + Zeros(8)
  }

  function SockaddrIn6(family: seq<byte>, port: seq<byte>, addr: seq<byte>, scope: seq<byte>): seq<byte> {
    family + port + Zeros(4) + addr + scope
  }

  /** The bytes of the socket address made for an endpoint. */
  function Encode(e: Endpoint): (b: seq<byte>)
    requires e.address.Valid()
    ensures |b| == if e.address.family.Inet6? then SIZEOF_SOCKADDR_IN6 else SIZEOF_SOCKADDR_IN
  {
    if e.address.family.Inet6? then
      SockaddrIn6(Bytes16(AF_INET6), Bytes16(Swap16(e.port)), Reverse(Memory(e.address.words)),
                  Bytes32(Swap32(e.address.word)))
    else
      SockaddrIn(Bytes16(AF_INET), Bytes16(Swap16(e.port)), Bytes32(Swap32(e.address.word)))
  }

  // invalid_argument and out_of_range, the exceptions of conversion and parsing
  datatype Result<+T> = Ok(value: T) | InvalidArgument | OutOfRange

  // A buffer long enough for the family it starts with.
  predicate WellFormed(b: seq<byte>) {
    && |b| >= 2
    && (Load16(b[..2]) == AF_INET6 ==> |b| >= SIZEOF_SOCKADDR_IN6)
    && (Load16(b[..2]) == AF_INET ==> |b| >= SIZEOF_SOCKADDR_IN)
  }

  /** The endpoint read from the bytes of a socket address. */
  function Decode(b: seq<byte>): (r: Result<Endpoint>)
    requires WellFormed(b)
    ensures r.Ok? ==> r.value.address.Valid()
  {
    var family := Load16(b[..2]);
    if family != AF_INET && family != AF_INET6 then InvalidArgument
    else if family == AF_INET6 then
      Ok(Endpoint(V6(FromNetwork(b[8..24]), Swap32(Load32(b[24..28]))), Swap16(Load16(b[2..4]))))
    else
      Ok(Endpoint(V4(Swap32(Load32(b[4..8]))), Swap16(Load16(b[2..4]))))
  }

  lemma FamilyBytes()
    ensures Load16(Bytes16(AF_INET)) == AF_INET && Load16(Bytes16(AF_INET6)) == AF_INET6
  {
  }

  // The fields of an encoded endpoint, one by one.
  lemma EncodedFields(e: Endpoint)
    requires e.address.Valid()
    ensures var b := Encode(e);
            && b[2..4] == Bytes16(Swap16(e.port))
            && (e.address.family.Inet6? ==>
                  b[..2] == Bytes16(AF_INET6) && b[4..8] == Zeros(4)
                  && b[8..24] == Reverse(Memory(e.address.words)) && b[24..28] == Bytes32(Swap32(e.address.word)))
            && (e.address.family.Inet? ==>
                  b[..2] == Bytes16(AF_INET) && b[4..8] == Bytes32(Swap32(e.address.word)) && b[8..16] == Zeros(8))
  {
  }

  lemma GroupInside(b: seq<byte>, i: nat)
    requires |b| >= 24 && i < 8
    ensures b[22 - 2 * i..24 - 2 * i] == b[8..24][14 - 2 * i..16 - 2 * i]
  {
  }

  lemma EncodedGroup(words: seq<bv16>, i: nat)
    requires |words| == 8 && i < 8
    ensures Reverse(Memory(words))[14 - 2 * i..16 - 2 * i] == Network16(words[i])
  {
    StoredWordIsGroup(Reverse(Memory(words)), i);
    ReverseInvolution(Memory(words));
    WordsOfMemory(words);
  }

  // Layout, after RFC 3493 section 3.3 for IPv6: the family in host order, ...
  lemma EncodedFamily(e: Endpoint)
    requires e.address.Valid()
    ensures Load16(Encode(e)[..2]) == if e.address.family.Inet6? then AF_INET6 else AF_INET
  {
  }

  // ... the port most significant byte first, ...
  lemma EncodedPort(e: Endpoint)
    requires e.address.Valid()
    ensures Encode(e)[2..4] == Network16(e.port)
  {
    EncodedFields(e);
    Swap16IsNetworkOrder(e.port);
  }

  // ... an IPv4 address likewise, with zero padding, ...
  lemma EncodedAddress(e: Endpoint)
    requires e.address.Valid() && e.address.family.Inet?
    ensures Encode(e)[4..8] == Network32(e.address.word) && Encode(e)[8..16] == Zeros(8)
  {
  }

  // ... and an IPv6 address as eight groups, group 7 - i holding stored word i.
  lemma EncodedAddress6(e: Endpoint, i: nat)
    requires e.address.Valid() && e.address.family.Inet6? && i < 8
    ensures Encode(e)[4..8] == Zeros(4)
    ensures Encode(e)[22 - 2 * i..24 - 2 * i] == Network16(e.address.words[i])
  {
    EncodedFields(e);
    GroupInside(Encode(e), i);
    EncodedGroup(e.address.words, i);
  }

  // The scope goes through the same swap as the port, although no standard asks for it.
  lemma EncodedScope(e: Endpoint)
    requires e.address.Valid() && e.address.family.Inet6?
    ensures Encode(e)[24..28] == Network32(e.address.word)
  {
    EncodedFields(e);
    Swap32IsNetworkOrder(e.address.word);
  }

  /** Round trip: an endpoint comes back from its socket address with family, port,
      address and scope. */
  lemma DecodeInvertsEncode(e: Endpoint)
    requires e.address.Valid()
    ensures WellFormed(Encode(e)) && Decode(Encode(e)) == Ok(e)
  {
    EncodedFields(e);
    FamilyBytes();
    LoadOfBytes16(Swap16(e.port));
    SwapInvolution16(e.port);
    LoadOfBytes32(Swap32(e.address.word));
    SwapInvolution32(e.address.word);
    ReverseInvolution(Memory(e.address.words));
    WordsOfMemory(e.address.words);
  }

  /** What conversion to an endpoint and back makes of a socket address: family,
      port, address and scope bytes kept, every other byte zero, nothing beyond. */
  function Normal(b: seq<byte>): (n: seq<byte>)
    requires WellFormed(b)
  {
    if Load16(b[..2]) == AF_INET6 then b[..4] + Zeros(4) + b[8..28]
    else if Load16(b[..2]) == AF_INET then b[..8] + Zeros(8)
    else b
  }

  lemma SwappedFieldsSurvive(two: seq<byte>, four: seq<byte>)
    requires |two| == 2 && |four| == 4
    ensures Bytes16(Swap16(Swap16(Load16(two)))) == two && Bytes32(Swap32(Swap32(Load32(four)))) == four
  {
  }

  // Putting the fields of a buffer together again.
  lemma Reassembled(b: seq<byte>)
    ensures |b| >= SIZEOF_SOCKADDR_IN6 ==>
      SockaddrIn6(b[..2], b[2..4], b[8..24], b[24..28]) == b[..4] + Zeros(4) + b[8..28]
    ensures |b| >= SIZEOF_SOCKADDR_IN ==> SockaddrIn(b[..2], b[2..4], b[4..8]) == b[..8] + Zeros(8)
  {
  }

  lemma EncodeDecodeIn6(b: seq<byte>)
    requires WellFormed(b) && Load16(b[..2]) == AF_INET6
    ensures Decode(b).Ok? && Encode(Decode(b).value) == Normal(b)
  {
    Reassembled(b);
    BytesOfLoad16(b[..2]);
    SwappedFieldsSurvive(b[2..4], b[24..28]);
    MemoryOfWords(Reverse(b[8..24]));
    ReverseInvolution(b[8..24]);
  }

  lemma EncodeDecodeIn(b: seq<byte>)
    requires WellFormed(b) && Load16(b[..2]) == AF_INET
    ensures Decode(b).Ok? && Encode(Decode(b).value) == Normal(b)
  {
  }

  lemma EncodeDecodeNormalises(b: seq<byte>)
    requires WellFormed(b)
    ensures Decode(b).Ok? <==> Load16(b[..2]) == AF_INET || Load16(b[..2]) == AF_INET6
    ensures Decode(b).Ok? ==> Encode(Decode(b).value) == Normal(b)
  {
    if Load16(b[..2]) == AF_INET6 { EncodeDecodeIn6(b); }
    if Load16(b[..2]) == AF_INET { EncodeDecodeIn(b); }
  }

  // Normalising is idempotent.
  lemma NormalIsFixed(b: seq<byte>)
    requires WellFormed(b) && Decode(b).Ok?
    ensures WellFormed(Normal(b)) && Normal(Normal(b)) == Normal(b) && Decode(Normal(b)) == Decode(b)
  {
    EncodeDecodeNormalises(b);
    DecodeInvertsEncode(Decode(b).value);
    EncodeDecodeNormalises(Normal(b));
  }

  // The encoding without its scope field.
  function Unscoped(b: seq<byte>): seq<byte> { if |b| == SIZEOF_SOCKADDR_IN6 then b[..24] else b }

  lemma EqualEncodeAlike(a: Endpoint, b: Endpoint)
    requires a.address.Valid() && b.address.Valid() && SameEndpoint(a, b)
    ensures Unscoped(Encode(a)) == Unscoped(Encode(b))
  {
  }

  // Port and address can be read from the encoding without its scope.
  lemma UnscopedDetermines(e: Endpoint)
    requires e.address.Valid()
    ensures var u := Unscoped(Encode(e));
            && |u| == (if e.address.family.Inet6? then 24 else SIZEOF_SOCKADDR_IN)
            && e.port == Swap16(Load16(u[2..4]))
            && (if e.address.family.Inet6? then e.address.words == FromNetwork(u[8..24])
                else e.address.word == Swap32(Load32(u[4..8])))
  {
    DecodeInvertsEncode(e);
    EncodedFamily(e);
    var b, u := Encode(e), Unscoped(Encode(e));
    assert u[2..4] == b[2..4];
    if e.address.family.Inet6? { assert u[8..24] == b[8..24]; }
  }

  /** Endpoint equality is equality of the encodings outside the IPv6 scope. */
  lemma EqualIffEncodedAlike(a: Endpoint, b: Endpoint)
    requires a.address.Valid() && b.address.Valid()
    ensures SameEndpoint(a, b) <==> Unscoped(Encode(a)) == Unscoped(Encode(b))
  {
    if SameEndpoint(a, b) { EqualEncodeAlike(a, b); }
    UnscopedDetermines(a);
    UnscopedDetermines(b);
  }

  // Encodings alike everywhere are of equal endpoints with equal scope.
  lemma EncodeIsInjective(a: Endpoint, b: Endpoint)
    requires a.address.Valid() && b.address.Valid() && Encode(a) == Encode(b)
    ensures a == b
  {
    DecodeInvertsEncode(a);
    DecodeInvertsEncode(b);
  }

  // ----- the conversions as written, over buffers -----

  method Store(a: array<byte>, at: nat, field: seq<byte>)
    requires at + |field| <= a.Length
    modifies a
    ensures a[..] == old(a[..at]) + field + old(a[at + |field|..])
  {
    forall i | 0 <= i < |field| { a[at + i] := field[i]; }
  }

  // host_to_network.copy of the words' memory into the address field.
  method StoreAddress(buf: array<byte>, memory: seq<byte>)
    requires buf.Length == SIZEOF_SOCKADDR_IN6 && |memory| == 16
    modifies buf
    ensures buf[..] == old(buf[..8]) + Reverse(memory) + old(buf[24..])
  {
    var words := new byte[16](i requires 0 <= i < 16 => memory[i]);
    assert words[0..16] == memory;
    Copy(buf, 8, words, 0, 16);
    CopiedApart(false, 8, memory);
    assert buf[..] == buf[..8] + buf[8..24] + buf[24..];
  }

  // Fills a zeroed sockaddr_in6.
  method FillIn6(buf: array<byte>, family: seq<byte>, port: seq<byte>, memory: seq<byte>, scope: seq<byte>)
    requires buf[..] == Zeros(SIZEOF_SOCKADDR_IN6)
    requires |family| == |port| == 2 && |memory| == 16 && |scope| == 4
    modifies buf
    ensures buf[..] == SockaddrIn6(family, port, Reverse(memory), scope)
  {
    Store(buf, 0, family);
    assert buf[..] == family + Zeros(26);
    Store(buf, 2, port);
    assert buf[..] == family + port + Zeros(24);
    Store(buf, 24, scope);
    assert buf[..8] == family + port + Zeros(4) && buf[24..] == scope;
    StoreAddress(buf, memory);
  }

  method FillIn(buf: array<byte>, family: seq<byte>, port: seq<byte>, addr: seq<byte>)
    requires buf[..] == Zeros(SIZEOF_SOCKADDR_IN)
    requires |family| == |port| == 2 && |addr| == 4
    modifies buf
    ensures buf[..] == SockaddrIn(family, port, addr)
  {
    Store(buf, 0, family);
    assert buf[..] == family + Zeros(14);
    Store(buf, 2, port);
    assert buf[..] == family + port + Zeros(12);
    Store(buf, 4, addr);
    assert buf[..] == family + port + addr + Zeros(8);
  }

  /** convert_address to a socket address: fills the fields of a zeroed buffer. */
  method ToSocketAddress(e: Endpoint, heap: Allocator, ghost pool: set<SocketAddress>) returns (s: SocketAddress)
    requires e.address.Valid() && Separated(heap, pool)
    modifies heap
    ensures s.heap == heap && fresh(s) && Separated(heap, pool + {s}) && s.Contents() == Encode(e)
  {
    var port, word := Bytes16(Swap16(e.port)), Bytes32(Swap32(e.address.word));
    if e.address.family.Inet6? {
      s := new SocketAddress.Sized(heap, SIZEOF_SOCKADDR_IN6, pool);
      var memory := Memory(e.address.words);
      assert s.ptr[..] == s.Contents();
      FillIn6(s.ptr, Bytes16(AF_INET6), port, memory, word);
    } else {
      s := new SocketAddress.Sized(heap, SIZEOF_SOCKADDR_IN, pool);
      assert s.ptr[..] == s.Contents();
      FillIn(s.ptr, Bytes16(AF_INET), port, word);
    }
  }

  // network_to_host.copy of the address field into words of memory.
  method CopyAddress(s: SocketAddress) returns (memory: seq<byte>)
    requires s.Valid() && s.size >= SIZEOF_SOCKADDR_IN6
    ensures memory == Reverse(s.Contents()[8..24])
  {
    ghost var field := s.ptr[8..24];
    assert field == s.Contents()[8..24];
    CopiedApart(false, -8, field);
    var bytes := new byte[16];
    Copy(bytes, 0, s.ptr, 8, 16);
    memory := bytes[0..16];
  }

  /** convert_address from a socket address. */
  method ToEndpoint(s: SocketAddress) returns (r: Result<Endpoint>)
    requires s.Valid() && WellFormed(s.Contents())
    ensures r == Decode(s.Contents())
  {
    var buf := s.ptr[..s.size];
    var family := Load16(buf[..2]);
    if family != AF_INET && family != AF_INET6 {
      return InvalidArgument;
    }
    if family == AF_INET6 {
      var memory := CopyAddress(s);
      return Ok(Endpoint(V6(Words(memory), Swap32(Load32(buf[24..28]))), Swap16(Load16(buf[2..4]))));
    }
    return Ok(Endpoint(V4(Swap32(Load32(buf[4..8]))), Swap16(Load16(buf[2..4]))));
  }
}

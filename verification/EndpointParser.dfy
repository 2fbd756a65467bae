/** The string constructor of `ip_endpoint` with the library functions it calls:
    find and substr on strings, stoi, and address parsing with inet_pton left
    uninterpreted. */
module EndpointParser {
  import opened Os
  import opened Endian
  import opened Addresses

  // ----- std::string -----

  function Find(s: string, c: char, from: nat): (r: Option<nat>)
    ensures r.None? ==> forall i | from <= i < |s| :: s[i] != c
    ensures r.Some? ==> from <= r.value < |s| && s[r.value] == c && forall i | from <= i < r.value :: s[i] != c
    decreases |s| - from
  {
    if |s| <= from then None else if s[from] == c then Some(from) else Find(s, c, from + 1)
  }

  // substr(open + 1, close - open - 1): the length is a size_t, so a bracket closed
  // before it opens gives a length that wraps to more than what remains.
  function Between(s: string, open: nat, close: nat): string
    requires open < |s| && close < |s| && open != close
  { if open < close then s[open + 1..close] else s[open + 1..] }

  // ----- std::stoi -----

  predicate IsSpace(c: char) { c == ' ' || '\t' <= c <= '\r' }

  predicate IsDigit(c: char) { '0' <= c <= '9' }

  predicate AllSpace(ws: string) { forall i | 0 <= i < |ws| :: IsSpace(ws[i]) }

  function SkipSpace(s: string): (t: string)
    ensures |t| <= |s|
  { if s != [] && IsSpace(s[0]) then SkipSpace(s[1..]) else s }

  function LeadingDigits(s: string): (d: string)
    ensures AllDigits(d)
  { if s != [] && IsDigit(s[0]) then [s[0]] + LeadingDigits(s[1..]) else [] }

  predicate AllDigits(d: string) { forall i | 0 <= i < |d| :: IsDigit(d[i]) }

  function Value(d: string): nat
    requires AllDigits(d)
  { if d == [] then 0 else 10 * Value(d[..|d| - 1]) + (d[|d| - 1] as int - '0' as int) }

  const INT_MIN: int := -0x8000_0000

  // The sign that a number may begin with.
  function SignOf(t: string): (sign: string)
    ensures sign <= t && (sign == "" || sign == "+" || sign == "-")
  { if t != [] && (t[0] == '-' || t[0] == '+') then t[..1] else "" }

  function Signed(sign: string, n: nat): int { if sign == "-" then -(n as int) else n as int }

  // White space, an optional sign and at least one digit; the rest is ignored.
  function StoI(s: string): (r: Result<int>)
    ensures r.Ok? ==> INT_MIN <= r.value <= INT_MAX
  {
    var t := SkipSpace(s);
    var sign := SignOf(t);
    var d := LeadingDigits(t[|sign|..]);
    var v := Signed(sign, Value(d));
    if d == [] then InvalidArgument
    else if INT_MIN <= v <= INT_MAX then Ok(v) else OutOfRange
  }

  // Conversion of an int to uint16_t.
  function ToPort(v: int): bv16 { (v % 0x1_0000) as bv16 }

  // ----- addresses from text -----

  type Net4 = s: seq<byte> | |s| == 4 witness [0, 0, 0, 0]
  type Net16 = s: seq<byte> | |s| == 16 witness seq(16, _ => 0)

  // inet_pton for each family: the network address, if the text denotes one.
  datatype Pton = Pton(v4: string -> Option<Net4>, v6: string -> Option<Net16>)

  // ip_address(const std::string &)
  function AddressFromText(pton: Pton, text: string): (r: Result<IpAddress>)
    ensures r.Ok? ==> r.value.Valid() && (r.value.family.Inet6? <==> ':' in text)
    ensures !r.OutOfRange?
  {
    if ':' in text then
      match pton.v6(text) { case None => InvalidArgument case Some(net) => Ok(V6(FromNetwork(net), 0)) }
    else
      match pton.v4(text) { case None => InvalidArgument case Some(net) => Ok(V4(Swap32(Load32(net)))) }
  }

  /** Text is accepted exactly when inet_pton accepts it for the family its colons
      decide, and the address then holds, in network order, the very bytes given. */
  lemma AddressCarriesNetwork(pton: Pton, text: string)
    ensures var r := AddressFromText(pton, text);
            && (r.Ok? <==> if ':' in text then pton.v6(text).Some? else pton.v4(text).Some?)
            && (r.Ok? && ':' in text ==>
                  r.value.family == Inet6 && r.value.word == 0 && Reverse(Memory(r.value.words)) == pton.v6(text).value)
            && (r.Ok? && ':' !in text ==> r.value.family == Inet && Network32(r.value.word) == pton.v4(text).value)
  {
    if ':' in text {
      if pton.v6(text).Some? {
        var net := pton.v6(text).value;
        MemoryOfWords(Reverse(net));
        ReverseInvolution(net);
      }
    } else if pton.v4(text).Some? {
      var net := pton.v4(text).value;
      SwappedFieldsSurvive([0, 0], net);
      Swap32IsNetworkOrder(Swap32(Load32(net)));
    }
  }

  // ip_address(const std::string &, uint32_t)
  function AddressFromTextAndScope(pton: Pton, text: string, scope: bv32): (r: Result<IpAddress>)
    ensures r.Ok? ==> r.value.Valid()
  {
    match pton.v6(text) { case None => InvalidArgument case Some(net) => Ok(V6(FromNetwork(net), scope)) }
  }

  lemma ScopedCarriesNetwork(pton: Pton, text: string, scope: bv32)
    ensures var r := AddressFromTextAndScope(pton, text, scope);
            && (r.Ok? <==> pton.v6(text).Some?) && !r.OutOfRange?
            && (r.Ok? ==> r.value.family == Inet6 && r.value.word == scope
                          && Reverse(Memory(r.value.words)) == pton.v6(text).value)
  {
    if pton.v6(text).Some? {
      var net := pton.v6(text).value;
      MemoryOfWords(Reverse(net));
      ReverseInvolution(net);
    }
  }

  // ip_address(const char *, uint32_t) hands on the text alone.
  function AddressFromCharsAndScope(pton: Pton, text: string, scope: bv32): (r: Result<IpAddress>)
    ensures r.Ok? ==> r.value.Valid()
  { AddressFromText(pton, text) }

  /** The two scoped constructors agree exactly when the dropped scope is 0 on text
      that holds a colon, or neither accepts the text. */
  lemma CharsDropScope(pton: Pton, text: string, scope: bv32)
    ensures AddressFromCharsAndScope(pton, text, scope) == AddressFromTextAndScope(pton, text, scope)
            <==> (pton.v6(text).None? && (':' in text || pton.v4(text).None?))
                 || (pton.v6(text).Some? && ':' in text && scope == 0)
  {
  }

  // ----- endpoints from text -----

  // Where the text is cut: an address and, if given, the text of a port.
  datatype Parts = Unsplit | Parts(address: string, port: Option<string>)

  function Split(ip: string): Parts {
    match Find(ip, '[', 0)
    case Some(open) =>
      (match Find(ip, ']', 0)
       case None => Unsplit
       case Some(close) =>
         match Find(ip, ':', close + 1)
         case None => Unsplit
         case Some(colon) =>
           Parts(Between(ip, open, close), Some(ip[colon + 1..])))
    case None =>
      match Find(ip, ':', 0)
      case None => Parts(ip, None)
      case Some(colon) => Parts(ip[..colon], Some(ip[colon + 1..]))
  }

  // _port = std::stoi(text)
  function WithPort(address: IpAddress, text: string): (r: Result<Endpoint>)
    ensures r.Ok? ==> r.value.address == address
  {
    match StoI(text)
    case InvalidArgument => InvalidArgument
    case OutOfRange => OutOfRange
    case Ok(v) => Ok(Endpoint(address, ToPort(v)))
  }

  function Parse(pton: Pton, ip: string): (r: Result<Endpoint>)
    ensures r.Ok? ==> r.value.address.Valid()
  {
    var parts := Split(ip);
    if parts.Unsplit? then InvalidArgument
    else
      match AddressFromText(pton, parts.address)
      case InvalidArgument => InvalidArgument
      case OutOfRange => OutOfRange
      case Ok(a) =>
        if parts.port.None? then Ok(Endpoint(a, 0)) else WithPort(a, parts.port.value)
  }

  // The text with brackets, the first opening one at `find`.
  method ParseInBrackets(pton: Pton, ip: string, find: nat) returns (r: Result<Endpoint>)
    requires Find(ip, '[', 0) == Some(find)
    ensures r == Parse(pton, ip)
  {
    var end := Find(ip, ']', 0);
    if end.None? {
      assert Split(ip).Unsplit?;
      return InvalidArgument;
    }
    ghost var separated := Find(ip, ':', end.value + 1);
    assert Split(ip) == if separated.None? then Unsplit
                        else Parts(Between(ip, find, end.value), Some(ip[separated.value + 1..]));
    var address := AddressFromText(pton, Between(ip, find, end.value));
    if !address.Ok? {
      return InvalidArgument;
    }
    var separator := Find(ip, ':', end.value + 1);
    if separator.None? {
      return InvalidArgument;
    }
    r := WithPort(address.value, ip[separator.value + 1..]);
  }

  /** ip_endpoint(const std::string &): assigns address and port step by step. */
  method ParseEndpoint(pton: Pton, ip: string) returns (r: Result<Endpoint>)
    ensures r == Parse(pton, ip)
  {
    var find := Find(ip, '[', 0);
    if find.Some? {
      r := ParseInBrackets(pton, ip, find.value);
      return;
    }
    var separator := Find(ip, ':', 0);
    if separator.None? {
      var address := AddressFromText(pton, ip);
      if !address.Ok? {
        return InvalidArgument;
      }
      return Ok(Endpoint(address.value, 0));
    }
    var address := AddressFromText(pton, ip[..separator.value]);
    if !address.Ok? {
      return InvalidArgument;
    }
    r := WithPort(address.value, ip[separator.value + 1..]);
  }

  // ----- decimal text -----

  function Decimal(n: nat): (d: string)
    ensures d != [] && AllDigits(d)
  {
    if n < 10 then [('0' as int + n) as char] else Decimal(n / 10) + [('0' as int + n % 10) as char]
  }

  lemma {:induction false} ValueOfDecimal(n: nat)
    ensures Value(Decimal(n)) == n
  {
    if n < 10 {
      assert Decimal(n)[..0] == [];
    } else {
      ValueOfDecimal(n / 10);
      assert Decimal(n)[..|Decimal(n)| - 1] == Decimal(n / 10);
    }
  }

  lemma {:induction false} DigitsLead(d: string, rest: string)
    requires AllDigits(d) && (rest == [] || !IsDigit(rest[0]))
    ensures LeadingDigits(d + rest) == d
    decreases |d|
  {
    if d == [] {
      assert d + rest == rest;
    } else {
      assert (d + rest)[1..] == d[1..] + rest;
      DigitsLead(d[1..], rest);
    }
  }

  lemma {:induction false} SpacesSkipped(ws: string, t: string)
    requires AllSpace(ws) && t != [] && !IsSpace(t[0])
    ensures SkipSpace(ws + t) == t
    decreases |ws|
  {
    if ws == [] {
      assert ws + t == t;
    } else {
      assert (ws + t)[1..] == ws[1..] + t;
      SpacesSkipped(ws[1..], t);
    }
  }

  // White space, an optional sign, digits, and something that is no digit.
  predicate Numeral(s: string, ws: string, sign: string, d: string, rest: string) {
    && s == ws + (sign + (d + rest))
    && AllSpace(ws) && (sign == "" || sign == "+" || sign == "-")
    && d != "" && AllDigits(d) && (rest == "" || !IsDigit(rest[0]))
  }

  /** stoi reads any white space, one optional sign and all digits that follow,
      leading zeros included, and is out of range exactly beyond the ints. */
  lemma StoIReads(s: string, ws: string, sign: string, d: string, rest: string)
    requires Numeral(s, ws, sign, d, rest)
    ensures var v := Signed(sign, Value(d));
            StoI(s) == if INT_MIN <= v <= INT_MAX then Ok(v) else OutOfRange
  {
    var t := sign + (d + rest);
    assert IsDigit(d[0]);
    SpacesSkipped(ws, t);
    assert SignOf(t) == sign && t[|sign|..] == d + rest;
    DigitsLead(d, rest);
  }

  lemma {:induction false} SkippedIsSpace(s: string) returns (ws: string)
    ensures s == ws + SkipSpace(s) && AllSpace(ws)
    decreases |s|
  {
    ws := [];
    if s != [] && IsSpace(s[0]) {
      ws := SkippedIsSpace(s[1..]);
      assert s == [s[0]] + (ws + SkipSpace(s[1..]));
      ws := [s[0]] + ws;
    }
  }

  lemma {:induction false} DigitsLeadText(s: string)
    ensures var d := LeadingDigits(s); d <= s && (|d| < |s| ==> !IsDigit(s[|d|]))
    decreases |s|
  {
    if s != [] && IsDigit(s[0]) { DigitsLeadText(s[1..]); }
  }

  lemma SignLeads(t: string)
    ensures var sign := SignOf(t); t == sign + t[|sign|..]
  {
  }

  lemma NumeralOfParts(s: string, ws: string, t: string, sign: string, u: string, d: string)
    requires s == ws + t && t == sign + u && d <= u
    requires AllSpace(ws) && (sign == "" || sign == "+" || sign == "-")
    requires d != "" && AllDigits(d) && (|d| < |u| ==> !IsDigit(u[|d|]))
    ensures Numeral(s, ws, sign, d, u[|d|..])
  {
    assert u == d + u[|d|..];
  }

  lemma StoIFindsNumeral(s: string) returns (ws: string, sign: string, d: string, rest: string)
    requires !StoI(s).InvalidArgument?
    ensures Numeral(s, ws, sign, d, rest)
  {
    var t := SkipSpace(s);
    ws := SkippedIsSpace(s);
    sign := SignOf(t);
    var u := t[|sign|..];
    d := LeadingDigits(u);
    DigitsLeadText(u);
    rest := u[|d|..];
    SignLeads(t);
    NumeralOfParts(s, ws, t, sign, u, d);
  }

  /** And it refuses exactly the texts that are not of this form. */
  lemma StoIRefusesIff(s: string)
    ensures StoI(s).InvalidArgument? <==> !exists ws, sign, d, rest :: Numeral(s, ws, sign, d, rest)
  {
    if !StoI(s).InvalidArgument? {
      var ws, sign, d, rest := StoIFindsNumeral(s);
    }
    forall ws, sign, d, rest | Numeral(s, ws, sign, d, rest)
      ensures !StoI(s).InvalidArgument?
    {
      StoIReads(s, ws, sign, d, rest);
    }
  }

  // In particular stoi inverts decimal notation on the ints.
  lemma StoIOfDecimal(n: nat)
    ensures StoI(Decimal(n)) == if n <= INT_MAX then Ok(n) else OutOfRange
  {
    ValueOfDecimal(n);
    assert Numeral(Decimal(n), "", "", Decimal(n), "");
    StoIReads(Decimal(n), "", "", Decimal(n), "");
  }

  // ----- every text, by positions -----

  // The first c at or after a position.
  predicate FirstAt(s: string, c: char, from: nat, at: nat) {
    from <= at < |s| && s[at] == c && forall i | from <= i < at :: s[i] != c
  }

  lemma FindFirst(s: string, c: char, from: nat, at: nat)
    requires FirstAt(s, c, from, at)
    ensures Find(s, c, from) == Some(at)
  {
  }

  // An address and a port, the address refused first; a port is cut to 16 bits.
  function Joined(address: Result<IpAddress>, port: Result<int>): Result<Endpoint> {
    match address
    case InvalidArgument => InvalidArgument
    case OutOfRange => OutOfRange
    case Ok(a) =>
      match port
      case InvalidArgument => InvalidArgument
      case OutOfRange => OutOfRange
      case Ok(v) => Ok(Endpoint(a, (v % 0x1_0000) as bv16))
  }

  // The first of each bracket, and the first colon after the closing one.
  predicate BracketsAt(ip: string, open: nat, close: nat, colon: nat) {
    FirstAt(ip, '[', 0, open) && FirstAt(ip, ']', 0, close) && FirstAt(ip, ':', close + 1, colon)
  }

  // What stands between the first brackets, or, when they are the wrong way round, all
  // that follows the opening one.
  function Inside(ip: string, open: nat, close: nat): string
    requires open < |ip| && close < |ip|
  { ip[open + 1..if open < close then close else |ip|] }

  lemma SplitOfBrackets(ip: string, open: nat, close: nat, colon: nat)
    requires BracketsAt(ip, open, close, colon)
    ensures Split(ip) == Parts(Inside(ip, open, close), Some(ip[colon + 1..]))
  {
    FindFirst(ip, '[', 0, open);
    FindFirst(ip, ']', 0, close);
    FindFirst(ip, ':', close + 1, colon);
    assert Between(ip, open, close) == Inside(ip, open, close);
  }

  lemma ParseOfParts(pton: Pton, ip: string, address: string, port: string)
    requires Split(ip) == Parts(address, Some(port))
    ensures Parse(pton, ip) == Joined(AddressFromText(pton, address), StoI(port))
  {
  }

  /** Text with an opening bracket, a closing one and a colon after that: the address
      stands between the first brackets and the port after the colon. */
  lemma ParseOfBrackets(pton: Pton, ip: string, open: nat, close: nat, colon: nat)
    requires BracketsAt(ip, open, close, colon)
    ensures Parse(pton, ip) == Joined(AddressFromText(pton, Inside(ip, open, close)), StoI(ip[colon + 1..]))
  {
    SplitOfBrackets(ip, open, close, colon);
    ParseOfParts(pton, ip, Inside(ip, open, close), ip[colon + 1..]);
  }

  lemma ParseOfPlain(pton: Pton, ip: string, colon: nat)
    requires '[' !in ip && FirstAt(ip, ':', 0, colon)
    ensures Parse(pton, ip) == Joined(AddressFromText(pton, ip[..colon]), StoI(ip[colon + 1..]))
  {
    FindFirst(ip, ':', 0, colon);
  }

  lemma {:induction false} FirstExists(s: string, c: char, from: nat, at: nat) returns (first: nat)
    requires from <= at < |s| && s[at] == c
    ensures FirstAt(s, c, from, first) && first <= at
    decreases at - from
  {
    first := from;
    if s[from] != c { first := FirstExists(s, c, from + 1, at); }
  }

  // A closing bracket at i, the first, and a colon somewhere after it.
  predicate ClosedWithColon(ip: string, i: nat, j: nat) { FirstAt(ip, ']', 0, i) && i < j < |ip| && ip[j] == ':' }

  lemma BracketsExist(ip: string, i: nat, j: nat) returns (open: nat, colon: nat)
    requires '[' in ip && ClosedWithColon(ip, i, j)
    ensures BracketsAt(ip, open, i, colon)
  {
    var k :| 0 <= k < |ip| && ip[k] == '[';
    open := FirstExists(ip, '[', 0, k);
    colon := FirstExists(ip, ':', i + 1, j);
  }

  /** Text with an opening bracket is cut exactly when a colon follows the first closing
      bracket; all other such text is an invalid argument, "[::1]" included. */
  lemma BracketsNeedColon(pton: Pton, ip: string)
    requires '[' in ip
    ensures !Split(ip).Unsplit? <==> exists i: nat, j: nat :: ClosedWithColon(ip, i, j)
    ensures (forall i: nat, j: nat :: !ClosedWithColon(ip, i, j)) ==> Parse(pton, ip) == InvalidArgument
  {
    if i: nat, j: nat :| ClosedWithColon(ip, i, j) {
      var open, colon := BracketsExist(ip, i, j);
      FindFirst(ip, '[', 0, open);
      FindFirst(ip, ']', 0, i);
      FindFirst(ip, ':', i + 1, colon);
    } else if !Split(ip).Unsplit? {
      var close := Find(ip, ']', 0).value;
      assert ClosedWithColon(ip, close, Find(ip, ':', close + 1).value);
    }
  }

  predicate AcceptsAt(pton: Pton, ip: string, open: nat, close: nat, colon: nat) {
    && BracketsAt(ip, open, close, colon)
    && AddressFromText(pton, Inside(ip, open, close)).Ok? && StoI(ip[colon + 1..]).Ok?
  }

  // The texts to accept, by the positions of their marks alone.
  ghost predicate Accepts(pton: Pton, ip: string) {
    if '[' in ip then exists open: nat, close: nat, colon: nat :: AcceptsAt(pton, ip, open, close, colon)
    else if ':' in ip then
      exists colon: nat :: FirstAt(ip, ':', 0, colon)
        && AddressFromText(pton, ip[..colon]).Ok? && StoI(ip[colon + 1..]).Ok?
    else AddressFromText(pton, ip).Ok?
  }

  lemma BracketsUnique(ip: string, open: nat, close: nat, colon: nat, o: nat, c: nat, k: nat)
    requires BracketsAt(ip, open, close, colon) && BracketsAt(ip, o, c, k)
    ensures o == open && c == close && k == colon
  {
  }

  lemma AcceptedInBrackets(pton: Pton, ip: string, open: nat, close: nat, colon: nat)
    requires BracketsAt(ip, open, close, colon)
    ensures Parse(pton, ip).Ok? <==> Accepts(pton, ip)
  {
    ParseOfBrackets(pton, ip, open, close, colon);
    if Accepts(pton, ip) {
      var o: nat, c: nat, k: nat :| AcceptsAt(pton, ip, o, c, k);
      BracketsUnique(ip, open, close, colon, o, c, k);
    } else {
      assert !AcceptsAt(pton, ip, open, close, colon);
    }
  }

  lemma RefusedInBrackets(pton: Pton, ip: string)
    requires '[' in ip && forall i: nat, j: nat :: !ClosedWithColon(ip, i, j)
    ensures !Parse(pton, ip).Ok? && !Accepts(pton, ip)
  {
    BracketsNeedColon(pton, ip);
    forall o: nat, c: nat, k: nat
      ensures !AcceptsAt(pton, ip, o, c, k)
    {
      if BracketsAt(ip, o, c, k) { assert ClosedWithColon(ip, c, k); }
    }
  }

  /** Exactly which texts are accepted. */
  lemma AcceptedIff(pton: Pton, ip: string)
    ensures Parse(pton, ip).Ok? <==> Accepts(pton, ip)
  {
    if '[' in ip {
      if i: nat, j: nat :| ClosedWithColon(ip, i, j) {
        var open, colon := BracketsExist(ip, i, j);
        AcceptedInBrackets(pton, ip, open, i, colon);
      } else {
        RefusedInBrackets(pton, ip);
      }
    } else if ':' in ip {
      var k :| 0 <= k < |ip| && ip[k] == ':';
      var colon := FirstExists(ip, ':', 0, k);
      ParseOfPlain(pton, ip, colon);
    }
  }

  // ----- canonical forms -----

  lemma BracketedText(addr: string, port: string)
    ensures var ip, n := "[" + addr + "]:" + port, |addr|;
            && ip[0] == '[' && ip[1..n + 1] == addr && ip[n + 1] == ']' && ip[n + 2] == ':' && ip[n + 3..] == port
            && |ip| == n + 3 + |port| && forall i | 1 <= i <= n :: ip[i] == addr[i - 1]
  {
  }

  /** `[address]:port` is cut into exactly these two if and only if the address text
      holds no closing bracket. */
  lemma SplitBracketed(addr: string, port: string)
    ensures Split("[" + addr + "]:" + port) == Parts(addr, Some(port)) <==> ']' !in addr
  {
    var ip := "[" + addr + "]:" + port;
    BracketedText(addr, port);
    FindFirst(ip, '[', 0, 0);
    if ']' in addr {
      var i :| 0 <= i < |addr| && addr[i] == ']';
      assert ip[i + 1] == ']';
      assert Find(ip, ']', 0).value <= i + 1;
    } else {
      FindFirst(ip, ']', 0, |addr| + 1);
      FindFirst(ip, ':', |addr| + 2, |addr| + 2);
    }
  }

  /** `address:port` is cut into exactly these two if and only if the address text
      holds no colon, provided the whole holds no opening bracket. */
  lemma SplitPlain(addr: string, port: string)
    requires '[' !in addr && '[' !in port
    ensures Split(addr + ":" + port) == Parts(addr, Some(port)) <==> ':' !in addr
  {
    var ip := addr + ":" + port;
    var n := |addr|;
    assert ip[n] == ':' && forall i | 0 <= i < n :: ip[i] == addr[i];
    assert '[' !in ip;
    assert Find(ip, '[', 0).None?;
    if ':' in addr {
      var colon := Find(ip, ':', 0).value;
      assert colon < n by {
        var i :| 0 <= i < n && addr[i] == ':';
        assert ip[i] == ':';
      }
      assert |Split(ip).address| < n;
    } else {
      FindFirst(ip, ':', 0, n);
      assert ip[..n] == addr && ip[n + 1..] == port;
    }
  }

  // What an address text and a decimal port should parse to.
  function Intended(pton: Pton, addr: string, n: nat): Result<Endpoint> {
    Joined(AddressFromText(pton, addr), if n <= INT_MAX then Ok(n) else OutOfRange)
  }

  /** The parser inverts the canonical text: the port comes back as it was below
      65536, modulo 65536 up to the largest int, and is refused beyond. */
  lemma ParseBracketed(pton: Pton, addr: string, n: nat)
    requires ']' !in addr
    ensures Parse(pton, "[" + addr + "]:" + Decimal(n)) == Intended(pton, addr, n)
  {
    SplitBracketed(addr, Decimal(n));
    StoIOfDecimal(n);
  }

  lemma ParsePlain(pton: Pton, addr: string, n: nat)
    requires '[' !in addr && ':' !in addr
    ensures Parse(pton, addr + ":" + Decimal(n)) == Intended(pton, addr, n)
  {
    assert '[' !in Decimal(n) by { assert AllDigits(Decimal(n)); }
    SplitPlain(addr, Decimal(n));
    StoIOfDecimal(n);
  }

  // Without a colon the port is 0.
  lemma ParseWithoutPort(pton: Pton, addr: string)
    requires '[' !in addr && ':' !in addr
    ensures Parse(pton, addr) == Intended(pton, addr, 0)
  {
  }

  /** IPv6 needs brackets: an accepted text yields an IPv6 endpoint only if it holds
      an opening bracket; unbracketed, no colon ever reaches the address. */
  lemma Inet6NeedsBracket(pton: Pton, ip: string)
    requires Parse(pton, ip).Ok? && Parse(pton, ip).value.address.family.Inet6?
    ensures '[' in ip && ':' in Split(ip).address
  {
  }

  // For every accepted text, only a colon in the address part decides the family.
  lemma FamilyFollowsColon(pton: Pton, ip: string)
    requires Parse(pton, ip).Ok?
    ensures Parse(pton, ip).value.address.family.Inet6? <==> ':' in Split(ip).address
  {
  }

  /** From text to the wire: the socket address of a parsed `[address]:port` carries
      the very bytes inet_pton gives for the address, and the port in network
      order, however the library stores them in between. */
  lemma TextToWire(pton: Pton, addr: string, n: nat)
    requires ']' !in addr && ':' in addr && pton.v6(addr).Some? && n < 0x1_0000
    ensures var r := Parse(pton, "[" + addr + "]:" + Decimal(n));
            && r.Ok?
            && r.value.address.family.Inet6?
            && Encode(r.value)[8..24] == pton.v6(addr).value
            && Encode(r.value)[2..4] == Network16(n as bv16)
  {
    var net := pton.v6(addr).value;
    ParseBracketed(pton, addr, n);
    var e := Parse(pton, "[" + addr + "]:" + Decimal(n)).value;
    assert e == Endpoint(V6(FromNetwork(net), 0), n as bv16);
    EncodedFields(e);
    EncodedPort(e);
    MemoryOfWords(Reverse(net));
    ReverseInvolution(net);
  }
}

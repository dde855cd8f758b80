/** The SOCKS5 server of src/proxy.rs: the handshake, the reply and dotted addresses (RFC 1928, sections 3 to 6). */
module Socks5 {
  import opened Basics
  import opened Text
  import opened ForwardSpec

  type Octets4 = s: Bytes | |s| == 4 witness [0, 0, 0, 0]
  type Octets16 = s: Bytes | |s| == 16 witness [0, 0, 0, 0, 0, 0, 0, 0, 0, 0, 0, 0, 0, 0, 0, 0]

  datatype Address = V4(v4: Octets4) | Domain(name: Bytes) | V6(v6: Octets16)

  datatype Hello = Hello(version: Byte, methods: Bytes)

  /** Version, command and the reserved byte are read and not looked at. */
  datatype Request = Request(version: Byte, command: Byte, reserved: Byte, address: Address, port: nat)

  /** Library conversions: the text of an IPv6 address and its parser, and lossy UTF-8 decoding and encoding. */
  datatype Library = Library(v6Text: Octets16 -> string, parseV6: string -> Option<Octets16>,
                             decode: Bytes -> string, encode: string -> Bytes)

  datatype SocksError = Truncated | NotWritable | UnsupportedType

  // ----- dotted addresses -----

  function Split(s: string, c: char): (parts: seq<string>)
    ensures parts != []
    decreases |s|
  {
    var i := Find(s, c);
    if i == |s| then [s] else [s[..i]] + Split(s[i + 1..], c)
  }

  function Join(parts: seq<string>, c: char): string
    requires parts != []
  {
    if |parts| == 1 then parts[0] else parts[0] + [c] + Join(parts[1..], c)
  }

  lemma {:induction false} JoinOfSplit(s: string, c: char)
    ensures Join(Split(s, c), c) == s
    decreases |s|
  {
    hide Split, Join, Find;
    var i := Find(s, c);
    SplitStep(s, c);
    if i == |s| {
      JoinOne(s, c);
    } else {
      JoinOfSplit(s[i + 1..], c);
      JoinMore(s[..i], Split(s[i + 1..], c), c);
      assert s == s[..i] + [c] + s[i + 1..];
    }
  }

  lemma SplitStep(s: string, c: char)
    ensures var i := Find(s, c); Split(s, c) == if i == |s| then [s] else [s[..i]] + Split(s[i + 1..], c)
  {
    hide Find;
  }

  lemma JoinOne(p: string, c: char)
    ensures Join([p], c) == p
  {
  }

  lemma JoinMore(p: string, parts: seq<string>, c: char)
    requires parts != []
    ensures Join([p] + parts, c) == p + [c] + Join(parts, c)
  {
    assert ([p] + parts)[1..] == parts;
  }

  lemma {:induction false} SplitOfJoin(parts: seq<string>, c: char)
    requires parts != [] && forall p :: p in parts ==> c !in p
    ensures Split(Join(parts, c), c) == parts
  {
    hide Split;
    assert c !in parts[0];
    if |parts| == 1 {
      SplitNone(parts[0], c);
      assert parts == [parts[0]];
    } else {
      SplitOne(parts[0], Join(parts[1..], c), c);
      SplitOfJoin(parts[1..], c);
      assert parts == [parts[0]] + parts[1..];
    }
  }

  lemma SplitNone(p: string, c: char)
    requires c !in p
    ensures Split(p, c) == [p]
  {
    FindUnique(p, c, |p|);
  }

  lemma SplitOne(p: string, rest: string, c: char)
    requires c !in p
    ensures Split(p + [c] + rest, c) == [p] + Split(rest, c)
  {
    var s := p + [c] + rest;
    assert forall j :: 0 <= j < |p| ==> s[j] == p[j];
    FindUnique(s, c, |p|);
    assert s[..|p|] == p && s[|p| + 1..] == rest;
  }

  function Octet(s: string): (r: Option<nat>)
    ensures r.Some? ==> r.value < 256
  {
    ParseNumber(s, 255)
  }

  predicate AreOctets(parts: seq<string>, octets: Bytes) {
    |parts| == |octets| && forall i :: 0 <= i < |parts| ==> Octet(parts[i]) == Some(octets[i])
  }

  /** `try_parse_ipv4` */
  method TryParseIpv4(addr: string) returns (r: Option<Octets4>)
    ensures r == Ipv4Of(addr)
    ensures r.Some? ==> AreOctets(Split(addr, '.'), r.value)
    ensures r.None? ==> forall octets: Octets4 :: !AreOctets(Split(addr, '.'), octets)
  {
    hide Octet, Split, Ipv4Of;
    OctetsThere(addr);
    NoOctets(addr);
    var parts := Split(addr, '.');
    if |parts| != 4 {
      return None;
    }
    var octets: Octets4 := [0, 0, 0, 0];
    var i := 0;
    while i < 4
      invariant 0 <= i <= 4
      invariant forall j :: 0 <= j < i ==> Octet(parts[j]) == Some(octets[j])
    {
      var octet := Octet(parts[i]);
      if octet.None? {
        return None;
      }
      octets := octets[i := octet.value];
      i := i + 1;
    }
    FourOctets(addr, octets);
    return Some(octets);
  }

  /** What the method computes, as a value. */
  function Ipv4Of(addr: string): Option<Octets4> {
    var p := Split(addr, '.');
    if |p| == 4 && Octet(p[0]).Some? && Octet(p[1]).Some? && Octet(p[2]).Some? && Octet(p[3]).Some?
    then Some([Octet(p[0]).value, Octet(p[1]).value, Octet(p[2]).value, Octet(p[3]).value])
    else None
  }

  lemma OctetsThere(addr: string)
    ensures Ipv4Of(addr).Some? ==> AreOctets(Split(addr, '.'), Ipv4Of(addr).value)
  {
    hide Octet, Split;
  }

  lemma FourOctets(addr: string, octets: Octets4)
    requires AreOctets(Split(addr, '.'), octets)
    ensures Ipv4Of(addr) == Some(octets)
  {
    hide Octet, Split;
    var p := Split(addr, '.');
    assert forall i :: 0 <= i < 4 ==> Octet(p[i]) == Some(octets[i]);
    assert octets == [octets[0], octets[1], octets[2], octets[3]];
  }

  lemma NoOctets(addr: string)
    ensures Ipv4Of(addr).None? <==> forall octets: Octets4 :: !AreOctets(Split(addr, '.'), octets)
  {
    hide Octet, Split, AreOctets, Ipv4Of;
    OctetsThere(addr);
    forall octets: Octets4 | AreOctets(Split(addr, '.'), octets) ensures Ipv4Of(addr).Some? {
      FourOctets(addr, octets);
    }
  }

  function Dotted(octets: Octets4): string {
    Decimal(octets[0]) + "." + Decimal(octets[1]) + "." + Decimal(octets[2]) + "." + Decimal(octets[3])
  }

  lemma NumberHasNoDot(s: string)
    requires Octet(s).Some?
    ensures '.' !in s
  {
    forall i | 0 <= i < |s| ensures s[i] != '.' {
      assert s[0] != '+' ==> IsDigit(s[i]);
      assert s[0] == '+' && i > 0 ==> IsDigit(s[1..][i - 1]);
    }
  }

  /** An address is accepted as these octets exactly when it is four number texts for them, joined by dots. */
  lemma DottedIff(addr: string, octets: Octets4)
    ensures Ipv4Of(addr) == Some(octets) <==>
              exists parts :: parts != [] && addr == Join(parts, '.') && AreOctets(parts, octets)
  {
    hide Ipv4Of, Octet;
    OctetsThere(addr);
    if Ipv4Of(addr) == Some(octets) {
      JoinOfSplit(addr, '.');
    }
    forall parts | parts != [] && addr == Join(parts, '.') && AreOctets(parts, octets)
      ensures Ipv4Of(addr) == Some(octets)
    {
      forall p | p in parts ensures '.' !in p {
        var i :| 0 <= i < |parts| && parts[i] == p;
        assert Octet(parts[i]) == Some(octets[i]);
        NumberHasNoDot(p);
      }
      SplitOfJoin(parts, '.');
      FourOctets(addr, octets);
    }
  }

  lemma JoinFour(a: string, b: string, c: string, d: string)
    ensures Join([a, b, c, d], '.') == a + "." + b + "." + c + "." + d
  {
    assert [a, b, c, d][1..] == [b, c, d] && [b, c, d][1..] == [c, d] && [c, d][1..] == [d];
    assert Join([c, d], '.') == c + "." + d;
    assert Join([b, c, d], '.') == b + "." + (c + "." + d);
    assert Join([a, b, c, d], '.') == a + "." + (b + "." + (c + "." + d));
  }

  /** The text that the handshake makes of an IPv4 address is read back as the same octets. */
  lemma DottedRoundTrip(octets: Octets4)
    ensures Ipv4Of(Dotted(octets)) == Some(octets)
  {
    hide Ipv4Of, Decimal;
    var parts := [Decimal(octets[0]), Decimal(octets[1]), Decimal(octets[2]), Decimal(octets[3])];
    JoinFour(parts[0], parts[1], parts[2], parts[3]);
    forall i | 0 <= i < 4 ensures Octet(parts[i]) == Some(octets[i]) {
      NumberRoundTrip(octets[i], 255);
    }
    DottedIff(Dotted(octets), octets);
  }

  /** Each part is the octet's number with no needless zero and no sign, so the text is the only such one. */
  lemma DottedMeans(octets: Octets4)
    ensures exists a, b, c, d ::
              && Dotted(octets) == a + "." + b + "." + c + "." + d
              && Plain(a, octets[0]) && Plain(b, octets[1]) && Plain(c, octets[2]) && Plain(d, octets[3])
  {
    forall i | 0 <= i < 4 ensures Plain(Decimal(octets[i]), octets[i]) {
      ValueOfDecimal(octets[i]);
      DecimalHasNoZero(octets[i]);
    }
    var a, b, c, d := Decimal(octets[0]), Decimal(octets[1]), Decimal(octets[2]), Decimal(octets[3]);
    assert Plain(a, octets[0]) && Plain(b, octets[1]) && Plain(c, octets[2]) && Plain(d, octets[3]);
    assert Dotted(octets) == a + "." + b + "." + c + "." + d;
  }

  predicate Plain(s: string, n: nat) {
    s != [] && AllDigits(s) && (|s| > 1 ==> s[0] != '0') && Value(s) == n
  }

  // ----- the messages on the wire -----

  function Port(n: nat): (b: Bytes)
    requires n < 0x1_0000
    ensures |b| == 2
  {
    [n / 256, n % 256]
  }

  predicate Fits(a: Address) {
    a.Domain? ==> |a.name| < 256
  }

  function AddressBytes(a: Address): Bytes
    requires Fits(a)
  {
    match a
    case V4(v4) => [1] + v4
    case Domain(name) => [3, |name|] + name
    case V6(v6) => [4] + v6
  }

  predicate WellFormed(hello: Hello, request: Request) {
    |hello.methods| < 256 && Fits(request.address) && request.port < 0x1_0000
  }

  /** What a client sends before its payload. */
  function Sent(hello: Hello, request: Request): Bytes
    requires WellFormed(hello, request)
  {
    [hello.version, |hello.methods|] + hello.methods +
    ([request.version, request.command, request.reserved] + AddressBytes(request.address) + Port(request.port))
  }

  function AddressText(library: Library, a: Address): string {
    match a
    case V4(v4) => Dotted(v4)
    case Domain(name) => library.decode(name)
    case V6(v6) => library.v6Text(v6)
  }

  // ----- socks5_handshake -----

  /** The client's side of the connection: what it has sent and is not read yet, ended by a closed stream; what it
      was sent; and whether it still takes anything. */
  class Client {
    var unread: Bytes
    var replies: Bytes
    const open: bool

    constructor (input: Bytes, open: bool)
      ensures unread == input && replies == [] && this.open == open
    {
      unread, replies, this.open := input, [], open;
    }

    /** `read_exact`: at the end of the stream, what there was is gone. */
    method ReadExact(n: nat) returns (r: Option<Bytes>)
      modifies this`unread
      ensures if |old(unread)| >= n then r == Some(old(unread)[..n]) && unread == old(unread)[n..]
              else r.None? && unread == []
    {
      if |unread| < n {
        unread := [];
        return None;
      }
      r := Some(unread[..n]);
      unread := unread[n..];
    }

    /** The port, which ends every address form. */
    method ReadPort() returns (r: Option<nat>)
      modifies this`unread
      ensures if |old(unread)| >= 2 then r.Some? && r.value < 0x1_0000 && old(unread) == Port(r.value) + unread
              else r.None? && unread == []
    {
      var p := ReadExact(2);
      if p.None? { return None; }
      r := Some(256 * (p.value[0] as int) + p.value[1] as int);
    }

    /** `socks5_handshake` */
    method Handshake(library: Library) returns (r: Result<(string, nat), SocksError>)
      modifies this
      ensures var (result, rest) := Shake(library, old(unread), open); r == result && unread == rest
      ensures replies == if open && AfterHello(old(unread)).Some? then old(replies) + [5, 0] else old(replies)
      ensures r.Ok? ==> open && replies == old(replies) + [5, 0]
    {
      hide Dotted, Port;
      ghost var input := unread;
      var buf := ReadExact(2);
      if buf.None? { return Err(Truncated); }
      var methods := ReadExact(buf.value[1]);
      if methods.None? { return Err(Truncated); }
      assert unread == AfterHello(input).value;
      if !open { return Err(NotWritable); }
      replies := replies + [5, 0];
      buf := ReadExact(4);
      if buf.None? { return Err(Truncated); }
      r := ReadAddress(library, buf.value[3]);
    }

    /** The three arms for the address types. */
    method ReadAddress(library: Library, tag: Byte) returns (r: Result<(string, nat), SocksError>)
      modifies this`unread
      ensures var (result, rest) := Tail(library, tag, old(unread)); r == result && unread == rest
    {
      hide Dotted;
      ghost var input := unread;
      if tag == 1 {
        var ip := ReadExact(4);
        if ip.None? { return Err(Truncated); }
        var port := ReadPort();
        if port.None? { return Err(Truncated); }
        return Ok((Dotted(ip.value), port.value));
      } else if tag == 3 {
        var length := ReadExact(1);
        if length.None? { return Err(Truncated); }
        var domain := ReadExact(length.value[0]);
        if domain.None? { return Err(Truncated); }
        assert domain.value == input[1..1 + input[0]] && unread == input[1 + input[0]..];
        var port := ReadPort();
        if port.None? { return Err(Truncated); }
        return Ok((library.decode(domain.value), port.value));
      } else if tag == 4 {
        var ip := ReadExact(16);
        if ip.None? { return Err(Truncated); }
        var port := ReadPort();
        if port.None? { return Err(Truncated); }
        return Ok((library.v6Text(ip.value), port.value));
      }
      return Err(UnsupportedType);
    }
  }

  /** What the hello leaves unread, when it is all there. */
  function AfterHello(s: Bytes): Option<Bytes> {
    if |s| < 2 || |s| - 2 < s[1] then None else Some(s[2..][s[1]..])
  }

  /** Splits off what an address type says comes next; a stream that ends too soon is used up. */
  function Tail(library: Library, tag: Byte, s: Bytes): (Result<(string, nat), SocksError>, Bytes) {
    var start: nat := if tag == 3 then 1 else 0;
    var length: nat := if tag == 1 then 4 else if tag == 4 then 16 else if tag == 3 && s != [] then s[0] else 0;
    if tag != 1 && tag != 3 && tag != 4 then (Err(UnsupportedType), s)
    else if |s| < start + length + 2 then (Err(Truncated), [])
    else
      var body, at := s[start..start + length], start + length;
      var text := if tag == 1 then Dotted(body) else if tag == 3 then library.decode(body) else library.v6Text(body);
      (Ok((text, 256 * (s[at] as int) + s[at + 1] as int)), s[at + 2..])
  }

  function Shake(library: Library, s: Bytes, open: bool): (Result<(string, nat), SocksError>, Bytes) {
    var rest := AfterHello(s);
    if rest.None? then (Err(Truncated), [])
    else if !open then (Err(NotWritable), rest.value)
    else if |rest.value| < 4 then (Err(Truncated), [])
    else Tail(library, rest.value[3], rest.value[4..])
  }

  // ----- every request, and nothing else -----

  lemma TailOfAddress(library: Library, a: Address, port: nat, payload: Bytes)
    requires Fits(a) && port < 0x1_0000
    ensures Tail(library, AddressBytes(a)[0], AddressBytes(a)[1..] + Port(port) + payload) ==
              (Ok((AddressText(library, a), port)), payload)
  {
    hide Dotted;
    var b, p := AddressBytes(a), Port(port);
    var s := b[1..] + p + payload;
    var n := |b| - 1;
    assert s[..n] == b[1..] && s[n + 2..] == payload && s[n] == p[0] && s[n + 1] == p[1];
    match a
    case V4(v4) => assert b[1..] == v4;
    case V6(v6) => assert b[1..] == v6;
    case Domain(name) =>
      assert b[1..] == [|name|] + name;
      assert s[1..1 + |name|] == s[..n][1..] == name;
  }

  /** Whatever a well-formed client sends is understood, and exactly the payload is left unread. */
  lemma RequestIsServed(library: Library, hello: Hello, request: Request, payload: Bytes)
    requires WellFormed(hello, request)
    ensures Shake(library, Sent(hello, request) + payload, true) ==
              (Ok((AddressText(library, request.address), request.port)), payload)
  {
    hide Tail, AddressText, Port, AddressBytes;
    var b, p := AddressBytes(request.address), Port(request.port);
    var head, fixed := [hello.version, |hello.methods|], [request.version, request.command, request.reserved];
    assert b != [] by { SomeBytes(request.address); }
    Joined(head + hello.methods, fixed + b + p, payload);
    Joined(fixed + b, p, payload);
    Joined(fixed, b, p + payload);
    Joined(b[..1], b[1..], p + payload);
    var tail := b[1..] + (p + payload);
    Joined(b[1..], p, payload);
    assert b == b[..1] + b[1..] && b[..1] == [b[0]];
    var rest := fixed + ([b[0]] + tail);
    assert rest[3] == b[0] && rest[4..] == tail;
    HelloRead(hello, rest);
    assert Sent(hello, request) + payload == head + hello.methods + rest;
    TailOfAddress(library, request.address, request.port, payload);
  }

  lemma SomeBytes(a: Address)
    requires Fits(a)
    ensures AddressBytes(a) != []
  {
  }

  lemma HelloRead(hello: Hello, rest: Bytes)
    requires |hello.methods| < 256
    ensures AfterHello([hello.version, |hello.methods|] + hello.methods + rest) == Some(rest)
  {
    var s := [hello.version, |hello.methods|] + hello.methods + rest;
    assert s[2..] == hello.methods + rest && (hello.methods + rest)[|hello.methods|..] == rest;
  }

  lemma TailHasAddress(library: Library, tag: Byte, s: Bytes) returns (a: Address, port: nat)
    requires Tail(library, tag, s).0.Ok?
    ensures Fits(a) && port < 0x1_0000 && Tail(library, tag, s).0 == Ok((AddressText(library, a), port))
    ensures [tag] + s == AddressBytes(a) + Port(port) + Tail(library, tag, s).1
  {
    hide Dotted;
    var start: nat := if tag == 3 then 1 else 0;
    var length: nat := if tag == 1 then 4 else if tag == 4 then 16 else s[0];
    var body, at := s[start..start + length], start + length;
    a := if tag == 1 then V4(body) else if tag == 3 then Domain(body) else V6(body);
    port := 256 * (s[at] as int) + s[at + 1] as int;
    hide Port, AddressBytes;
    PortOf(s[at], s[at + 1]);
    assert s[at..at + 2] == [s[at], s[at + 1]];
    AddressCut(a, tag, s, at);
    ThreeParts(tag, s, at, at + 2);
  }

  lemma PortOf(high: Byte, low: Byte)
    ensures var port := 256 * (high as int) + low as int; 0 <= port < 0x1_0000 && Port(port) == [high, low]
  {
  }

  lemma AddressCut(a: Address, tag: Byte, s: Bytes, at: nat)
    requires at <= |s| && Fits(a)
    requires match a
             case V4(v4) => tag == 1 && v4 == s[..at]
             case Domain(name) => tag == 3 && 1 <= at && |name| == s[0] && name == s[1..at]
             case V6(v6) => tag == 4 && v6 == s[..at]
    ensures AddressBytes(a) == [tag] + s[..at]
  {
    if a.Domain? {
      assert s[..at] == [s[0]] + s[1..at];
      Joined([tag], [s[0]], s[1..at]);
    }
  }

  lemma ThreeParts(tag: Byte, s: Bytes, i: nat, j: nat)
    requires i <= j <= |s|
    ensures [tag] + s == [tag] + s[..i] + s[i..j] + s[j..]
  {
  }

  /** Nothing else is taken: what was accepted is some well-formed client's bytes, and the result is its address and
      port. */
  lemma ServedWasSent(library: Library, s: Bytes) returns (hello: Hello, request: Request)
    requires Shake(library, s, true).0.Ok?
    ensures WellFormed(hello, request) && s == Sent(hello, request) + Shake(library, s, true).1
    ensures Shake(library, s, true).0 == Ok((AddressText(library, request.address), request.port))
  {
    hide Tail, AddressText, Port, AddressBytes;
    var n: nat := s[1];
    var rest := s[2..][n..];
    hello := Hello(s[0], s[2..][..n]);
    var a, port := TailHasAddress(library, rest[3], rest[4..]);
    request := Request(rest[0], rest[1], rest[2], a, port);
    assert s == [s[0], s[1]] + hello.methods + rest;
    assert rest == [rest[0], rest[1], rest[2]] + ([rest[3]] + rest[4..]);
  }

  /** More bytes do not change an answer that was reached without running out. */
  lemma MoreToRead(library: Library, s: Bytes, t: Bytes, open: bool)
    ensures var (result, rest) := Shake(library, s, open);
            result != Err(Truncated) ==> Shake(library, s + t, open) == (result, rest + t)
  {
    hide Tail;
    var rest := AfterHello(s);
    if rest.Some? {
      assert (s + t)[2..][s[1]..] == rest.value + t;
      if |rest.value| >= 4 {
        assert (rest.value + t)[4..] == rest.value[4..] + t;
        MoreTail(library, rest.value[3], rest.value[4..], t);
      }
    }
  }

  lemma MoreTail(library: Library, tag: Byte, s: Bytes, t: Bytes)
    ensures var (result, rest) := Tail(library, tag, s);
            result != Err(Truncated) ==> Tail(library, tag, s + t) == (result, rest + t)
  {
    hide Dotted;
    if Tail(library, tag, s).0.Ok? {
      var start: nat := if tag == 3 then 1 else 0;
      var at: nat := start + if tag == 1 then 4 else if tag == 4 then 16 else s[0];
      assert (s + t)[start..at] == s[start..at] && (s + t)[at + 2..] == s[at + 2..] + t;
    }
  }

  /** A request cut short at any byte is refused. */
  lemma CutRequestFails(library: Library, hello: Hello, request: Request, k: nat)
    requires WellFormed(hello, request) && k < |Sent(hello, request)|
    ensures Shake(library, Sent(hello, request)[..k], true).0 == Err(Truncated)
  {
    hide *;
    var all := Sent(hello, request);
    MoreToRead(library, all[..k], all[k..], true);
    RequestIsServed(library, hello, request, []);
    assert all[..k] + all[k..] == all == all + [];
  }

  // ----- socks5_response -----

  /** What kind of address a bind address is taken for. */
  function AddressOf(library: Library, bind: string): Address {
    if Ipv4Of(bind).Some? then V4(Ipv4Of(bind).value)
    else if library.parseV6(bind).Some? then V6(library.parseV6(bind).value)
    else Domain(library.encode(bind))
  }

  /** `socks5_response`; the length of a name is cut to a byte. */
  method Response(library: Library, bind: string, port: nat, status: Byte) returns (resp: Bytes)
    requires port < 0x1_0000
    ensures resp == ReplyBytes(AddressOf(library, bind), port, status)
  {
    hide Ipv4Of, AreOctets, Port;
    var v4 := TryParseIpv4(bind);
    if v4.Some? {
      resp := [5, status, 0, 1];
      resp := resp + v4.value;
      resp := resp + Port(port);
      return;
    }
    var v6 := library.parseV6(bind);
    if v6.Some? {
      resp := [5, status, 0, 4];
      resp := resp + v6.value;
      resp := resp + Port(port);
      return;
    }
    resp := [5, status, 0, 3];
    var bytes := library.encode(bind);
    resp := resp + [|bytes| % 256];
    resp := resp + bytes;
    resp := resp + Port(port);
  }

  function ReplyBytes(a: Address, port: nat, status: Byte): Bytes
    requires port < 0x1_0000
  {
    match a
    case V4(v4) => [5, status, 0, 1] + v4 + Port(port)
    case Domain(name) => [5, status, 0, 3, |name| % 256] + name + Port(port)
    case V6(v6) => [5, status, 0, 4] + v6 + Port(port)
  }

  /** A client's reading of a whole reply, by section 6 of RFC 1928: status, address and port. */
  function ReadReply(s: Bytes): Option<(Byte, Address, nat)> {
    if |s| < 5 || s[0] != 5 || s[2] != 0 then None
    else
      var start: nat := if s[3] == 3 then 5 else 4;
      var length: nat := if s[3] == 1 then 4 else if s[3] == 4 then 16 else s[4];
      if s[3] !in {1, 3, 4} || |s| != start + length + 2 then None
      else
        var body, at := s[start..start + length], start + length;
        Some((s[1],
              if s[3] == 1 then V4(body) else if s[3] == 3 then Domain(body) else V6(body),
              256 * (s[at] as int) + s[at + 1] as int))
  }

  /** The client reads back the status, address and port unless the bind address is a name of 256 bytes or more. */
  lemma ReplyReadIff(a: Address, port: nat, status: Byte)
    requires port < 0x1_0000
    ensures ReadReply(ReplyBytes(a, port, status)) == Some((status, a, port)) <==> Fits(a)
  {
    hide ReadReply, Port;
    match a
    case V4(v4) => ReadV4(v4, port, status);
    case V6(v6) => ReadV6(v6, port, status);
    case Domain(name) => ReadName(name, port, status);
  }

  lemma ReadV4(v4: Octets4, port: nat, status: Byte)
    requires port < 0x1_0000
    ensures ReadReply([5, status, 0, 1] + v4 + Port(port)) == Some((status, V4(v4), port))
  {
    Framed([5, status, 0, 1], v4, Port(port));
  }

  lemma ReadV6(v6: Octets16, port: nat, status: Byte)
    requires port < 0x1_0000
    ensures ReadReply([5, status, 0, 4] + v6 + Port(port)) == Some((status, V6(v6), port))
  {
    Framed([5, status, 0, 4], v6, Port(port));
  }

  lemma ReadName(name: Bytes, port: nat, status: Byte)
    requires port < 0x1_0000
    ensures ReadReply([5, status, 0, 3, |name| % 256] + name + Port(port)) == Some((status, Domain(name), port)) <==>
              |name| < 256
  {
    Framed([5, status, 0, 3, |name| % 256], name, Port(port));
  }

  lemma Framed(head: Bytes, body: Bytes, tail: Bytes)
    requires |tail| == 2
    ensures var s := head + body + tail;
            && |s| == |head| + |body| + 2 && (forall i :: 0 <= i < |head| ==> s[i] == head[i])
            && s[|head|..|head| + |body|] == body && s[|s| - 2] == tail[0] && s[|s| - 1] == tail[1]
  {
  }

  /** The text of an IPv4 request, used as a bind address, comes back to the client as the octets it sent. */
  lemma AddressComesBack(library: Library, octets: Octets4, port: nat, status: Byte)
    requires port < 0x1_0000
    ensures ReadReply(ReplyBytes(AddressOf(library, AddressText(library, V4(octets))), port, status)) ==
              Some((status, V4(octets), port))
  {
    hide Dotted, Ipv4Of, ReadReply, ReplyBytes;
    DottedRoundTrip(octets);
    ReplyReadIff(V4(octets), port, status);
  }
}

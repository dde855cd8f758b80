/** `parse_forward_spec` of src/cli.rs: the argument of -L and -R. */
module ForwardSpec {
  import opened Basics
  import opened Text

  datatype Forward = Forward(bindAddr: string, bindPort: nat, targetHost: string, targetPort: nat)

  datatype SpecError = UnclosedBind | MissingField | BadBindPort | UnclosedHost | BadTargetPort

  // ----- string operations -----

  /** The index of the last `c`, or the length. */
  function FindLast(s: string, c: char): (i: nat)
    ensures i <= |s| && (i < |s| ==> s[i] == c) && (forall j :: i < j < |s| ==> s[j] != c) && (i == |s| ==> c !in s)
  {
    if c !in s then |s|
    else if s[|s| - 1] == c then |s| - 1
    else FindLast(s[..|s| - 1], c)
  }

  /** `trim_start_matches(':')`: any number of colons, also none. */
  function TrimColons(s: string): string {
    if s != [] && s[0] == ':' then TrimColons(s[1..]) else s
  }

  predicate IsDigit(c: char) {
    '0' <= c <= '9'
  }

  predicate AllDigits(s: string) {
    forall i :: 0 <= i < |s| ==> IsDigit(s[i])
  }

  function Value(s: string): nat
    requires AllDigits(s)
  {
    if s == [] then 0 else 10 * Value(s[..|s| - 1]) + (s[|s| - 1] as int - '0' as int)
  }

  /** `parse` of an unsigned number no larger than `max`: one plus sign may come first, and zeros may. */
  function ParseNumber(s: string, max: nat): Option<nat> {
    var digits := if s != [] && s[0] == '+' then s[1..] else s;
    if digits == [] || !AllDigits(digits) || Value(digits) > max then None else Some(Value(digits))
  }

  function ParsePort(s: string): (r: Option<nat>)
    ensures r.Some? ==> r.value <= 0xFFFF
  {
    ParseNumber(s, 0xFFFF)
  }

  function Decimal(n: nat): (s: string)
    ensures s != [] && AllDigits(s)
  {
    var last := [('0' as int + n % 10) as char];
    if n < 10 then last else Decimal(n / 10) + last
  }

  lemma {:induction false} ValueOfDecimal(n: nat)
    ensures Value(Decimal(n)) == n
  {
    if n >= 10 {
      ValueOfDecimal(n / 10);
      var s := Decimal(n);
      assert s[..|s| - 1] == Decimal(n / 10);
    }
  }

  /** The printed number is the only text of digits for it that does not begin with a needless zero. */
  lemma {:induction false} DecimalUnique(s: string)
    requires s != [] && AllDigits(s) && (|s| > 1 ==> s[0] != '0')
    ensures Decimal(Value(s)) == s
    decreases |s|
  {
    var front := s[..|s| - 1];
    if front != [] {
      assert front[0] == s[0];
      DecimalUnique(front);
      NotZero(front);
    }
  }

  lemma {:induction false} NotZero(s: string)
    requires s != [] && AllDigits(s) && s[0] != '0'
    ensures Value(s) > 0
  {
    if |s| > 1 {
      NotZero(s[..|s| - 1]);
    } else {
      assert s[..0] == [] && Value(s) == s[0] as int - '0' as int;
    }
  }

  lemma {:induction false} DecimalHasNoZero(n: nat)
    ensures |Decimal(n)| > 1 ==> Decimal(n)[0] != '0'
    ensures n > 0 ==> Decimal(n)[0] != '0'
  {
    if n >= 10 {
      DecimalHasNoZero(n / 10);
    }
  }

  /** Reading back what was printed. */
  lemma NumberRoundTrip(n: nat, max: nat)
    ensures ParseNumber(Decimal(n), max) == if n <= max then Some(n) else None
  {
    ValueOfDecimal(n);
    assert IsDigit(Decimal(n)[0]);
  }

  // ----- which texts stand for a number -----

  ghost predicate OnlyZeros(s: string) {
    forall i :: 0 <= i < |s| ==> s[i] == '0'
  }

  /** A plus sign or none, any number of zeros, and the number as it is printed. */
  ghost predicate NumberText(s: string, n: nat) {
    exists plus: string, zeros: string ::
      (plus == [] || plus == "+") && OnlyZeros(zeros) && s == plus + (zeros + Decimal(n))
  }

  lemma {:induction false} LeadingZero(s: string)
    requires AllDigits(s)
    ensures AllDigits("0" + s) && Value("0" + s) == Value(s)
  {
    var t := "0" + s;
    if s != [] {
      LeadingZero(s[..|s| - 1]);
      assert t[..|t| - 1] == "0" + s[..|s| - 1];
    }
  }

  lemma {:induction false} ZerosCut(s: string) returns (zeros: string, rest: string)
    requires s != [] && AllDigits(s)
    ensures OnlyZeros(zeros) && s == zeros + rest && rest == Decimal(Value(s))
    decreases |s|
  {
    zeros, rest := [], s;
    if |s| > 1 && s[0] == '0' {
      zeros, rest := ZerosCut(s[1..]);
      LeadingZero(s[1..]);
      assert s == "0" + s[1..];
      zeros := "0" + zeros;
    } else {
      DecimalUnique(s);
    }
  }

  lemma {:induction false} ZerosAdded(zeros: string, s: string)
    requires OnlyZeros(zeros) && AllDigits(s)
    ensures AllDigits(zeros + s) && Value(zeros + s) == Value(s)
    decreases |zeros|
  {
    if zeros == [] {
      assert zeros + s == s;
    } else {
      ZerosAdded(zeros[1..], s);
      LeadingZero(zeros[1..] + s);
      assert zeros + s == "0" + (zeros[1..] + s);
    }
  }

  /** A text is read as a number if and only if it is a text of that number and the number is not too large. */
  lemma NumberIff(s: string, max: nat, n: nat)
    ensures ParseNumber(s, max) == Some(n) <==> n <= max && NumberText(s, n)
  {
    hide Decimal, Value;
    if ParseNumber(s, max) == Some(n) {
      var plus := if s[0] == '+' then "+" else [];
      var zeros, rest := ZerosCut(s[|plus|..]);
      assert s == plus + (zeros + rest);
    }
    forall plus: string, zeros: string |
      (plus == [] || plus == "+") && OnlyZeros(zeros) && s == plus + (zeros + Decimal(n)) && n <= max
      ensures ParseNumber(s, max) == Some(n)
    {
      var digits := zeros + Decimal(n);
      ZerosAdded(zeros, Decimal(n));
      ValueOfDecimal(n);
      assert IsDigit(digits[0]);
      assert s[|plus|..] == digits;
    }
  }

  // ----- parse_forward_spec -----

  /** host:hostport */
  function ParseTarget(target: string): Result<(string, nat), SpecError> {
    if target != [] && target[0] == '[' then
      var t := target[1..];
      var end := Find(t, ']');
      if end == |t| then Err(UnclosedHost)
      else
        var port := ParsePort(TrimColons(t[end + 1..]));
        if port.None? then Err(BadTargetPort) else Ok((t[..end], port.value))
    else
      var colon := FindLast(target, ':');
      if colon == |target| then Err(MissingField)
      else
        var port := ParsePort(target[colon + 1..]);
        if port.None? then Err(BadTargetPort) else Ok((target[..colon], port.value))
  }

  /** port:host:hostport */
  function ParseCore(bind: string, core: string): Result<Forward, SpecError> {
    var colon := Find(core, ':');
    if colon == |core| then Err(MissingField)
    else
      var port := ParsePort(core[..colon]);
      if port.None? then Err(BadBindPort)
      else
        var target := ParseTarget(core[colon + 1..]);
        if target.Err? then Err(target.error)
        else Ok(Forward(bind, port.value, target.value.0, target.value.1))
  }

  function DefaultBind(gatewayPorts: bool): string {
    if gatewayPorts then "0.0.0.0" else "127.0.0.1"
  }

  /** `parse_forward_spec` */
  function Parse(text: string, gatewayPorts: bool): Result<Forward, SpecError> {
    var spec := Trim(text);
    if spec != [] && spec[0] == '[' then
      var s := spec[1..];
      var end := Find(s, ']');
      if end == |s| then Err(UnclosedBind) else ParseCore(s[..end], TrimColons(s[end + 1..]))
    else
      var colon := Find(spec, ':');
      if ParsePort(spec[..colon]).Some? then ParseCore(DefaultBind(gatewayPorts), spec)
      else if colon == |spec| then Err(MissingField)
      else ParseCore(spec[..colon], spec[colon + 1..])
  }

  // ----- what can be written -----

  /** An address in brackets, unless a bracket inside would end it too soon. */
  function RenderAddress(a: string): string {
    if ']' in a then a else "[" + a + "]"
  }

  function RenderTarget(host: string, port: nat): string {
    RenderAddress(host) + ":" + Decimal(port)
  }

  function Render(f: Forward): string {
    RenderAddress(f.bindAddr) + ":" + Decimal(f.bindPort) + ":" + RenderTarget(f.targetHost, f.targetPort)
  }

  /** Without brackets a bind address is the first field: it cannot hold a colon, begin with a bracket or with space,
      or be read as the bind port. */
  predicate PlainBind(a: string) {
    a != [] && ':' !in a && a[0] != '[' && !IsWhitespace(a[0]) && ParsePort(a).None?
  }

  /** The forwards that some text stands for. */
  predicate Expressible(f: Forward) {
    f.bindPort <= 0xFFFF && f.targetPort <= 0xFFFF &&
    (']' !in f.bindAddr || PlainBind(f.bindAddr)) &&
    (']' !in f.targetHost || f.targetHost[0] != '[')
  }

  lemma {:induction false} NoSuchIn(s: string, c: char, k: nat)
    requires k <= |s| && Find(s, c) >= k
    ensures c !in s[..k]
  {
    assert forall j :: 0 <= j < k ==> s[..k][j] == s[j];
  }

  lemma TargetExpressible(target: string)
    requires ParseTarget(target).Ok?
    ensures var (host, port) := ParseTarget(target).value; port <= 0xFFFF && (']' !in host || host[0] != '[')
  {
    if target != [] && target[0] == '[' {
      NoSuchIn(target[1..], ']', Find(target[1..], ']'));
    }
  }

  lemma ParsedIsExpressible(text: string, gatewayPorts: bool)
    requires Parse(text, gatewayPorts).Ok?
    ensures Expressible(Parse(text, gatewayPorts).value)
  {
    hide ParsePort, ParseTarget, Find, FindLast, TrimColons, Trim;
    var spec, f := Trim(text), Parse(text, gatewayPorts).value;
    TrimStarts(text);
    if spec != [] && spec[0] == '[' {
      var s := spec[1..];
      var end := Find(s, ']');
      NoSuchIn(s, ']', end);
      CoreExpressible(s[..end], TrimColons(s[end + 1..]));
    } else {
      var colon := Find(spec, ':');
      if ParsePort(spec[..colon]).Some? {
        CoreExpressible(DefaultBind(gatewayPorts), spec);
      } else {
        NoSuchIn(spec, ':', colon);
        CoreExpressible(spec[..colon], spec[colon + 1..]);
      }
    }
  }

  lemma TrimStarts(text: string)
    ensures Trim(text) != [] ==> !IsWhitespace(Trim(text)[0])
  {
  }

  lemma CoreExpressible(bind: string, core: string)
    requires ParseCore(bind, core).Ok?
    ensures var f := ParseCore(bind, core).value;
            && f.bindAddr == bind && f.bindPort <= 0xFFFF && f.targetPort <= 0xFFFF
            && (']' !in f.targetHost || f.targetHost[0] != '[')
  {
    hide ParsePort, ParseTarget, Find;
    TargetExpressible(core[Find(core, ':') + 1..]);
  }

  // ----- reading back what was rendered -----

  lemma PortRoundTrip(port: nat)
    requires port <= 0xFFFF
    ensures ParsePort(Decimal(port)) == Some(port) && ':' !in Decimal(port)
    ensures TrimColons(Decimal(port)) == Decimal(port)
    ensures TrimColons(":" + Decimal(port)) == Decimal(port)
  {
    NumberRoundTrip(port, 0xFFFF);
    var d := Decimal(port);
    assert IsDigit(d[0]);
    assert (":" + d)[1..] == d;
  }

  lemma BracketFind(a: string, rest: string)
    requires ']' !in a
    ensures var s := a + "]" + rest; Find(s, ']') == |a| && s[..|a|] == a && s[|a| + 1..] == rest
  {
    var s := a + "]" + rest;
    assert forall j :: 0 <= j < |a| ==> s[j] == a[j];
    FindUnique(s, ']', |a|);
  }

  lemma FieldFind(a: string, rest: string)
    requires ':' !in a
    ensures var s := a + ":" + rest; Find(s, ':') == |a| && s[..|a|] == a && s[|a| + 1..] == rest
  {
    var s := a + ":" + rest;
    assert forall j :: 0 <= j < |a| ==> s[j] == a[j];
    FindUnique(s, ':', |a|);
  }

  lemma LastField(a: string, rest: string)
    requires ':' !in rest
    ensures var s := a + ":" + rest; FindLast(s, ':') == |a| && s[..|a|] == a && s[|a| + 1..] == rest
  {
    var s := a + ":" + rest;
    var i := FindLast(s, ':');
    assert s[|a|] == ':';
    assert forall j :: |a| < j < |s| ==> s[j] == rest[j - |a| - 1];
  }

  lemma TargetRoundTrip(host: string, port: nat)
    requires port <= 0xFFFF && (']' !in host || host[0] != '[')
    ensures ParseTarget(RenderTarget(host, port)) == Ok((host, port))
  {
    hide ParsePort, Decimal, Find, FindLast, TrimColons;
    PortRoundTrip(port);
    if ']' in host {
      LastField(host, Decimal(port));
    } else {
      BracketedTarget(host, port);
    }
  }

  lemma BracketedTarget(host: string, port: nat)
    requires port <= 0xFFFF && ']' !in host
    ensures ParseTarget("[" + host + "]" + ":" + Decimal(port)) == Ok((host, port))
  {
    hide ParsePort, Decimal, Find, FindLast, TrimColons;
    var target, d := "[" + host + "]" + ":" + Decimal(port), Decimal(port);
    PortRoundTrip(port);
    BracketFind(host, ":" + d);
    assert target[1..] == host + "]" + (":" + d);
  }

  lemma CoreRoundTrip(f: Forward)
    requires Expressible(f)
    ensures ParseCore(f.bindAddr, Decimal(f.bindPort) + ":" + RenderTarget(f.targetHost, f.targetPort)) == Ok(f)
  {
    hide ParsePort, ParseTarget, Decimal, Find, RenderTarget, PlainBind;
    PortRoundTrip(f.bindPort);
    TargetRoundTrip(f.targetHost, f.targetPort);
    FieldFind(Decimal(f.bindPort), RenderTarget(f.targetHost, f.targetPort));
  }

  lemma TrimNothing(s: string)
    requires s != [] && !IsWhitespace(s[0]) && !IsWhitespace(s[|s| - 1])
    ensures Trim(s) == s
  {
  }

  lemma RenderEnds(f: Forward)
    requires Expressible(f)
    ensures var s := Render(f); s != [] && !IsWhitespace(s[0]) && !IsWhitespace(s[|s| - 1])
  {
    hide ParsePort;
    var d := Decimal(f.targetPort);
    assert IsDigit(d[|d| - 1]);
    assert Render(f)[|Render(f)| - 1] == d[|d| - 1];
    assert Render(f)[0] == RenderAddress(f.bindAddr)[0];
  }

  lemma RenderRoundTrip(f: Forward, gatewayPorts: bool)
    requires Expressible(f)
    ensures Parse(Render(f), gatewayPorts) == Ok(f)
  {
    hide Parse, Render, Expressible;
    RenderEnds(f);
    TrimNothing(Render(f));
    if ']' in f.bindAddr {
      PlainRoundTrip(f, gatewayPorts);
    } else {
      BracketedRoundTrip(f, gatewayPorts);
    }
  }

  lemma PlainRoundTrip(f: Forward, gatewayPorts: bool)
    requires Expressible(f) && ']' in f.bindAddr && Trim(Render(f)) == Render(f)
    ensures Parse(Render(f), gatewayPorts) == Ok(f)
  {
    hide ParsePort, ParseCore, Decimal, Find, RenderTarget, Trim, TrimColons;
    var core := Decimal(f.bindPort) + ":" + RenderTarget(f.targetHost, f.targetPort);
    CoreRoundTrip(f);
    FieldFind(f.bindAddr, core);
    assert Render(f) == f.bindAddr + ":" + core;
  }

  lemma BracketedRoundTrip(f: Forward, gatewayPorts: bool)
    requires Expressible(f) && ']' !in f.bindAddr && Trim(Render(f)) == Render(f)
    ensures Parse(Render(f), gatewayPorts) == Ok(f)
  {
    hide ParsePort, ParseCore, Decimal, RenderTarget, Trim, PlainBind, DenotesCore, Parse;
    var core := Decimal(f.bindPort) + ":" + RenderTarget(f.targetHost, f.targetPort);
    CoreRoundTrip(f);
    CoreIff(core, f.bindAddr, f);
    Regrouped("[" + f.bindAddr + "]", Decimal(f.bindPort), RenderTarget(f.targetHost, f.targetPort));
    assert OnlyColons(":") && Render(f) == "[" + f.bindAddr + "]" + (":" + core);
    assert Bracketed(Render(f), f.bindAddr, core);
    hide Denotes, Bracketed, Render;
    DenotedIsParsed(Render(f), gatewayPorts, f);
  }

  lemma Regrouped(address: string, port: string, target: string)
    ensures address + ":" + port + ":" + target == address + (":" + (port + ":" + target))
  {
  }

  /** The two forms without brackets: a plain bind address, and none at all, which leaves the choice to the option. */
  lemma UnbracketedForms(f: Forward, gatewayPorts: bool)
    requires Expressible(f)
    ensures var core := Decimal(f.bindPort) + ":" + RenderTarget(f.targetHost, f.targetPort);
            (PlainBind(f.bindAddr) ==> Parse(f.bindAddr + ":" + core, gatewayPorts) == Ok(f)) &&
            Parse(core, gatewayPorts) == Ok(f.(bindAddr := if gatewayPorts then "0.0.0.0" else "127.0.0.1"))
  {
    hide ParsePort, ParseCore, Decimal, Find, RenderTarget, Trim, TrimColons;
    var target := RenderTarget(f.targetHost, f.targetPort);
    var core := Decimal(f.bindPort) + ":" + target;
    CoreEnds(f);
    TrimNothing(core);
    PortRoundTrip(f.bindPort);
    FieldFind(Decimal(f.bindPort), target);
    CoreRoundTrip(f.(bindAddr := DefaultBind(gatewayPorts)));
    if PlainBind(f.bindAddr) {
      TrimNothing(f.bindAddr + ":" + core);
      FieldFind(f.bindAddr, core);
      CoreRoundTrip(f);
    }
  }

  lemma CoreEnds(f: Forward)
    ensures var s := Decimal(f.bindPort) + ":" + RenderTarget(f.targetHost, f.targetPort);
            IsDigit(s[0]) && IsDigit(s[|s| - 1])
  {
    var s, d := Decimal(f.bindPort) + ":" + RenderTarget(f.targetHost, f.targetPort), Decimal(f.targetPort);
    assert IsDigit(Decimal(f.bindPort)[0]) && IsDigit(d[|d| - 1]);
    assert s[|s| - 1] == d[|d| - 1];
  }

  /** A forward is what some text parses to if and only if its rendering parses to it, whatever the gateway option; and
      which forwards these are can be told from the four fields. */
  lemma ParsedIffReparses(f: Forward, gatewayPorts: bool)
    ensures (exists text, g :: Parse(text, g) == Ok(f)) <==> Parse(Render(f), gatewayPorts) == Ok(f)
    ensures Parse(Render(f), gatewayPorts) == Ok(f) <==> Expressible(f)
  {
    hide *;
    forall text, g | Parse(text, g) == Ok(f) ensures Expressible(f) {
      ParsedIsExpressible(text, g);
    }
    if Expressible(f) {
      RenderRoundTrip(f, gatewayPorts);
    }
  }

  /** Every accepted text has a rendering that is accepted for the same four fields, for both values of the option. */
  lemma AcceptedReparses(text: string, g: bool, gatewayPorts: bool)
    requires Parse(text, g).Ok?
    ensures Parse(Render(Parse(text, g).value), gatewayPorts) == Parse(text, g)
  {
    hide *;
    ParsedIsExpressible(text, g);
    RenderRoundTrip(Parse(text, g).value, gatewayPorts);
  }

  // ----- which texts are accepted -----

  ghost predicate OnlyColons(s: string) {
    forall i :: 0 <= i < |s| ==> s[i] == ':'
  }

  predicate Opens(s: string) {
    s != [] && s[0] == '['
  }

  /** `bracketed` is an address in brackets, any number of colons, and `rest`. */
  ghost predicate Bracketed(bracketed: string, address: string, rest: string) {
    ']' !in address && exists colons :: OnlyColons(colons) && bracketed == "[" + address + "]" + (colons + rest)
  }

  ghost predicate DenotesTarget(target: string, host: string, port: nat) {
    exists digits :: ParsePort(digits) == Some(port) &&
      (Bracketed(target, host, digits) || (!Opens(target) && target == host + ":" + digits))
  }

  ghost predicate DenotesCore(core: string, f: Forward) {
    exists digits, target :: ParsePort(digits) == Some(f.bindPort) && core == digits + ":" + target &&
        DenotesTarget(target, f.targetHost, f.targetPort)
  }

  /** The grammar of forward specifications: a bracketed bind address, none, or a plain one that cannot be taken for
      the port. */
  ghost predicate Denotes(spec: string, gatewayPorts: bool, f: Forward) {
    || (exists core :: Bracketed(spec, f.bindAddr, core) && DenotesCore(core, f))
    || (f.bindAddr == DefaultBind(gatewayPorts) && DenotesCore(spec, f))
    || (PlainField(f.bindAddr) && exists core :: spec == f.bindAddr + ":" + core && DenotesCore(core, f))
  }

  ghost predicate PlainField(a: string) {
    ':' !in a && !Opens(a) && ParsePort(a).None?
  }

  /** A port text is not empty and begins with a digit or a plus sign; it holds no colon. */
  lemma PortText(digits: string)
    requires ParsePort(digits).Some?
    ensures digits != [] && (IsDigit(digits[0]) || digits[0] == '+') && ':' !in digits
  {
    forall i | 0 <= i < |digits| ensures digits[i] != ':' {
      assert digits[0] != '+' ==> IsDigit(digits[i]);
      assert digits[0] == '+' && i > 0 ==> IsDigit(digits[1..][i - 1]);
    }
  }

  lemma {:induction false} ColonsTrimmed(colons: string, rest: string)
    requires OnlyColons(colons) && (rest == [] || rest[0] != ':')
    ensures TrimColons(colons + rest) == rest
    decreases |colons|
  {
    if colons == [] {
      assert colons + rest == rest;
    } else {
      assert (colons + rest)[1..] == colons[1..] + rest;
      ColonsTrimmed(colons[1..], rest);
    }
  }

  lemma {:induction false} ColonsCut(s: string) returns (colons: string)
    ensures OnlyColons(colons) && s == colons + TrimColons(s)
  {
    if s != [] && s[0] == ':' {
      var more := ColonsCut(s[1..]);
      colons := ":" + more;
    } else {
      colons := [];
    }
  }

  /** A bracketed form is taken apart in one way. */
  lemma BracketedParts(s: string, address: string, rest: string)
    requires Bracketed(s, address, rest) && (rest == [] || rest[0] != ':')
    ensures s[0] == '[' && Find(s[1..], ']') == |address| < |s| - 1
    ensures s[1..][..|address|] == address && TrimColons(s[1..][|address| + 1..]) == rest
  {
    hide Find, TrimColons;
    var colons :| OnlyColons(colons) && s == "[" + address + "]" + (colons + rest);
    assert s[1..] == address + "]" + (colons + rest);
    BracketFind(address, colons + rest);
    ColonsTrimmed(colons, rest);
  }

  lemma IsBracketed(s: string)
    requires s != [] && s[0] == '[' && Find(s[1..], ']') < |s| - 1
    ensures var end := Find(s[1..], ']'); Bracketed(s, s[1..][..end], TrimColons(s[1..][end + 1..]))
  {
    hide Find, TrimColons;
    var end := Find(s[1..], ']');
    NoSuchIn(s[1..], ']', end);
    var colons := ColonsCut(s[1..][end + 1..]);
    assert s == "[" + s[1..][..end] + "]" + (colons + TrimColons(s[1..][end + 1..]));
  }

  lemma TargetIff(target: string, host: string, port: nat)
    ensures ParseTarget(target) == Ok((host, port)) <==> DenotesTarget(target, host, port)
  {
    hide ParsePort, Find, FindLast, TrimColons, Bracketed;
    if ParseTarget(target) == Ok((host, port)) {
      if target != [] && target[0] == '[' {
        IsBracketed(target);
      } else {
        assert target == host + ":" + target[FindLast(target, ':') + 1..];
      }
    }
    forall digits | ParsePort(digits) == Some(port) && Bracketed(target, host, digits)
      ensures ParseTarget(target) == Ok((host, port))
    {
      PortText(digits);
      BracketedParts(target, host, digits);
    }
    forall digits | ParsePort(digits) == Some(port) && !Opens(target) && target == host + ":" + digits
      ensures ParseTarget(target) == Ok((host, port))
    {
      PortText(digits);
      LastField(host, digits);
    }
  }

  lemma CoreIff(core: string, bind: string, f: Forward)
    ensures ParseCore(bind, core) == Ok(f) <==> f.bindAddr == bind && DenotesCore(core, f)
  {
    hide ParsePort, ParseTarget, Find, DenotesTarget;
    if ParseCore(bind, core) == Ok(f) {
      var colon := Find(core, ':');
      TargetIff(core[colon + 1..], f.targetHost, f.targetPort);
      assert core == core[..colon] + ":" + core[colon + 1..];
    }
    forall digits, target | && ParsePort(digits) == Some(f.bindPort) && core == digits + ":" + target
                            && DenotesTarget(target, f.targetHost, f.targetPort)
      ensures ParseCore(f.bindAddr, core) == Ok(f)
    {
      PortText(digits);
      FieldFind(digits, target);
      TargetIff(target, f.targetHost, f.targetPort);
    }
  }

  /** A core begins with its port. */
  lemma CoreStart(core: string, f: Forward)
    requires DenotesCore(core, f)
    ensures core != [] && core[0] != ':' && core[0] != '[' && ParsePort(core[..Find(core, ':')]).Some?
  {
    hide ParsePort, Find, DenotesTarget;
    var digits, target :| ParsePort(digits) == Some(f.bindPort) && core == digits + ":" + target &&
                          DenotesTarget(target, f.targetHost, f.targetPort);
    PortText(digits);
    FieldFind(digits, target);
  }

  lemma DenotedIsParsed(text: string, gatewayPorts: bool, f: Forward)
    requires Denotes(Trim(text), gatewayPorts, f)
    ensures Parse(text, gatewayPorts) == Ok(f)
  {
    hide ParsePort, ParseCore, Find, TrimColons, Trim, DenotesCore, Bracketed;
    var spec := Trim(text);
    if core :| Bracketed(spec, f.bindAddr, core) && DenotesCore(core, f) {
      CoreStart(core, f);
      BracketedParts(spec, f.bindAddr, core);
      CoreIff(core, f.bindAddr, f);
    } else if f.bindAddr == DefaultBind(gatewayPorts) && DenotesCore(spec, f) {
      CoreStart(spec, f);
      CoreIff(spec, f.bindAddr, f);
    } else {
      var core :| spec == f.bindAddr + ":" + core && DenotesCore(core, f);
      FieldFind(f.bindAddr, core);
      CoreIff(core, f.bindAddr, f);
    }
  }

  lemma ParsedIsDenoted(text: string, gatewayPorts: bool, f: Forward)
    requires Parse(text, gatewayPorts) == Ok(f)
    ensures Denotes(Trim(text), gatewayPorts, f)
  {
    hide ParsePort, ParseCore, Find, TrimColons, Trim, DenotesCore, Bracketed;
    var spec := Trim(text);
    if spec != [] && spec[0] == '[' {
      var end := Find(spec[1..], ']');
      IsBracketed(spec);
      CoreIff(TrimColons(spec[1..][end + 1..]), spec[1..][..end], f);
    } else {
      var colon := Find(spec, ':');
      if ParsePort(spec[..colon]).Some? {
        CoreIff(spec, DefaultBind(gatewayPorts), f);
      } else {
        NoSuchIn(spec, ':', colon);
        CoreIff(spec[colon + 1..], spec[..colon], f);
        assert spec == spec[..colon] + ":" + spec[colon + 1..];
      }
    }
  }

  /** A text is accepted as a forward if and only if, trimmed, it denotes it; so it is refused when it denotes none. */
  lemma ParseIff(text: string, gatewayPorts: bool, f: Forward)
    ensures Parse(text, gatewayPorts) == Ok(f) <==> Denotes(Trim(text), gatewayPorts, f)
  {
    hide *;
    if Parse(text, gatewayPorts) == Ok(f) {
      ParsedIsDenoted(text, gatewayPorts, f);
    }
    if Denotes(Trim(text), gatewayPorts, f) {
      DenotedIsParsed(text, gatewayPorts, f);
    }
  }
}

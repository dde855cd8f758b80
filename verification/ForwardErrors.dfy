/** Why `parse_forward_spec` refuses a text: which error it gives, by what the text is made of. */
module ForwardErrors {
  import opened Basics
  import opened Text
  import opened ForwardSpec

  ghost predicate NoPort(digits: string) {
    ParsePort(digits).None?
  }

  /** An address in brackets, colons, and something else that is no port. */
  ghost predicate BracketedNoPort(s: string) {
    exists address, rest :: Bracketed(s, address, rest) && (rest == [] || rest[0] != ':') && NoPort(rest)
  }

  ghost predicate LastFieldNoPort(s: string) {
    exists host, digits :: s == host + ":" + digits && ':' !in digits && NoPort(digits)
  }

  ghost predicate TargetFails(target: string, e: SpecError) {
    match e
    case UnclosedHost => Opens(target) && ']' !in target
    case MissingField => !Opens(target) && ':' !in target
    case BadTargetPort => if Opens(target) then BracketedNoPort(target) else LastFieldNoPort(target)
    case _ => false
  }

  ghost predicate CoreFails(core: string, e: SpecError) {
    if ':' !in core then e == MissingField
    else exists port, target ::
           FirstField(core, port, target) && if NoPort(port) then e == BadBindPort else TargetFails(target, e)
  }

  predicate FirstField(s: string, first: string, rest: string) {
    s == first + ":" + rest && ':' !in first
  }

  ghost predicate Fails(spec: string, e: SpecError) {
    if Opens(spec) then
      if ']' !in spec then e == UnclosedBind
      else exists address, core ::
             Bracketed(spec, address, core) && (core == [] || core[0] != ':') && CoreFails(core, e)
    else if ':' !in spec then e == MissingField
    else exists first, rest ::
           FirstField(spec, first, rest) && CoreFails(if NoPort(first) then rest else spec, e)
  }

  // ----- taking a text apart -----

  lemma NotFound(s: string, c: char)
    ensures Find(s, c) == |s| <==> c !in s
  {
  }

  lemma Closed(s: string)
    requires Opens(s)
    ensures ']' in s <==> Find(s[1..], ']') < |s| - 1
  {
    hide Find;
    NotFound(s[1..], ']');
    assert s == [s[0]] + s[1..];
  }

  lemma {:induction false} NoColonFirst(s: string)
    ensures TrimColons(s) == [] || TrimColons(s)[0] != ':'
  {
    if s != [] && s[0] == ':' {
      NoColonFirst(s[1..]);
    }
  }

  lemma SplitAt(s: string, i: nat)
    requires i < |s| && s[i] == ':'
    ensures s == s[..i] + ":" + s[i + 1..]
  {
    assert s == s[..i] + [s[i]] + s[i + 1..];
  }

  lemma FieldCut(s: string)
    requires ':' in s
    ensures var i := Find(s, ':'); i < |s| && FirstField(s, s[..i], s[i + 1..])
  {
    hide Find;
    NotFound(s, ':');
    NoSuchIn(s, ':', Find(s, ':'));
    SplitAt(s, Find(s, ':'));
  }

  lemma FieldRead(s: string, first: string, rest: string)
    requires FirstField(s, first, rest)
    ensures Find(s, ':') == |first| < |s| && s[..|first|] == first && s[|first| + 1..] == rest
  {
    hide Find;
    FieldFind(first, rest);
  }

  lemma LastFieldCut(s: string)
    requires ':' in s
    ensures var i := FindLast(s, ':'); i < |s| && s == s[..i] + ":" + s[i + 1..] && ':' !in s[i + 1..]
  {
    hide FindLast;
    SplitAt(s, FindLast(s, ':'));
  }

  // ----- each part -----

  lemma TargetErr(target: string, e: SpecError)
    requires ParseTarget(target) == Err(e)
    ensures TargetFails(target, e)
  {
    hide ParsePort, Find, FindLast, TrimColons, Bracketed;
    if Opens(target) {
      Closed(target);
      var end := Find(target[1..], ']');
      if end < |target| - 1 {
        IsBracketed(target);
        NoColonFirst(target[1..][end + 1..]);
      }
    } else if ':' in target {
      LastFieldCut(target);
    }
  }

  lemma TargetFailed(target: string, e: SpecError)
    requires TargetFails(target, e)
    ensures ParseTarget(target) == Err(e)
  {
    hide ParsePort, Find, FindLast, TrimColons, Bracketed;
    if Opens(target) {
      Closed(target);
      if e == BadTargetPort {
        var address, rest :| Bracketed(target, address, rest) && (rest == [] || rest[0] != ':') && NoPort(rest);
        BracketedParts(target, address, rest);
      }
    } else if e == BadTargetPort {
      var host, digits :| target == host + ":" + digits && ':' !in digits && NoPort(digits);
      LastField(host, digits);
    }
  }

  lemma CoreErr(bind: string, core: string, e: SpecError)
    requires ParseCore(bind, core) == Err(e)
    ensures CoreFails(core, e)
  {
    hide ParsePort, Find, ParseTarget, TargetFails;
    NotFound(core, ':');
    if ':' in core {
      FieldCut(core);
      var target := core[Find(core, ':') + 1..];
      if ParseTarget(target) == Err(e) {
        TargetErr(target, e);
      }
    }
  }

  lemma CoreFailed(bind: string, core: string, e: SpecError)
    requires CoreFails(core, e)
    ensures ParseCore(bind, core) == Err(e)
  {
    hide ParsePort, Find, ParseTarget, TargetFails, FirstField;
    NotFound(core, ':');
    if ':' in core {
      var port, target :|
        FirstField(core, port, target) && if NoPort(port) then e == BadBindPort else TargetFails(target, e);
      FieldRead(core, port, target);
      if !NoPort(port) {
        TargetFailed(target, e);
      }
    }
  }

  // ----- the whole -----

  lemma Refused(text: string, gatewayPorts: bool, e: SpecError)
    requires Parse(text, gatewayPorts) == Err(e)
    ensures Fails(Trim(text), e)
  {
    hide ParsePort, Find, ParseCore, CoreFails, TrimColons, Bracketed, Trim;
    var spec := Trim(text);
    NotFound(spec, ':');
    if Opens(spec) {
      Closed(spec);
      if ']' in spec {
        var end := Find(spec[1..], ']');
        IsBracketed(spec);
        NoColonFirst(spec[1..][end + 1..]);
        CoreErr(spec[1..][..end], TrimColons(spec[1..][end + 1..]), e);
      }
    } else if ':' in spec {
      FieldCut(spec);
      var first, rest := spec[..Find(spec, ':')], spec[Find(spec, ':') + 1..];
      if NoPort(first) {
        CoreErr(first, rest, e);
      } else {
        CoreErr(DefaultBind(gatewayPorts), spec, e);
      }
    } else {
      assert spec[..|spec|] == spec;
      if ParsePort(spec).Some? {
        CoreErr(DefaultBind(gatewayPorts), spec, e);
        CoreWithoutColon(spec, e);
      }
    }
  }

  lemma CoreWithoutColon(core: string, e: SpecError)
    requires CoreFails(core, e) && ':' !in core
    ensures e == MissingField
  {
  }

  lemma MissesField(bind: string, core: string)
    requires ':' !in core
    ensures ParseCore(bind, core) == Err(MissingField)
  {
    NotFound(core, ':');
  }

  lemma FailedIsRefused(text: string, gatewayPorts: bool, e: SpecError)
    requires Fails(Trim(text), e)
    ensures Parse(text, gatewayPorts) == Err(e)
  {
    hide ParsePort, Find, ParseCore, CoreFails, TrimColons, Bracketed, Trim, FirstField;
    var spec := Trim(text);
    NotFound(spec, ':');
    if Opens(spec) {
      Closed(spec);
      if ']' in spec {
        var address, core :| Bracketed(spec, address, core) && (core == [] || core[0] != ':') && CoreFails(core, e);
        BracketedParts(spec, address, core);
        CoreFailed(address, core, e);
      }
    } else if ':' in spec {
      var first, rest :| FirstField(spec, first, rest) && CoreFails(if NoPort(first) then rest else spec, e);
      FieldRead(spec, first, rest);
      if NoPort(first) {
        CoreFailed(first, rest, e);
      } else {
        CoreFailed(DefaultBind(gatewayPorts), spec, e);
      }
    } else {
      assert spec[..|spec|] == spec;
      MissesField(DefaultBind(gatewayPorts), spec);
    }
  }

  /** A text is refused with an error if and only if, trimmed, it has just that fault. */
  lemma RefusedIff(text: string, gatewayPorts: bool, e: SpecError)
    ensures Parse(text, gatewayPorts) == Err(e) <==> Fails(Trim(text), e)
  {
    hide *;
    if Parse(text, gatewayPorts) == Err(e) {
      Refused(text, gatewayPorts, e);
    }
    if Fails(Trim(text), e) {
      FailedIsRefused(text, gatewayPorts, e);
    }
  }
}

/** What the Include expander's answers mean, for every world of files. */
module IncludeTheorems {
  import opened Basics
  import opened Text
  import opened Includes

  // ----- fuel -----

  /** A flattening that comes to an end does so with exactly as much fuel as it has levels, and more changes nothing. */
  lemma {:induction false} LinesFuel(w: World, items: seq<Item>, base: string, inBlock: bool, n: nat, m: nat)
    requires FlattenLines(w, items, base, inBlock, n).Some?
    ensures var f := FlattenLines(w, items, base, inBlock, n).value;
            f.height <= n && (m >= f.height ==> FlattenLines(w, items, base, inBlock, m) == Some(f))
    decreases n, 1, |items|
  {
    hide Matches;
    if items != [] {
      match items[0].says
      case Plain => LinesFuel(w, items[1..], base, inBlock, n, m);
      case Block => LinesFuel(w, items[1..], base, true, n, m);
      case Malformed =>
      case Include(pattern) =>
        FilesFuel(w, Matches(w, base, pattern).value, n, m);
        LinesFuel(w, items[1..], base, inBlock, n, m);
    }
  }

  lemma {:induction false} FilesFuel(w: World, ms: seq<string>, n: nat, m: nat)
    requires FlattenFiles(w, ms, n).Some?
    ensures var f := FlattenFiles(w, ms, n).value;
            f.height <= n && (m >= f.height ==> FlattenFiles(w, ms, m) == Some(f))
    decreases n, 0, |ms|
  {
    hide FlattenFile;
    if ms != [] {
      FileFuel(w, ms[0], n, m);
      FilesFuel(w, ms[1..], n, m);
    }
  }

  lemma {:induction false} FileFuel(w: World, p: string, n: nat, m: nat)
    requires FlattenFile(w, p, n).Some?
    ensures var f := FlattenFile(w, p, n).value;
            f.height <= n && (m >= f.height ==> FlattenFile(w, p, m) == Some(f))
    decreases n, 0, 0
  {
    hide Parse;
    LinesFuel(w, Parse(w.files[p]), w.dirOf(p), false, n - 1, if m == 0 then 0 else m - 1);
  }

  /** The plain recursive reading of Include: it has a value when the recursion ends. */
  ghost predicate ReadsAs(w: World, content: string, base: string, f: Flat) {
    exists n :: Flatten(w, content, base, n) == Some(f)
  }

  /** The guards only refuse: where the bounded flattening has a value it is the plain one, and it has one
      exactly when the plain one exists and is nested no deeper than the bound. */
  lemma BoundOnlyRefuses(w: World, content: string, base: string, bound: nat, f: Flat)
    ensures Flatten(w, content, base, bound) == Some(f) <==> ReadsAs(w, content, base, f) && f.height <= bound
  {
    hide Parse;
    if Flatten(w, content, base, bound) == Some(f) {
      LinesFuel(w, Parse(content), base, false, bound, bound);
    }
    if ReadsAs(w, content, base, f) && f.height <= bound {
      var n :| Flatten(w, content, base, n) == Some(f);
      LinesFuel(w, Parse(content), base, false, n, bound);
    }
  }

  // ----- percent tokens -----

  /** A text with its percent signs doubled. */
  function Doubled(p: string): string {
    if p == [] then [] else DoubledChar(p[0]) + Doubled(p[1..])
  }

  function DoubledChar(c: char): string {
    if c == '%' then "%%" else [c]
  }

  /** Doubled percent signs stand for themselves, whatever follows, so any text can be written in a pattern. */
  lemma {:induction false} DoubledStandsForItself(w: World, p: string, more: string)
    ensures ExpandTokens(w, Doubled(p) + more) == p + ExpandTokens(w, more)
    decreases |p|
  {
    if p == [] {
      assert [] + more == more;
    } else {
      hide ExpandTokens, Doubled;
      DoubledStep(p);
      Joined(DoubledChar(p[0]), Doubled(p[1..]), more);
      HeadToken(w, p[0], Doubled(p[1..]) + more);
      DoubledStandsForItself(w, p[1..], more);
      Joined([p[0]], p[1..], ExpandTokens(w, more));
      assert p == [p[0]] + p[1..];
    }
  }

  lemma DoubledStep(p: string)
    requires p != []
    ensures Doubled(p) == DoubledChar(p[0]) + Doubled(p[1..])
  {
    hide DoubledChar;
  }

  lemma HeadToken(w: World, c: char, rest: string)
    ensures ExpandTokens(w, DoubledChar(c) + rest) == [c] + ExpandTokens(w, rest)
  {
    hide ExpandTokens;
    var s := DoubledChar(c) + rest;
    assert s[|DoubledChar(c)|..] == rest;
    TokenStep(w, s, [c], |DoubledChar(c)|);
  }

  lemma TokenStep(w: World, s: string, piece: string, n: nat)
    requires s != [] && FirstToken(w, s) == (piece, n)
    ensures ExpandTokens(w, s) == piece + ExpandTokens(w, s[n..])
  {
  }

  /** What a percent sign and the character after it stand for. */
  function TokenValue(w: World, c: char): string {
    if c == 'd' then (if w.home.Some? then w.home.value else [])
    else if c == 'u' then w.user
    else if c == 'h' then w.host
    else if c == '%' then "%"
    else ['%', c]
  }

  lemma TokenAlone(w: World, c: char, more: string)
    ensures ExpandTokens(w, ['%', c] + more) == TokenValue(w, c) + ExpandTokens(w, more)
  {
    hide ExpandTokens;
    var s := ['%', c] + more;
    assert s[1..] == [c] + more && s[2..] == more && s[1..][1..] == more;
    if c in {'d', 'u', 'h', '%'} {
      TokenStep(w, s, TokenValue(w, c), 2);
    } else {
      TokenStep(w, s, "%", 1);
      TokenStep(w, s[1..], [c], 1);
      Joined("%", [c], ExpandTokens(w, more));
    }
  }

  /** After any such text, `%d`, `%u`, `%h` and `%%` stand for their values, and any other percent sign for itself. */
  lemma TokenInContext(w: World, before: string, c: char, more: string)
    ensures ExpandTokens(w, Doubled(before) + (['%', c] + more)) == before + (TokenValue(w, c) + ExpandTokens(w, more))
  {
    hide *;
    DoubledStandsForItself(w, before, ['%', c] + more);
    TokenAlone(w, c, more);
  }

  // ----- the include graph -----

  /** The files a text includes, in order. */
  function Targets(w: World, items: seq<Item>, base: string): seq<string> {
    if items == [] then []
    else
      var here := if items[0].says.Include? then Matches(w, base, items[0].says.pattern) else None;
      (if here.Some? then here.value else []) + Targets(w, items[1..], base)
  }

  /** The file reached by taking the a[0]-th include of the text, then the a[1]-th include of that file, and so on. */
  function At(w: World, items: seq<Item>, base: string, a: seq<nat>): Option<string>
    decreases |a|
  {
    if a == [] || a[0] >= |Targets(w, items, base)| then None
    else
      var m := Targets(w, items, base)[a[0]];
      if |a| == 1 then Some(m)
      else if m in w.files then At(w, Parse(w.files[m]), w.dirOf(m), a[1..])
      else None
  }

  lemma {:induction false} FilesAppend(w: World, a: seq<string>, b: seq<string>, fuel: nat)
    requires FlattenFiles(w, a, fuel).Some? && FlattenFiles(w, b, fuel).Some?
    ensures FlattenFiles(w, a + b, fuel) == Then(FlattenFiles(w, a, fuel).value, FlattenFiles(w, b, fuel))
    decreases |a|
  {
    hide FlattenFile;
    if a == [] {
      assert a + b == b;
      ThenEmpty(FlattenFiles(w, b, fuel).value);
    } else {
      assert (a + b)[1..] == a[1..] + b;
      FilesAppend(w, a[1..], b, fuel);
      ThenAssociative(FlattenFile(w, a[0], fuel).value, FlattenFiles(w, a[1..], fuel).value, FlattenFiles(w, b, fuel));
    }
  }

  /** Reading a text visits just what reading its includes one after the other does. */
  lemma {:induction false} VisitsTargets(w: World, items: seq<Item>, base: string, inBlock: bool, fuel: nat)
    requires FlattenLines(w, items, base, inBlock, fuel).Some?
    ensures var files := FlattenFiles(w, Targets(w, items, base), fuel);
            var f := FlattenLines(w, items, base, inBlock, fuel).value;
            files.Some? && files.value.visited == f.visited && files.value.height == f.height
    decreases |items|
  {
    hide Matches, FlattenFile;
    if items != [] {
      var rest := Targets(w, items[1..], base);
      match items[0].says
      case Plain => VisitsTargets(w, items[1..], base, inBlock, fuel); assert [] + rest == rest;
      case Block => VisitsTargets(w, items[1..], base, true, fuel); assert [] + rest == rest;
      case Malformed =>
      case Include(pattern) =>
        VisitsTargets(w, items[1..], base, inBlock, fuel);
        FilesAppend(w, Matches(w, base, pattern).value, rest, fuel);
    }
  }

  /** The i-th file of a list is read, and what it visits is part of the whole. */
  lemma {:induction false} FileOfFiles(w: World, ms: seq<string>, fuel: nat, i: nat)
    requires FlattenFiles(w, ms, fuel).Some? && Distinct(FlattenFiles(w, ms, fuel).value.visited) && i < |ms|
    ensures FlattenFile(w, ms[i], fuel).Some?
    ensures var f := FlattenFile(w, ms[i], fuel).value;
            Distinct(f.visited) && f.height <= FlattenFiles(w, ms, fuel).value.height &&
            forall p :: p in f.visited ==> p in FlattenFiles(w, ms, fuel).value.visited
    decreases |ms|
  {
    hide FlattenFile;
    ThenFresh(FlattenFile(w, ms[0], fuel).value, FlattenFiles(w, ms[1..], fuel).value, {});
    if i > 0 {
      FileOfFiles(w, ms[1..], fuel, i - 1);
    }
  }

  /** Two files of a list have nothing in common. */
  lemma {:induction false} FilesDisjoint(w: World, ms: seq<string>, fuel: nat, i: nat, j: nat, p: string)
    requires FlattenFiles(w, ms, fuel).Some? && Distinct(FlattenFiles(w, ms, fuel).value.visited) && i < j < |ms|
    requires FlattenFile(w, ms[i], fuel).Some? && p in FlattenFile(w, ms[i], fuel).value.visited
    requires FlattenFile(w, ms[j], fuel).Some?
    ensures p !in FlattenFile(w, ms[j], fuel).value.visited
    decreases |ms|
  {
    hide FlattenFile;
    var first := FlattenFile(w, ms[0], fuel).value;
    ThenFresh(first, FlattenFiles(w, ms[1..], fuel).value, {});
    if i > 0 {
      FilesDisjoint(w, ms[1..], fuel, i - 1, j - 1, p);
    } else {
      FileOfFiles(w, ms[1..], fuel, j - 1);
      assert p in Elements(first.visited);
    }
  }

  /** What an address reaches is visited while its first include is read, and no address is longer than the nesting. */
  lemma {:induction false} ReachedIsVisited(w: World, items: seq<Item>, base: string, inBlock: bool, fuel: nat,
                                            a: seq<nat>)
    requires FlattenLines(w, items, base, inBlock, fuel).Some?
    requires Distinct(FlattenLines(w, items, base, inBlock, fuel).value.visited) && At(w, items, base, a).Some?
    ensures var m := Targets(w, items, base)[a[0]];
            var p := w.canonical(At(w, items, base, a).value);
            && FlattenFile(w, m, fuel).Some? && p in FlattenFile(w, m, fuel).value.visited
            && |a| <= FlattenLines(w, items, base, inBlock, fuel).value.height
            && (|a| > 1 ==> fuel > 0 && Flatten(w, w.files[m], w.dirOf(m), fuel - 1).Some? &&
                            p in Flatten(w, w.files[m], w.dirOf(m), fuel - 1).value.visited)
    decreases |a|
  {
    hide Parse;
    var ms := Targets(w, items, base);
    VisitsTargets(w, items, base, inBlock, fuel);
    FileOfFiles(w, ms, fuel, a[0]);
    var m := ms[a[0]];
    if |a| > 1 {
      var inner := Flatten(w, w.files[m], w.dirOf(m), fuel - 1).value;
      NestedDistinct(w, m, inner);
      ReachedIsVisited(w, Parse(w.files[m]), w.dirOf(m), false, fuel - 1, a[1..]);
      VisitsTargets(w, Parse(w.files[m]), w.dirOf(m), false, fuel - 1);
      FileOfFiles(w, Targets(w, Parse(w.files[m]), w.dirOf(m)), fuel - 1, a[1]);
    }
  }

  lemma NestedDistinct(w: World, m: string, inner: Flat)
    requires Distinct(Nested(w, m, inner).visited)
    ensures Distinct(inner.visited) && w.canonical(m) !in inner.visited
  {
    var all := Nested(w, m, inner).visited;
    forall i, j | 0 <= i < j < |inner.visited| ensures inner.visited[i] != inner.visited[j] {
      assert all[i + 1] != all[j + 1];
    }
    forall i | 0 <= i < |inner.visited| ensures inner.visited[i] != w.canonical(m) {
      assert all[0] != all[i + 1];
    }
  }

  /** A successful run has read a tree: two ways that lead to one file are the same way. */
  lemma {:induction false} ReachableGraphIsTree(w: World, items: seq<Item>, base: string, inBlock: bool, fuel: nat,
                                                a: seq<nat>, b: seq<nat>)
    requires FlattenLines(w, items, base, inBlock, fuel).Some?
    requires Distinct(FlattenLines(w, items, base, inBlock, fuel).value.visited)
    requires At(w, items, base, a).Some? && At(w, items, base, b).Some?
    requires w.canonical(At(w, items, base, a).value) == w.canonical(At(w, items, base, b).value)
    ensures a == b
    decreases |a|
  {
    hide Parse, Targets;
    var ms := Targets(w, items, base);
    var p := w.canonical(At(w, items, base, a).value);
    VisitsTargets(w, items, base, inBlock, fuel);
    ReachedIsVisited(w, items, base, inBlock, fuel, a);
    ReachedIsVisited(w, items, base, inBlock, fuel, b);
    if a[0] < b[0] {
      FilesDisjoint(w, ms, fuel, a[0], b[0], p);
    } else if b[0] < a[0] {
      FilesDisjoint(w, ms, fuel, b[0], a[0], p);
    } else {
      FileOfFiles(w, ms, fuel, a[0]);
      var m := ms[a[0]];
      if |a| > 1 || |b| > 1 {
        NestedDistinct(w, m, Flatten(w, w.files[m], w.dirOf(m), fuel - 1).value);
      }
      if |a| > 1 && |b| > 1 {
        ReachableGraphIsTree(w, Parse(w.files[m]), w.dirOf(m), false, fuel - 1, a[1..], b[1..]);
        assert a == [a[0]] + a[1..] && b == [b[0]] + b[1..];
      } else if |a| == 1 && |b| == 1 {
        assert a == [a[0]] && b == [b[0]];
      }
    }
  }

  /** What the guarded expander returns, as a value: `PreprocessIncludes` returns this at depth 0 with nothing seen. */
  ghost predicate Succeeds(w: World, content: string, base: string) {
    var total := Flatten(w, content, base, MAX_INCLUDE_DEPTH);
    total.Some? && Fresh(total.value, {})
  }

  /** A cycle or a diamond among the files reached from a text, the text's own file included, is an error. */
  lemma TwiceReachedFails(w: World, content: string, base: string, a: seq<nat>, b: seq<nat>)
    requires At(w, Parse(content), base, a).Some? && At(w, Parse(content), base, b).Some? && a != b
    requires w.canonical(At(w, Parse(content), base, a).value) == w.canonical(At(w, Parse(content), base, b).value)
    ensures !Succeeds(w, content, base)
  {
    hide Parse;
    if Succeeds(w, content, base) {
      ReachableGraphIsTree(w, Parse(content), base, false, MAX_INCLUDE_DEPTH, a, b);
    }
  }

  /** So is a chain of more than 16 includes. */
  lemma TooDeepFails(w: World, content: string, base: string, a: seq<nat>)
    requires At(w, Parse(content), base, a).Some? && |a| > 16
    ensures !Succeeds(w, content, base)
  {
    hide Parse;
    if Succeeds(w, content, base) {
      ReachedIsVisited(w, Parse(content), base, false, MAX_INCLUDE_DEPTH, a);
      LinesFuel(w, Parse(content), base, false, MAX_INCLUDE_DEPTH, MAX_INCLUDE_DEPTH);
    }
  }

  lemma {:induction false} AtAppend(w: World, items: seq<Item>, base: string, a: seq<nat>, c: seq<nat>)
    requires At(w, items, base, a).Some? && At(w, items, base, a).value in w.files && c != []
    ensures var m := At(w, items, base, a).value;
            At(w, items, base, a + c) == At(w, Parse(w.files[m]), w.dirOf(m), c)
    decreases |a|
  {
    hide Parse;
    assert (a + c)[1..] == a[1..] + c;
    if |a| == 1 {
      assert a[1..] + c == c;
    } else {
      var m := Targets(w, items, base)[a[0]];
      AtAppend(w, Parse(w.files[m]), w.dirOf(m), a[1..], c);
    }
  }

  /** A reachable file that leads back to itself, directly or through others, is an error. */
  lemma CycleFails(w: World, content: string, base: string, a: seq<nat>, c: seq<nat>)
    requires At(w, Parse(content), base, a).Some? && At(w, Parse(content), base, a).value in w.files && c != []
    requires var m := At(w, Parse(content), base, a).value;
             At(w, Parse(w.files[m]), w.dirOf(m), c).Some? &&
             w.canonical(At(w, Parse(w.files[m]), w.dirOf(m), c).value) == w.canonical(m)
    ensures !Succeeds(w, content, base)
  {
    hide Parse;
    AtAppend(w, Parse(content), base, a, c);
    assert |a + c| > |a|;
    TwiceReachedFails(w, content, base, a, a + c);
  }

  /** A cycle through the text's own file is caught too, although that file is not among those seen at the start. */
  lemma RootCycleFails(w: World, content: string, base: string, a: seq<nat>)
    requires var r := At(w, Parse(content), base, a);
             r.Some? && r.value in w.files && w.files[r.value] == content && w.dirOf(r.value) == base
    ensures !Succeeds(w, content, base)
  {
    hide Parse;
    CycleFails(w, content, base, a, a);
  }

  // ----- the output -----

  predicate Inert(line: string) {
    OneLine(line) && (Classify(line).Plain? || Classify(line).Block?)
  }

  ghost predicate AllInert(f: Option<Flat>) {
    f.Some? ==> forall l :: l in f.value.lines ==> Inert(l)
  }

  /** The items of one text: its lines, none of them with a line feed in it. */
  ghost predicate FromText(items: seq<Item>) {
    forall i :: 0 <= i < |items| ==> OneLine(items[i].text) && items[i].says == Classify(items[i].text)
  }

  lemma {:induction false} ItemsFromText(lines: seq<string>)
    requires forall l :: l in lines ==> OneLine(l)
    ensures FromText(Items(lines)) && |Items(lines)| == |lines|
  {
    hide Classify;
    if lines != [] {
      ItemsFromText(lines[1..]);
      assert forall i :: 0 < i < |lines| ==> Items(lines)[i] == Items(lines[1..])[i - 1];
    }
  }

  lemma ParseFromText(content: string)
    ensures FromText(Parse(content))
  {
    hide Classify;
    LinesAreSingle(content);
    ItemsFromText(Lines(content));
  }

  /** Nothing that comes out is an Include line. */
  lemma {:induction false} LinesInert(w: World, items: seq<Item>, base: string, inBlock: bool, fuel: nat)
    requires FromText(items)
    ensures AllInert(FlattenLines(w, items, base, inBlock, fuel))
    decreases fuel, 1, |items|
  {
    hide Classify, Matches;
    if items != [] {
      assert FromText(items[1..]);
      match items[0].says
      case Plain => LinesInert(w, items[1..], base, inBlock, fuel);
      case Block => LinesInert(w, items[1..], base, true, fuel);
      case Malformed =>
      case Include(pattern) =>
        if Matches(w, base, pattern).Some? {
          FilesInert(w, Matches(w, base, pattern).value, fuel);
        }
        LinesInert(w, items[1..], base, inBlock, fuel);
    }
  }

  lemma {:induction false} FilesInert(w: World, ms: seq<string>, fuel: nat)
    ensures AllInert(FlattenFiles(w, ms, fuel))
    decreases fuel, 0, |ms|
  {
    hide Classify, Matches, Parse;
    if ms != [] {
      if fuel > 0 && ms[0] in w.files {
        ParseFromText(w.files[ms[0]]);
        LinesInert(w, Parse(w.files[ms[0]]), w.dirOf(ms[0]), false, fuel - 1);
      }
      FilesInert(w, ms[1..], fuel);
    }
  }

  /** Losing its final carriage return does not turn a line into an Include. */
  lemma StillInert(line: string)
    requires Inert(line)
    ensures Inert(StripCr(line))
  {
    hide ClassifyTrimmed;
    var short := StripCr(line);
    if short != line {
      assert line == short + "\r";
      TrimStartCr(short);
      TrimmedStillInert(TrimStart(short));
    }
  }

  lemma TrimmedStillInert(t: string)
    ensures t != [] && (ClassifyTrimmed(t + "\r").Plain? || ClassifyTrimmed(t + "\r").Block?) ==>
              ClassifyTrimmed(t).Plain? || ClassifyTrimmed(t).Block?
    ensures ClassifyTrimmed([]).Plain?
  {
    if t != [] {
      FirstWhitespaceCr(t);
      assert (t + "\r")[0] == t[0];
    }
  }

  lemma {:induction false} TrimStartCr(s: string)
    ensures TrimStart(s) != [] ==> TrimStart(s + "\r") == TrimStart(s) + "\r"
  {
    if s != [] && IsWhitespace(s[0]) {
      assert (s + "\r")[1..] == s[1..] + "\r";
      TrimStartCr(s[1..]);
    }
  }

  lemma {:induction false} FirstWhitespaceCr(s: string)
    ensures FirstWhitespace(s + "\r") == FirstWhitespace(s)
    ensures (s + "\r")[..FirstWhitespace(s)] == s[..FirstWhitespace(s)]
  {
    if s == [] || IsWhitespace(s[0]) {
      assert IsWhitespace((s + "\r")[0]);
    } else {
      assert (s + "\r")[1..] == s[1..] + "\r";
      FirstWhitespaceCr(s[1..]);
    }
  }

  lemma {:induction false} InertPassesThrough(w: World, lines: seq<string>, base: string, inBlock: bool, fuel: nat)
    requires forall l :: l in lines ==> Inert(l)
    ensures FlattenLines(w, Items(lines), base, inBlock, fuel) == Some(Flat(lines, [], 0))
    decreases |lines|
  {
    hide Classify;
    if lines != [] {
      assert Inert(lines[0]);
      var items := Items(lines);
      assert items[0] == Item(lines[0], Classify(lines[0])) && items[1..] == Items(lines[1..]);
      assert Then(Flat([lines[0]], [], 0), Some(Flat(lines[1..], [], 0))) == Some(Flat(lines, [], 0)) by {
        var none: seq<string> := [];
        assert [lines[0]] + lines[1..] == lines && none + none == none;
      }
      if Classify(lines[0]).Block? {
        InertPassesThrough(w, lines[1..], base, true, fuel);
      } else {
        InertPassesThrough(w, lines[1..], base, inBlock, fuel);
      }
    }
  }

  lemma {:induction false} StripAllInert(lines: seq<string>)
    requires forall l :: l in lines ==> Inert(l)
    ensures forall l :: l in StripAll(lines) ==> Inert(l)
    ensures |Unlines(StripAll(lines))| <= |Unlines(lines)|
    ensures StripAll(lines) == lines <==> |Unlines(StripAll(lines))| == |Unlines(lines)|
    ensures StripAll(lines) == lines <==> forall l :: l in lines ==> StripCr(l) == l
  {
    hide Inert;
    if lines != [] {
      StripAllInert(lines[1..]);
      assert Inert(lines[0]);
      StillInert(lines[0]);
      var rest := StripAll(lines[1..]);
      assert StripAll(lines) == [StripCr(lines[0])] + rest;
      assert StripAll(lines)[1..] == rest;
      assert StripAll(lines) == lines ==> StripCr(lines[0]) == lines[0] && rest == lines[1..];
      assert lines == [lines[0]] + lines[1..];
    }
  }

  /**
   The output of a run is itself a text without Include lines, so running the expander over it always succeeds,
   and gives the same text again if and only if no line that came out ends in a carriage return.
   */
  lemma SecondPass(w: World, content: string, base: string, base2: string)
    requires Succeeds(w, content, base)
    ensures var lines := Flatten(w, content, base, MAX_INCLUDE_DEPTH).value.lines;
            var out := Unlines(lines);
            && (forall l :: l in Lines(out) ==> Inert(l))
            && Succeeds(w, out, base2)
            && Flatten(w, out, base2, MAX_INCLUDE_DEPTH).value.visited == []
            && (Unlines(Flatten(w, out, base2, MAX_INCLUDE_DEPTH).value.lines) == out <==>
                forall l :: l in lines ==> StripCr(l) == l)
  {
    hide Classify, Parse;
    var lines := Flatten(w, content, base, MAX_INCLUDE_DEPTH).value.lines;
    ParseFromText(content);
    LinesInert(w, Parse(content), base, false, MAX_INCLUDE_DEPTH);
    LinesOfUnlines(lines);
    StripAllInert(lines);
    ParseOfLines(Unlines(lines), StripAll(lines));
    InertPassesThrough(w, StripAll(lines), base2, false, MAX_INCLUDE_DEPTH);
  }

  // ----- carriage returns -----

  /** No line feed has two carriage returns before it, and the text does not end in one. */
  ghost predicate CleanReturns(s: string) {
    && (forall i :: 0 <= i < |s| - 2 && s[i] == '\r' && s[i + 1] == '\r' ==> s[i + 2] != '\n')
    && (s != [] ==> s[|s| - 1] != '\r')
  }

  lemma {:induction false} CleanLines(s: string)
    requires CleanReturns(s)
    ensures forall l :: l in Lines(s) ==> StripCr(l) == l
    decreases |s|
  {
    if s != [] {
      var i := Find(s, '\n');
      if i < |s| {
        assert !(i > 1 && s[i - 2] == '\r' && s[i - 1] == '\r');
        assert forall j :: i + 1 <= j < |s| ==> s[j] == s[i + 1..][j - i - 1];
        assert CleanReturns(s[i + 1..]);
        CleanLines(s[i + 1..]);
      }
    }
  }

  ghost predicate CleanItems(items: seq<Item>) {
    forall i :: 0 <= i < |items| ==> StripCr(items[i].text) == items[i].text
  }

  ghost predicate CleanOutput(f: Option<Flat>) {
    f.Some? ==> forall l :: l in f.value.lines ==> StripCr(l) == l
  }

  /** All that is read from the files whose canonical paths are in `read` is clean. */
  ghost predicate CleanFiles(w: World, read: set<string>) {
    forall m :: m in w.files && w.canonical(m) in read ==> CleanReturns(w.files[m])
  }

  ghost predicate ReadsOnly(f: Option<Flat>, read: set<string>) {
    f.Some? ==> forall p :: p in f.value.visited ==> p in read
  }

  lemma {:induction false} ItemsClean(lines: seq<string>)
    requires forall l :: l in lines ==> StripCr(l) == l
    ensures CleanItems(Items(lines))
  {
    hide Classify, StripCr;
    if lines != [] {
      ItemsClean(lines[1..]);
    }
  }

  lemma {:induction false} LinesClean(w: World, items: seq<Item>, base: string, inBlock: bool, fuel: nat,
                                      read: set<string>)
    requires CleanItems(items) && CleanFiles(w, read) && ReadsOnly(FlattenLines(w, items, base, inBlock, fuel), read)
    ensures CleanOutput(FlattenLines(w, items, base, inBlock, fuel))
    decreases fuel, 1, |items|
  {
    hide Classify, Matches, StripCr, CleanFiles;
    if items != [] && FlattenLines(w, items, base, inBlock, fuel).Some? {
      assert CleanItems(items[1..]);
      match items[0].says
      case Plain => LinesClean(w, items[1..], base, inBlock, fuel, read);
      case Block => LinesClean(w, items[1..], base, true, fuel, read);
      case Malformed =>
      case Include(pattern) =>
        FilesClean(w, Matches(w, base, pattern).value, fuel, read);
        LinesClean(w, items[1..], base, inBlock, fuel, read);
    }
  }

  lemma {:induction false} FilesClean(w: World, ms: seq<string>, fuel: nat, read: set<string>)
    requires CleanFiles(w, read) && ReadsOnly(FlattenFiles(w, ms, fuel), read)
    ensures CleanOutput(FlattenFiles(w, ms, fuel))
    decreases fuel, 0, |ms|
  {
    hide Classify, Matches, StripCr, Parse;
    if ms != [] && FlattenFiles(w, ms, fuel).Some? {
      var m := ms[0];
      var first := FlattenFile(w, m, fuel).value;
      assert w.canonical(m) == first.visited[0];
      var inner := Flatten(w, w.files[m], w.dirOf(m), fuel - 1);
      assert inner.value.visited == first.visited[1..];
      ParseClean(w.files[m]);
      LinesClean(w, Parse(w.files[m]), w.dirOf(m), false, fuel - 1, read);
      FilesClean(w, ms[1..], fuel, read);
    }
  }

  lemma ParseClean(content: string)
    requires CleanReturns(content)
    ensures CleanItems(Parse(content))
  {
    CleanLines(content);
    ItemsClean(Lines(content));
  }

  /** When the text and every file that is read have no carriage return before another line end or at their end, a
      second pass changes nothing. */
  lemma SecondPassOfCleanFiles(w: World, content: string, base: string, base2: string)
    requires Succeeds(w, content, base) && CleanReturns(content)
    requires var f := Flatten(w, content, base, MAX_INCLUDE_DEPTH).value;
             forall m :: m in w.files && w.canonical(m) in f.visited ==> CleanReturns(w.files[m])
    ensures var out := Unlines(Flatten(w, content, base, MAX_INCLUDE_DEPTH).value.lines);
            Succeeds(w, out, base2) && Unlines(Flatten(w, out, base2, MAX_INCLUDE_DEPTH).value.lines) == out
  {
    hide Classify, Parse, CleanReturns, StripCr;
    var read := Elements(Flatten(w, content, base, MAX_INCLUDE_DEPTH).value.visited);
    ParseClean(content);
    LinesClean(w, Parse(content), base, false, MAX_INCLUDE_DEPTH, read);
    SecondPass(w, content, base, base2);
  }

  // ----- a block keyword without a value -----

  /** A line with nothing but Host or Match on it does not begin a block: an Include after it is still expanded. */
  lemma BareBlockKeyword(w: World, line: string, items: seq<Item>, base: string, inBlock: bool, fuel: nat)
    requires var t := TrimStart(line); Lower(t) in {"host", "match"}
    ensures FlattenLines(w, [Item(line, Classify(line))] + items, base, inBlock, fuel) ==
              Then(Flat([line], [], 0), FlattenLines(w, items, base, inBlock, fuel))
  {
    hide Classify;
    BareIsPlain(TrimStart(line));
    ClassifyIs(line);
    var all := [Item(line, Classify(line))] + items;
    assert all[0] == Item(line, Plain) && all[1..] == items;
  }

  lemma ClassifyIs(line: string)
    ensures Classify(line) == ClassifyTrimmed(TrimStart(line))
  {
  }

  lemma BareIsPlain(t: string)
    requires Lower(t) in {"host", "match"}
    ensures ClassifyTrimmed(t) == Plain
  {
    var word := Lower(t);
    WordEnds(t, word);
    assert t[..|t|] == t && word != [] && word != "include" && t[0] != '#' by {
      assert LowerChar(t[0]) == word[0];
    }
  }

  /** A word ends where the text does when there is no space in it, whatever its case. */
  lemma WordEnds(t: string, word: string)
    requires Lower(t) == word && forall i :: 0 <= i < |word| ==> 'a' <= word[i] <= 'z'
    ensures FirstWhitespace(t) == |t|
  {
    hide IsWhitespace, LowerChar, FirstWhitespace, Lower;
    var i := FirstWhitespace(t);
    if i < |t| {
      assert word[i] == LowerChar(t[i]);
      LetterIsNoSpace(t[i]);
    }
  }

  lemma LetterIsNoSpace(c: char)
    requires 'a' <= LowerChar(c) <= 'z'
    ensures !IsWhitespace(c)
  {
  }

  lemma ParseOfLines(content: string, lines: seq<string>)
    requires Lines(content) == lines
    ensures Parse(content) == Items(lines)
  {
  }
}

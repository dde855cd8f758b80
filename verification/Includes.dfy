/**
 The Include expander of src/config.rs.  `Flatten` is the plain recursive reading of Include, which knows
 nothing of cycles or depth; `PreprocessIncludes` is the guarded expander.  The files are a map; matching a
 glob against a directory, canonicalising a path and taking its directory are functions of the world.
 */
module Includes {
  import opened Basics
  import opened Text

  datatype World = World(
    files: map<string, string>,
    canonical: string -> string,
    dirOf: string -> string,
    glob: string -> Option<seq<string>>,
    home: Option<string>,
    user: string,
    host: string)

  const MAX_INCLUDE_DEPTH := 16

  // ----- one line -----

  datatype Directive = Plain | Block | Include(pattern: string) | Malformed

  /** What a line says.  A keyword without a value passes through, unless it is Include. */
  function Classify(line: string): Directive {
    ClassifyTrimmed(TrimStart(line))
  }

  function ClassifyTrimmed(t: string): Directive {
    if t == [] || t[0] == '#' then Plain
    else
      var w := FirstWhitespace(t);
      var key := Lower(t[..w]);
      if w == |t| then (if key == "include" then Malformed else Plain)
      else if key == "host" || key == "match" then Block
      else if key == "include" then
        var value := Trim(t[w + 1..]);
        if value == [] then Malformed else Include(value)
      else Plain
  }

  /** A line and what it says. */
  datatype Item = Item(text: string, says: Directive)

  function Items(lines: seq<string>): seq<Item> {
    if lines == [] then [] else [Item(lines[0], Classify(lines[0]))] + Items(lines[1..])
  }

  /** The lines of a text, each with what it says. */
  function Parse(content: string): seq<Item> {
    Items(Lines(content))
  }

  // ----- from a pattern to files -----

  /** What stands at the front of a pattern, expanded, and how many characters it took: `%d`, `%u`, `%h` and `%%`
      are tokens; any other percent sign is kept as it is. */
  function FirstToken(w: World, p: string): (r: (string, nat))
    requires p != []
    ensures 1 <= r.1 <= |p|
  {
    if p[0] == '%' && |p| > 1 then
      if p[1] == 'd' then (if w.home.Some? then w.home.value else [], 2)
      else if p[1] == 'u' then (w.user, 2)
      else if p[1] == 'h' then (w.host, 2)
      else if p[1] == '%' then ("%", 2)
      else ("%", 1)
    else ([p[0]], 1)
  }

  function ExpandTokens(w: World, p: string): string {
    if p == [] then []
    else
      var first := FirstToken(w, p);
      first.0 + ExpandTokens(w, p[first.1..])
  }

  /** `expand_include_tokens`: one pass over the characters, looking one ahead. */
  method ExpandIncludeTokens(w: World, pattern: string) returns (out: string)
    ensures out == ExpandTokens(w, pattern)
  {
    out := [];
    var i := 0;
    while i < |pattern|
      invariant 0 <= i <= |pattern|
      invariant ExpandTokens(w, pattern) == out + ExpandTokens(w, pattern[i..])
    {
      ghost var at, before := i, out;
      var c := pattern[i];
      var piece := [c];
      i := i + 1;
      if c == '%' && i < |pattern| {
        if pattern[i] == 'd' {
          i := i + 1;
          piece := if w.home.Some? then w.home.value else [];
        } else if pattern[i] == 'u' {
          i := i + 1;
          piece := w.user;
        } else if pattern[i] == 'h' {
          i := i + 1;
          piece := w.host;
        } else if pattern[i] == '%' {
          i := i + 1;
          piece := "%";
        }
      }
      out := out + piece;
      OneToken(w, pattern, at, piece, i, before);
    }
    assert pattern[i..] == [];
  }

  lemma OneToken(w: World, pattern: string, at: nat, piece: string, next: nat, before: string)
    requires at < next <= |pattern| && FirstToken(w, pattern[at..]) == (piece, next - at)
    ensures before + ExpandTokens(w, pattern[at..]) == (before + piece) + ExpandTokens(w, pattern[next..])
  {
    assert pattern[at..][next - at..] == pattern[next..];
  }

  /** `Path::join` */
  function PathJoin(base: string, p: string): string {
    if p != [] && p[0] == '/' then p
    else if base == [] || base[|base| - 1] == '/' then base + p
    else base + "/" + p
  }

  function TrimLeadingSlashes(s: string): string {
    if s != [] && s[0] == '/' then TrimLeadingSlashes(s[1..]) else s
  }

  /** The path a pattern stands for: `~` is the home directory, anything relative is relative to `base`. */
  function PatternPath(w: World, base: string, pattern: string): string {
    var p := ExpandTokens(w, pattern);
    if p != [] && p[0] == '~' then
      var home := if w.home.Some? then w.home.value else ".";
      var rest := TrimLeadingSlashes(p[1..]);
      if rest == [] then home else PathJoin(home, rest)
    else PathJoin(base, p)
  }

  predicate HasMeta(p: string) {
    exists c :: c in p && (c == '*' || c == '?' || c == '[')
  }

  /** `expand_glob`: a path without meta-characters stands for itself. */
  function ExpandGlob(w: World, p: string): Option<seq<string>> {
    if HasMeta(p) then w.glob(p) else Some([p])
  }

  /** The files an Include line names; none at all is an error. */
  function Matches(w: World, base: string, pattern: string): Option<seq<string>> {
    var m := ExpandGlob(w, PatternPath(w, base, pattern));
    if m.Some? && m.value == [] then None else m
  }

  // ----- the plain reading -----

  /** The lines that come out, the canonical paths read on the way, and how deep the nesting went. */
  datatype Flat = Flat(lines: seq<string>, visited: seq<string>, height: nat)

  const EMPTY := Flat([], [], 0)

  function Max(a: nat, b: nat): nat {
    if a < b then b else a
  }

  function Then(a: Flat, b: Option<Flat>): Option<Flat> {
    if b.None? then None
    else Some(Flat(a.lines + b.value.lines, a.visited + b.value.visited, Max(a.height, b.value.height)))
  }

  /** Put a file around what is in it. */
  function Nested(w: World, m: string, inner: Flat): Flat {
    Flat(inner.lines, [w.canonical(m)] + inner.visited, inner.height + 1)
  }

  /** Flatten the lines of one file, `inBlock` once a Host or Match has gone by. */
  function FlattenLines(w: World, items: seq<Item>, base: string, inBlock: bool, fuel: nat): Option<Flat>
    decreases fuel, 1, |items|
  {
    if items == [] then Some(EMPTY)
    else
      match items[0].says
      case Plain => Then(Flat([items[0].text], [], 0), FlattenLines(w, items[1..], base, inBlock, fuel))
      case Block => Then(Flat([items[0].text], [], 0), FlattenLines(w, items[1..], base, true, fuel))
      case Malformed => None
      case Include(pattern) =>
        if inBlock then None
        else
          var inner := FlattenInclude(w, base, pattern, fuel);
          if inner.None? then None
          else Then(inner.value, FlattenLines(w, items[1..], base, inBlock, fuel))
  }

  /** Flatten one Include line. */
  function FlattenInclude(w: World, base: string, pattern: string, fuel: nat): Option<Flat>
    decreases fuel, 1, 0
  {
    var m := Matches(w, base, pattern);
    if m.None? then None else FlattenFiles(w, m.value, fuel)
  }

  /** Flatten the files an Include line names, one after the other. */
  function FlattenFiles(w: World, ms: seq<string>, fuel: nat): Option<Flat>
    decreases fuel, 0, |ms|
  {
    if ms == [] then Some(EMPTY)
    else
      var first := FlattenFile(w, ms[0], fuel);
      if first.None? then None else Then(first.value, FlattenFiles(w, ms[1..], fuel))
  }

  function FlattenFile(w: World, m: string, fuel: nat): Option<Flat>
    decreases fuel, 0, 0
  {
    if fuel == 0 || m !in w.files then None
    else
      var inner := FlattenLines(w, Parse(w.files[m]), w.dirOf(m), false, fuel - 1);
      if inner.None? then None else Some(Nested(w, m, inner.value))
  }

  /** The plain flattening of a text, as far as `fuel` levels of nesting go. */
  function Flatten(w: World, content: string, base: string, fuel: nat): Option<Flat> {
    FlattenLines(w, Parse(content), base, false, fuel)
  }

  // ----- the guarded expander -----

  /** No file is read twice, and none of `seen` is read. */
  ghost predicate Fresh(f: Flat, seen: set<string>) {
    Distinct(f.visited) && forall p :: p in f.visited ==> p !in seen
  }

  ghost function Elements(s: seq<string>): set<string> {
    set p | p in s
  }

  /** What the guarded expander is to return, given what is still to come after `acc`. */
  ghost predicate Agrees(r: Option<string>, total: Option<Flat>, seen: set<string>, seen': set<string>) {
    && (r.Some? <==> total.Some? && Fresh(total.value, seen))
    && (r.Some? ==> r.value == Unlines(total.value.lines) && seen' == seen + Elements(total.value.visited))
  }

  ghost predicate Accumulated(acc: Flat, output: string, seen0: set<string>, seen: set<string>) {
    output == Unlines(acc.lines) && Fresh(acc, seen0) && seen == seen0 + Elements(acc.visited)
  }

  lemma ThenFresh(a: Flat, b: Flat, seen: set<string>)
    ensures var t := Then(a, Some(b)).value;
            Fresh(t, seen) <==> Fresh(a, seen) && Fresh(b, seen + Elements(a.visited))
  {
    var t := Then(a, Some(b)).value;
    if Fresh(a, seen) && Fresh(b, seen + Elements(a.visited)) {
      forall i, j | 0 <= i < j < |t.visited| ensures t.visited[i] != t.visited[j] {
        if i < |a.visited| <= j {
          assert t.visited[j] in b.visited && t.visited[i] in Elements(a.visited);
        }
      }
    }
    if Fresh(t, seen) {
      forall i, j | 0 <= i < j < |a.visited| ensures a.visited[i] != a.visited[j] {
        assert t.visited[i] != t.visited[j];
      }
      forall i, j | 0 <= i < j < |b.visited| ensures b.visited[i] != b.visited[j] {
        assert t.visited[|a.visited| + i] != t.visited[|a.visited| + j];
      }
      forall p | p in b.visited ensures p !in seen {
        assert p in t.visited;
      }
      forall i, j | 0 <= i < |a.visited| && 0 <= j < |b.visited| ensures a.visited[i] != b.visited[j] {
        assert t.visited[i] != t.visited[|a.visited| + j];
      }
      forall p | p in a.visited ensures p !in seen { assert p in t.visited; }
    }
  }

  lemma ThenAccumulates(acc: Flat, more: Flat, output: string, seen0: set<string>, seen: set<string>)
    requires Accumulated(acc, output, seen0, seen) && Fresh(more, seen)
    ensures Accumulated(Then(acc, Some(more)).value, output + Unlines(more.lines), seen0, seen + Elements(more.visited))
  {
    ThenFresh(acc, more, seen0);
    UnlinesAppend(acc.lines, more.lines);
    assert Elements(acc.visited + more.visited) == Elements(acc.visited) + Elements(more.visited);
  }

  lemma ThenAssociative(a: Flat, b: Flat, c: Option<Flat>)
    ensures Then(a, Then(b, c)) == Then(Then(a, Some(b)).value, c)
  {
    if c.Some? {
      assert a.lines + (b.lines + c.value.lines) == (a.lines + b.lines) + c.value.lines;
      assert a.visited + (b.visited + c.value.visited) == (a.visited + b.visited) + c.value.visited;
    }
  }

  lemma ThenEmpty(a: Flat)
    ensures Then(a, Some(EMPTY)) == Some(a) && Then(EMPTY, Some(a)) == Some(a)
  {
    assert a.lines + [] == a.lines && a.visited + [] == a.visited;
    assert [] + a.lines == a.lines && [] + a.visited == a.visited;
  }

  /** `acc` has been read and `rest` is still to come, out of `total`. */
  ghost predicate Reading(total: Option<Flat>, acc: Flat, rest: Option<Flat>, output: string, seen0: set<string>,
                          seen: set<string>) {
    Accumulated(acc, output, seen0, seen) && total == Then(acc, rest)
  }

  lemma ReadNothing(total: Option<Flat>, seen: set<string>)
    ensures Reading(total, EMPTY, total, "", seen, seen)
  {
    if total.Some? {
      ThenEmpty(total.value);
    }
  }

  lemma ReadPart(total: Option<Flat>, acc: Flat, part: Flat, rest: Option<Flat>, output: string, seen0: set<string>,
                 seen: set<string>)
      returns (acc': Flat)
    requires Reading(total, acc, Then(part, rest), output, seen0, seen) && Fresh(part, seen)
    ensures Reading(total, acc', rest, output + Unlines(part.lines), seen0, seen + Elements(part.visited))
  {
    acc' := Then(acc, Some(part)).value;
    ThenAssociative(acc, part, rest);
    ThenAccumulates(acc, part, output, seen0, seen);
  }

  lemma ReadLine(total: Option<Flat>, acc: Flat, line: string, rest: Option<Flat>, output: string, seen0: set<string>,
                 seen: set<string>)
      returns (acc': Flat)
    requires Reading(total, acc, Then(Flat([line], [], 0), rest), output, seen0, seen)
    ensures Reading(total, acc', rest, output + (line + "\n"), seen0, seen)
  {
    var one := Flat([line], [], 0);
    acc' := ReadPart(total, acc, one, rest, output, seen0, seen);
    assert Unlines(one.lines) == line + "\n" && seen + Elements(one.visited) == seen;
  }

  lemma ReadAll(total: Option<Flat>, acc: Flat, output: string, seen0: set<string>, seen: set<string>)
    requires Reading(total, acc, Some(EMPTY), output, seen0, seen)
    ensures Agrees(Some(output), total, seen0, seen)
  {
    ThenEmpty(acc);
  }

  /** What goes wrong in a part goes wrong in the whole. */
  lemma PartNotFresh(total: Option<Flat>, acc: Flat, part: Flat, rest: Option<Flat>, output: string,
                     seen0: set<string>, seen: set<string>)
    requires Reading(total, acc, Then(part, rest), output, seen0, seen) && !Fresh(part, seen)
    ensures total.None? || !Fresh(total.value, seen0)
  {
    if rest.Some? {
      ThenFresh(acc, Then(part, rest).value, seen0);
      ThenFresh(part, rest.value, seen0 + Elements(acc.visited));
    }
  }

  lemma NestedFresh(w: World, m: string, inner: Flat, seen: set<string>)
    requires w.canonical(m) !in seen
    ensures Fresh(Nested(w, m, inner), seen) <==> Fresh(inner, seen + {w.canonical(m)})
    ensures seen + Elements(Nested(w, m, inner).visited) == seen + {w.canonical(m)} + Elements(inner.visited)
  {
    var one := Flat([], [w.canonical(m)], 0);
    ThenFresh(one, inner, seen);
    assert Elements(one.visited) == {w.canonical(m)};
    assert Then(one, Some(inner)).value.visited == Nested(w, m, inner).visited;
  }

  /**
   `preprocess_includes`.  The result is that of the plain flattening, provided no file is read twice, none of
   `seen` is read, and the nesting stays within bounds; in every other case there is none.
   */
  method PreprocessIncludes(w: World, content: string, base: string, seen: set<string>, depth: nat)
      returns (r: Option<string>, seen': set<string>)
    ensures depth > 16 ==> r.None?
    ensures depth <= 16 ==> Agrees(r, Flatten(w, content, base, 16 - depth), seen, seen')
    decreases MAX_INCLUDE_DEPTH + 1 - depth, 5
  {
    hide Parse, FlattenLines;
    if depth > MAX_INCLUDE_DEPTH {
      return None, seen;
    }
    r, seen' := ReadLines(w, Parse(content), base, seen, depth);
  }

  /** The line loop. */
  method ReadLines(w: World, items: seq<Item>, base: string, seen: set<string>, depth: nat)
      returns (r: Option<string>, seen': set<string>)
    requires depth <= MAX_INCLUDE_DEPTH
    ensures Agrees(r, FlattenLines(w, items, base, false, MAX_INCLUDE_DEPTH - depth), seen, seen')
    decreases MAX_INCLUDE_DEPTH + 1 - depth, 4
  {
    hide FlattenInclude;
    seen' := seen;
    var output := "";
    var inBlock := false;
    var i := 0;
    ghost var acc, fuel := EMPTY, MAX_INCLUDE_DEPTH - depth;
    ghost var total := FlattenLines(w, items, base, false, fuel);
    ReadNothing(total, seen);
    assert items[0..] == items;
    while i < |items|
      invariant 0 <= i <= |items|
      invariant Reading(total, acc, FlattenLines(w, items[i..], base, inBlock, fuel), output, seen, seen')
    {
      var ok: bool;
      assert items[i..][0] == items[i] && items[i..][1..] == items[i + 1..];
      ok, output, inBlock, seen', acc :=
        DoLine(w, items[i], base, inBlock, depth, output, seen', total, acc, items[i..], seen);
      if !ok {
        return None, seen';
      }
      i := i + 1;
    }
    assert items[i..] == [];
    ReadAll(total, acc, output, seen, seen');
    r := Some(output);
  }

  /** The body of the line loop. */
  method DoLine(w: World, item: Item, base: string, inBlock: bool, depth: nat, output: string, seen: set<string>,
                ghost total: Option<Flat>, ghost acc: Flat, ghost items: seq<Item>, ghost seen0: set<string>)
      returns (ok: bool, output': string, inBlock': bool, seen': set<string>, ghost acc': Flat)
    requires depth <= MAX_INCLUDE_DEPTH && items != [] && items[0] == item
    requires Reading(total, acc, FlattenLines(w, items, base, inBlock, MAX_INCLUDE_DEPTH - depth), output, seen0, seen)
    ensures ok ==>
              Reading(total, acc', FlattenLines(w, items[1..], base, inBlock', MAX_INCLUDE_DEPTH - depth),
                      output', seen0, seen')
    ensures !ok ==> total.None? || !Fresh(total.value, seen0)
    decreases MAX_INCLUDE_DEPTH + 1 - depth, 3
  {
    hide FlattenInclude;
    ok, output', inBlock', seen', acc' := true, output, inBlock, seen, acc;
    ghost var fuel := MAX_INCLUDE_DEPTH - depth;
    match item.says {
      case Malformed =>
        ok := false;
      case Include(pattern) =>
        if inBlock {
          ok := false;
          return;
        }
        ghost var inner := FlattenInclude(w, base, pattern, fuel);
        ghost var rest := FlattenLines(w, items[1..], base, inBlock, fuel);
        var merged;
        merged, seen' := IncludeLine(w, base, pattern, seen, depth);
        if merged.None? {
          ok := false;
          if inner.Some? {
            PartNotFresh(total, acc, inner.value, rest, output, seen0, seen);
          }
          return;
        }
        acc' := ReadPart(total, acc, inner.value, rest, output, seen0, seen);
        output' := output + merged.value;
      case Block =>
        acc' := ReadLine(total, acc, item.text, FlattenLines(w, items[1..], base, true, fuel), output, seen0, seen);
        output' := output + (item.text + "\n");
        inBlock' := true;
      case Plain =>
        acc' := ReadLine(total, acc, item.text, FlattenLines(w, items[1..], base, inBlock, fuel), output, seen0, seen);
        output' := output + (item.text + "\n");
    }
  }

  /** One Include line: find the files, and include them. */
  method IncludeLine(w: World, base: string, pattern: string, seen: set<string>, depth: nat)
      returns (r: Option<string>, seen': set<string>)
    requires depth <= MAX_INCLUDE_DEPTH
    ensures Agrees(r, FlattenInclude(w, base, pattern, MAX_INCLUDE_DEPTH - depth), seen, seen')
    decreases MAX_INCLUDE_DEPTH + 1 - depth, 2
  {
    hide Matches, FlattenFile;
    var matched := Matches(w, base, pattern);
    if matched.None? {
      return None, seen;
    }
    r, seen' := IncludeMatched(w, matched.value, seen, depth);
  }

  /** The loop over the files one Include line names. */
  method IncludeMatched(w: World, matched: seq<string>, seen: set<string>, depth: nat)
      returns (r: Option<string>, seen': set<string>)
    requires depth <= MAX_INCLUDE_DEPTH
    ensures Agrees(r, FlattenFiles(w, matched, MAX_INCLUDE_DEPTH - depth), seen, seen')
    decreases MAX_INCLUDE_DEPTH + 1 - depth, 1
  {
    hide FlattenFile;
    seen' := seen;
    var output := "";
    var i := 0;
    ghost var acc, fuel := EMPTY, MAX_INCLUDE_DEPTH - depth;
    ghost var total := FlattenFiles(w, matched, fuel);
    ReadNothing(total, seen);
    assert matched[0..] == matched;
    while i < |matched|
      invariant 0 <= i <= |matched|
      invariant Reading(total, acc, FlattenFiles(w, matched[i..], fuel), output, seen, seen')
    {
      assert matched[i..][1..] == matched[i + 1..];
      ghost var first, rest := FlattenFile(w, matched[i], fuel), FlattenFiles(w, matched[i + 1..], fuel);
      var merged, seenNext := IncludeOne(w, matched[i], seen', depth);
      if merged.None? {
        if first.Some? {
          PartNotFresh(total, acc, first.value, rest, output, seen, seen');
        }
        return None, seenNext;
      }
      acc := ReadPart(total, acc, first.value, rest, output, seen, seen');
      output, seen' := output + merged.value, seenNext;
      i := i + 1;
    }
    assert matched[i..] == [];
    ReadAll(total, acc, output, seen, seen');
    r := Some(output);
  }

  /** The body of that loop: refuse a file already seen, else read it and recurse. */
  method IncludeOne(w: World, m: string, seen: set<string>, depth: nat) returns (r: Option<string>, seen': set<string>)
    requires depth <= MAX_INCLUDE_DEPTH
    ensures Agrees(r, FlattenFile(w, m, MAX_INCLUDE_DEPTH - depth), seen, seen')
    decreases MAX_INCLUDE_DEPTH + 1 - depth, 0
  {
    hide Parse;
    var canonical := w.canonical(m);
    ghost var first := FlattenFile(w, m, MAX_INCLUDE_DEPTH - depth);
    if canonical in seen {
      assert first.Some? ==> first.value.visited[0] == canonical;
      return None, seen;
    }
    if m !in w.files {
      return None, seen + {canonical};
    }
    r, seen' := PreprocessIncludes(w, w.files[m], w.dirOf(m), seen + {canonical}, depth + 1);
    if first.Some? {
      NestedFresh(w, m, Flatten(w, w.files[m], w.dirOf(m), MAX_INCLUDE_DEPTH - depth - 1).value, seen);
    }
  }
}

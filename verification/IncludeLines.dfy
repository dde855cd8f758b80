/** Which lines of an ssh_config text are Include, Host or Match lines, what a text made of them expands to, and which
    files a pattern names. */
module IncludeLines {
  import opened Basics
  import opened Text
  import opened Includes

  // ----- words and space -----

  /** `kw` is `word`, each letter in either case. */
  predicate Spells(kw: string, word: string) {
    |kw| == |word| && forall i :: 0 <= i < |kw| ==> kw[i] == word[i] || SameLetter(kw[i], word[i])
  }

  predicate SameLetter(upper: char, lower: char) {
    'A' <= upper <= 'Z' && 'a' <= lower <= 'z' && upper as int - 'A' as int == lower as int - 'a' as int
  }

  predicate LowerLetters(s: string) {
    forall i :: 0 <= i < |s| ==> 'a' <= s[i] <= 'z'
  }

  lemma LowerIsSame(c: char, l: char)
    requires 'a' <= l <= 'z'
    ensures LowerChar(c) == l <==> c == l || SameLetter(c, l)
  {
  }

  lemma SpellsIff(kw: string, word: string)
    requires LowerLetters(word)
    ensures Lower(kw) == word <==> Spells(kw, word)
  {
    hide LowerChar, SameLetter, Lower;
    if |kw| == |word| {
      forall i | 0 <= i < |kw| ensures Lower(kw)[i] == word[i] <==> kw[i] == word[i] || SameLetter(kw[i], word[i]) {
        LowerIsSame(kw[i], word[i]);
      }
      if Lower(kw) == word {
        assert forall i :: 0 <= i < |kw| ==> Lower(kw)[i] == word[i];
      }
    }
  }

  lemma {:induction false} TrimEndMeans(t: string, ws: string)
    requires AllSpace(ws) && (t == [] || !IsWhitespace(t[|t| - 1]))
    ensures TrimEnd(t + ws) == t
    decreases |ws|
  {
    hide IsWhitespace;
    if ws == [] {
      assert t + ws == t;
    } else {
      assert (t + ws)[..|t + ws| - 1] == t + ws[..|ws| - 1];
      TrimEndMeans(t, ws[..|ws| - 1]);
    }
  }

  /** Trimming takes away the space at both ends, and nothing else. */
  lemma TrimMeans(before: string, t: string, after: string)
    requires AllSpace(before) && AllSpace(after)
    requires t != [] ==> !IsWhitespace(t[0]) && !IsWhitespace(t[|t| - 1])
    ensures Trim(before + t + after) == t
  {
    hide IsWhitespace, TrimStart, TrimEnd;
    Joined(before, t, after);
    if t == [] {
      assert before + t + after == (before + after) + [];
      TrimStartMeans(before + after, []);
      TrimEndMeans([], []);
      assert [] + [] == t;
    } else {
      TrimStartMeans(before, t + after);
      TrimEndMeans(t, after);
    }
  }

  lemma WordIs(kw: string, rest: string)
    requires NoSpace(kw) && (rest == [] || IsWhitespace(rest[0]))
    ensures FirstWhitespace(kw + rest) == |kw| && (kw + rest)[..|kw|] == kw
  {
    hide IsWhitespace;
    var s := kw + rest;
    assert forall i :: 0 <= i < |kw| ==> s[i] == kw[i];
    assert rest != [] ==> s[|kw|] == rest[0];
  }

  /** The white space of ASCII. */
  lemma AsciiSpace(c: char)
    requires c as int < 0x80
    ensures IsWhitespace(c) <==> c in {' ', '\t', '\n', '\r', '\U{000b}', '\U{000c}'}
  {
  }

  // ----- what a line says -----

  /** A line with a keyword and a value: it is an Include line exactly when the keyword is "include" in any case, and
      begins a block exactly when it is "host" or "match" in any case. */
  lemma LineMeans(ws: string, kw: string, c: char, v: string)
    requires AllSpace(ws) && NoSpace(kw) && kw != [] && kw[0] != '#' && IsWhitespace(c)
    ensures Classify(ws + kw + [c] + v) ==
              if Spells(kw, "include") then (if Trim(v) == [] then Malformed else Include(Trim(v)))
              else if Spells(kw, "host") || Spells(kw, "match") then Block
              else Plain
  {
    hide ClassifyTrimmed, TrimStart, Trim, IsWhitespace, Spells;
    Joined(ws, kw, [c] + v);
    Joined(ws + kw, [c], v);
    TrimStartMeans(ws, kw + ([c] + v));
    assert (kw + ([c] + v))[0] == kw[0];
    TrimmedMeans(kw, c, v);
  }

  lemma TrimmedMeans(kw: string, c: char, v: string)
    requires NoSpace(kw) && kw != [] && kw[0] != '#' && IsWhitespace(c)
    ensures ClassifyTrimmed(kw + ([c] + v)) ==
              if Spells(kw, "include") then (if Trim(v) == [] then Malformed else Include(Trim(v)))
              else if Spells(kw, "host") || Spells(kw, "match") then Block
              else Plain
  {
    hide Spells, Lower, Trim, FirstWhitespace, IsWhitespace;
    var t := kw + ([c] + v);
    WordIs(kw, [c] + v);
    assert t[|kw| + 1..] == v && t[0] == kw[0];
    SpellsIff(kw, "include");
    SpellsIff(kw, "host");
    SpellsIff(kw, "match");
    OneKeyword(kw);
  }

  lemma OneKeyword(kw: string)
    ensures !(Spells(kw, "include") && (Spells(kw, "host") || Spells(kw, "match")))
  {
  }

  /** A keyword alone passes through, unless it is "include". */
  lemma BareLineMeans(ws: string, kw: string)
    requires AllSpace(ws) && NoSpace(kw) && kw != [] && kw[0] != '#'
    ensures Classify(ws + kw) == if Spells(kw, "include") then Malformed else Plain
  {
    hide ClassifyTrimmed, TrimStart, IsWhitespace, Spells;
    TrimStartMeans(ws, kw);
    TrimmedBare(kw);
  }

  lemma TrimmedBare(kw: string)
    requires NoSpace(kw) && kw != [] && kw[0] != '#'
    ensures ClassifyTrimmed(kw) == if Spells(kw, "include") then Malformed else Plain
  {
    hide Spells, Lower, FirstWhitespace, IsWhitespace;
    WordIs(kw, []);
    assert kw + [] == kw;
    SpellsIff(kw, "include");
  }

  /** Blank lines and comments pass through. */
  lemma IdleLineMeans(ws: string, comment: string)
    requires AllSpace(ws)
    ensures Classify(ws) == Plain && Classify(ws + "#" + comment) == Plain
  {
    Joined(ws, "#", comment);
    TrimStartMeans(ws, []);
    assert ws + [] == ws;
    HashIsNoSpace();
    TrimStartMeans(ws, "#" + comment);
    hide TrimStart, IsWhitespace;
  }

  lemma HashIsNoSpace()
    ensures !IsWhitespace('#')
  {
  }

  // ----- what a text says -----

  /** The first line of a text, and the rest. */
  lemma TextMeans(line: string, end: string, rest: string)
    requires IsLine(line) && IsLineEnd(end)
    ensures Parse(line + end + rest) == [Item(line, Classify(line))] + Parse(rest)
  {
    hide Classify, IsLine, IsLineEnd, Lines;
    FirstLine(line, end, rest);
    assert ([line] + Lines(rest))[1..] == Lines(rest);
  }

  lemma FirstItem(w: World, item: Item, items: seq<Item>, base: string, inBlock: bool, fuel: nat)
    ensures FlattenLines(w, [item] + items, base, inBlock, fuel) ==
              match item.says
              case Plain => Then(Flat([item.text], [], 0), FlattenLines(w, items, base, inBlock, fuel))
              case Block => Then(Flat([item.text], [], 0), FlattenLines(w, items, base, true, fuel))
              case Malformed => None
              case Include(pattern) =>
                if inBlock || FlattenInclude(w, base, pattern, fuel).None? then None
                else Then(FlattenInclude(w, base, pattern, fuel).value, FlattenLines(w, items, base, inBlock, fuel))
  {
    hide FlattenInclude;
    assert ([item] + items)[1..] == items;
  }

  /** What a text is to expand to that begins with the line `line` of keyword `kw` and value `v`: the files included
      come in its place, an empty pattern is an error, Host and Match begin a block, any other line passes through. */
  ghost function Expanded(w: World, kw: string, v: string, line: string, rest: string, base: string, fuel: nat)
      : Option<Flat> {
    var behind := Flatten(w, rest, base, fuel);
    if Spells(kw, "include") then
      if Trim(v) == [] || FlattenInclude(w, base, Trim(v), fuel).None? then None
      else Then(FlattenInclude(w, base, Trim(v), fuel).value, behind)
    else if Spells(kw, "host") || Spells(kw, "match")
    then Then(Flat([line], [], 0), FlattenLines(w, Parse(rest), base, true, fuel))
    else Then(Flat([line], [], 0), behind)
  }

  lemma TextExpands(w: World, ws: string, kw: string, c: char, v: string, end: string, rest: string, base: string,
                    fuel: nat)
    requires AllSpace(ws) && NoSpace(kw) && kw != [] && kw[0] != '#' && IsWhitespace(c)
    requires IsLine(ws + kw + [c] + v) && IsLineEnd(end)
    ensures var line := ws + kw + [c] + v;
            Flatten(w, line + end + rest, base, fuel) == Expanded(w, kw, v, line, rest, base, fuel)
  {
    var line := ws + kw + [c] + v;
    LineMeans(ws, kw, c, v);
    TextMeans(line, end, rest);
    FirstItem(w, Item(line, Classify(line)), Parse(rest), base, false, fuel);
    hide Classify, Parse, Spells, FlattenInclude, FlattenLines, IsWhitespace, Trim, IsLine, IsLineEnd;
  }

  /** Behind a Host or Match line an Include line is an error. */
  lemma {:induction false} NoIncludeInBlock(w: World, items: seq<Item>, base: string, fuel: nat)
    requires exists i :: 0 <= i < |items| && items[i].says.Include?
    ensures FlattenLines(w, items, base, true, fuel).None?
    decreases |items|
  {
    var i :| 0 <= i < |items| && items[i].says.Include?;
    if i > 0 {
      assert items[1..][i - 1].says.Include?;
      NoIncludeInBlock(w, items[1..], base, fuel);
    }
  }

  lemma IncludeBehindBlockFails(w: World, kw: string, v: string, kw2: string, v2: string, base: string, fuel: nat)
    requires (Spells(kw, "host") || Spells(kw, "match")) && Spells(kw2, "include")
    requires IsLine(kw + " " + v) && IsLine(kw2 + " " + v2)
    ensures Flatten(w, kw + " " + v + "\n" + (kw2 + " " + v2 + "\n"), base, fuel).None?
  {
    hide Classify, Spells, IsLine, IsWhitespace, FlattenInclude, FlattenLines, Parse, Trim, NoSpace, AllSpace;
    KeywordHasNoSpace(kw);
    KeywordHasNoSpace(kw2);
    NothingIsSpace();
    var line, line2 := kw + " " + v, kw2 + " " + v2;
    assert [] + kw + " " + v == line && [] + kw2 + " " + v2 == line2;
    TextExpands(w, [], kw, ' ', v, "\n", line2 + "\n", base, fuel);
    LineMeans([], kw2, ' ', v2);
    assert line2 + "\n" + [] == line2 + "\n";
    TextMeans(line2, "\n", []);
    OneKeyword(kw);
    FirstItem(w, Item(line2, Classify(line2)), Parse([]), base, true, fuel);
  }

  lemma NothingIsSpace()
    ensures AllSpace([])
  {
  }

  lemma KeywordHasNoSpace(kw: string)
    requires Spells(kw, "include") || Spells(kw, "host") || Spells(kw, "match")
    ensures NoSpace(kw) && kw != [] && kw[0] != '#' && IsWhitespace(' ')
  {
    forall i | 0 <= i < |kw| ensures !IsWhitespace(kw[i]) && kw[i] != '#' {
      LetterIsNoSpace(kw[i]);
    }
  }

  lemma LetterIsNoSpace(c: char)
    ensures 'a' <= c <= 'z' || 'A' <= c <= 'Z' ==> !IsWhitespace(c) && c != '#'
  {
  }

  // ----- which files a pattern names -----

  lemma {:induction false} NoTokens(w: World, p: string)
    requires '%' !in p
    ensures ExpandTokens(w, p) == p
    decreases |p|
  {
    if p != [] {
      assert p[0] in p;
      assert FirstToken(w, p) == ([p[0]], 1);
      assert '%' !in p[1..];
      NoTokens(w, p[1..]);
    }
  }

  lemma {:induction false} SlashesTrimmed(slashes: string, rest: string)
    requires (forall i :: 0 <= i < |slashes| ==> slashes[i] == '/') && (rest == [] || rest[0] != '/')
    ensures TrimLeadingSlashes(slashes + rest) == rest
    decreases |slashes|
  {
    if slashes == [] {
      assert slashes + rest == rest;
    } else {
      assert (slashes + rest)[1..] == slashes[1..] + rest;
      SlashesTrimmed(slashes[1..], rest);
    }
  }

  /** An absolute pattern stands for itself. */
  lemma AbsolutePattern(w: World, base: string, p: string)
    requires '%' !in p && p != [] && p[0] == '/'
    ensures PatternPath(w, base, p) == p
  {
    NoTokens(w, p);
  }

  /** Any other, unless it begins with a tilde, is relative to the directory of the file it stands in. */
  lemma RelativePattern(w: World, base: string, p: string)
    requires '%' !in p && p != [] && p[0] != '/' && p[0] != '~'
    ensures PatternPath(w, base, p) == if base == [] || base[|base| - 1] == '/' then base + p else base + "/" + p
  {
    NoTokens(w, p);
  }

  /** A tilde is the home directory, or the working directory without one, whatever slashes follow it. */
  lemma HomePattern(w: World, base: string, slashes: string, rest: string)
    requires '%' !in slashes + rest && (forall i :: 0 <= i < |slashes| ==> slashes[i] == '/')
    requires rest == [] || rest[0] != '/'
    ensures var home := if w.home.Some? then w.home.value else ".";
            PatternPath(w, base, "~" + (slashes + rest)) ==
              if rest == [] then home
              else if home == [] || home[|home| - 1] == '/' then home + rest
              else home + "/" + rest
  {
    var p := "~" + (slashes + rest);
    assert '%' !in p by {
      forall i | 0 <= i < |p| ensures p[i] != '%' {
        assert i > 0 ==> p[i] == (slashes + rest)[i - 1] && p[i] in slashes + rest;
      }
    }
    NoTokens(w, p);
    assert p[1..] == slashes + rest;
    SlashesTrimmed(slashes, rest);
  }

  /** A path without `*`, `?` and `[` names the one file; with one of them it names what the glob finds, which must be
      something. */
  lemma MatchesMeans(w: World, base: string, pattern: string)
    ensures var path := PatternPath(w, base, pattern);
            Matches(w, base, pattern) ==
              if '*' in path || '?' in path || '[' in path
              then (if w.glob(path) == Some([]) then None else w.glob(path))
              else Some([path])
  {
    hide PatternPath;
    var path := PatternPath(w, base, pattern);
    assert HasMeta(path) <==> '*' in path || '?' in path || '[' in path;
  }

  // ----- one text, from the keyword to the file -----

  /** The expander on a text that begins with a keyword line, of any keyword and with anything behind it. */
  method ExpandFirstLine(w: World, ws: string, kw: string, c: char, v: string, end: string, rest: string, base: string)
      returns (r: Option<string>, seen: set<string>)
    requires AllSpace(ws) && NoSpace(kw) && kw != [] && kw[0] != '#' && IsWhitespace(c)
    requires IsLine(ws + kw + [c] + v) && IsLineEnd(end)
    ensures Agrees(r, Expanded(w, kw, v, ws + kw + [c] + v, rest, base, 16), {}, seen)
  {
    hide Expanded, Flatten, IsWhitespace, IsLine, IsLineEnd, Agrees;
    TextExpands(w, ws, kw, c, v, end, rest, base, 16);
    r, seen := PreprocessIncludes(w, ws + kw + [c] + v + end + rest, base, {}, 0);
  }

  /** The expander on a text of one Include line, in any spelling, that names one file of plain lines: the file's lines
      come out, each ended by a line feed. */
  method ExpandOneInclude(w: World, ws: string, kw: string, c: char, v: string, base: string, path: string)
      returns (r: Option<string>)
    requires AllSpace(ws) && Spells(kw, "include") && IsWhitespace(c) && IsLine(ws + kw + [c] + v) && Trim(v) != []
    requires PatternPath(w, base, Trim(v)) == path && !HasMeta(path) && path in w.files
    requires forall item :: item in Parse(w.files[path]) ==> item.says.Plain?
    ensures r == Some(Unlines(Lines(w.files[path])))
  {
    hide Parse, PatternPath, Flatten, FlattenInclude, HasMeta, Trim, Spells, IsLine, IsWhitespace, Lines, AllSpace;
    KeywordHasNoSpace(kw);
    OneFileFlattens(w, base, Trim(v), path);
    var seen;
    r, seen := ExpandFirstLine(w, ws, kw, c, v, "\n", [], base);
  }

  lemma OneFileFlattens(w: World, base: string, pattern: string, path: string)
    requires PatternPath(w, base, pattern) == path && !HasMeta(path) && path in w.files
    requires forall item :: item in Parse(w.files[path]) ==> item.says.Plain?
    ensures var f := Flat(Lines(w.files[path]), [w.canonical(path)], 1);
            FlattenInclude(w, base, pattern, MAX_INCLUDE_DEPTH) == Some(f) && Fresh(f, {}) &&
            Then(f, Flatten(w, [], base, MAX_INCLUDE_DEPTH)) == Some(f)
  {
    hide Parse, PatternPath, FlattenFile, Flatten, HasMeta;
    PlainFile(w, path);
    var f := Flat(Lines(w.files[path]), [w.canonical(path)], 1);
    ThenEmpty(f);
    assert Matches(w, base, pattern) == Some([path]);
    assert [path][1..] == [];
    assert FlattenFiles(w, [], MAX_INCLUDE_DEPTH) == Some(EMPTY);
    NothingFlattens(w, base);
  }

  lemma PlainFile(w: World, path: string)
    requires path in w.files && forall item :: item in Parse(w.files[path]) ==> item.says.Plain?
    ensures FlattenFile(w, path, MAX_INCLUDE_DEPTH) == Some(Flat(Lines(w.files[path]), [w.canonical(path)], 1))
  {
    hide Parse, FlattenLines;
    PlainLines(w, Parse(w.files[path]), w.dirOf(path), MAX_INCLUDE_DEPTH - 1);
    TextsOfParse(w.files[path]);
    var none: seq<string> := [];
    assert [w.canonical(path)] + none == [w.canonical(path)];
  }

  lemma NothingFlattens(w: World, base: string)
    ensures Flatten(w, [], base, MAX_INCLUDE_DEPTH) == Some(EMPTY)
  {
  }

  function Texts(items: seq<Item>): seq<string> {
    if items == [] then [] else [items[0].text] + Texts(items[1..])
  }

  lemma {:induction false} PlainLines(w: World, items: seq<Item>, base: string, fuel: nat)
    requires forall item :: item in items ==> item.says.Plain?
    ensures FlattenLines(w, items, base, false, fuel) == Some(Flat(Texts(items), [], 0))
    decreases |items|
  {
    if items != [] {
      assert items[0] in items;
      PlainLines(w, items[1..], base, fuel);
      var none: seq<string> := [];
      assert none + none == none;
    }
  }

  lemma TextsOfParse(content: string)
    ensures Texts(Parse(content)) == Lines(content)
  {
    TextsOfItems(Lines(content));
  }

  lemma {:induction false} TextsOfItems(lines: seq<string>)
    ensures Texts(Items(lines)) == lines
  {
    hide Classify;
    if lines != [] {
      TextsOfItems(lines[1..]);
    }
  }
}

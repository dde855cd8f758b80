/** The string operations of the standard library that the parsers use. */
module Text {
  import opened Basics

  /** Unicode White_Space. */
  predicate IsWhitespace(c: char) {
    '\U{0009}' <= c <= '\U{000d}' || c == '\U{0020}' || c == '\U{0085}' || c == '\U{00a0}' || c == '\U{1680}' ||
    '\U{2000}' <= c <= '\U{200a}' || c == '\U{2028}' || c == '\U{2029}' || c == '\U{202f}' || c == '\U{205f}' ||
    c == '\U{3000}'
  }

  const WHITE_SPACE := {
    9, 10, 11, 12, 13, 32, 133, 160, 5760, 8192, 8193, 8194, 8195, 8196, 8197, 8198, 8199, 8200, 8201, 8202, 8232,
    8233, 8239, 8287, 12288
  }

  /** White_Space has 25 characters. */
  lemma WhiteSpaceIs(c: char)
    ensures IsWhitespace(c) <==> c as int in WHITE_SPACE
  {
  }

  predicate AllSpace(s: string) {
    forall i :: 0 <= i < |s| ==> IsWhitespace(s[i])
  }

  predicate NoSpace(s: string) {
    forall i :: 0 <= i < |s| ==> !IsWhitespace(s[i])
  }

  /** `trim_start` */
  function TrimStart(s: string): (t: string)
    ensures |t| <= |s| && t == s[|s| - |t|..] && (t != [] ==> !IsWhitespace(t[0]))
  {
    if s != [] && IsWhitespace(s[0]) then TrimStart(s[1..]) else s
  }

  lemma {:induction false} TrimStartMeans(ws: string, t: string)
    requires AllSpace(ws) && (t == [] || !IsWhitespace(t[0]))
    ensures TrimStart(ws + t) == t
    decreases |ws|
  {
    hide IsWhitespace;
    if ws == [] {
      assert ws + t == t;
    } else {
      assert (ws + t)[1..] == ws[1..] + t;
      TrimStartMeans(ws[1..], t);
    }
  }

  /** `trim_end` */
  function TrimEnd(s: string): (t: string)
    ensures |t| <= |s| && t == s[..|t|] && (t != [] ==> !IsWhitespace(t[|t| - 1]))
  {
    if s != [] && IsWhitespace(s[|s| - 1]) then TrimEnd(s[..|s| - 1]) else s
  }

  function Trim(s: string): string {
    TrimEnd(TrimStart(s))
  }

  /** The index of the first whitespace character, or the length. */
  function FirstWhitespace(s: string): (i: nat)
    ensures i <= |s| && (i < |s| ==> IsWhitespace(s[i])) && forall j :: 0 <= j < i ==> !IsWhitespace(s[j])
  {
    if s == [] || IsWhitespace(s[0]) then 0 else 1 + FirstWhitespace(s[1..])
  }

  /** The index of the first `c`, or the length. */
  function Find(s: string, c: char): (i: nat)
    ensures i <= |s| && (i < |s| ==> s[i] == c) && forall j :: 0 <= j < i ==> s[j] != c
  {
    if s == [] || s[0] == c then 0 else 1 + Find(s[1..], c)
  }

  lemma FindUnique(s: string, c: char, i: nat)
    requires i <= |s| && (i < |s| ==> s[i] == c) && forall j :: 0 <= j < i ==> s[j] != c
    ensures Find(s, c) == i
  {
  }

  function LowerChar(c: char): char {
    if 'A' <= c <= 'Z' then 'a' + (c - 'A') else c
  }

  /** `to_ascii_lowercase` */
  function Lower(s: string): (t: string)
    ensures |t| == |s| && forall i :: 0 <= i < |s| ==> t[i] == LowerChar(s[i])
  {
    if s == [] then [] else [LowerChar(s[0])] + Lower(s[1..])
  }

  // ----- lines -----

  function StripCr(s: string): string {
    if s != [] && s[|s| - 1] == '\r' then s[..|s| - 1] else s
  }

  /** `lines`: each line feed ends a line, with a carriage return before it; the text after the last one, if any, is a
      line as it is. */
  function Lines(s: string): seq<string>
    decreases |s|
  {
    if s == [] then []
    else
      var i := Find(s, '\n');
      if i == |s| then [s] else [StripCr(s[..i])] + Lines(s[i + 1..])
  }

  predicate OneLine(s: string) {
    '\n' !in s
  }

  /** One line, which no carriage return ends. */
  predicate IsLine(s: string) {
    OneLine(s) && (s == [] || s[|s| - 1] != '\r')
  }

  predicate IsLineEnd(end: string) {
    end == "\n" || end == "\r\n"
  }

  /** A line ends with a line feed, or a carriage return and a line feed, and comes out without. */
  lemma FirstLine(line: string, end: string, rest: string)
    requires IsLine(line) && IsLineEnd(end)
    ensures Lines(line + end + rest) == [line] + Lines(rest)
  {
    hide Lines;
    if end == "\n" {
      Joined(line, "\n", rest);
      LineCut(line, rest);
    } else {
      assert end == "\r" + "\n";
      Joined(line, "\r", "\n");
      Joined(line + "\r", "\n", rest);
      LineCut(line + "\r", rest);
      assert (line + "\r")[..|line|] == line;
    }
  }

  lemma LineCut(front: string, rest: string)
    requires OneLine(front)
    ensures Lines(front + ("\n" + rest)) == [StripCr(front)] + Lines(rest)
  {
    hide StripCr, Find;
    var s := front + ("\n" + rest);
    forall j | 0 <= j < |front| ensures s[j] != '\n' {
      assert front[j] in front;
    }
    FindUnique(s, '\n', |front|);
    assert s[..|front|] == front && s[|front| + 1..] == rest;
  }

  /** What no line feed ends is a line as it is. */
  lemma LastLine(line: string)
    requires OneLine(line) && line != []
    ensures Lines(line) == [line]
  {
    assert forall j :: 0 <= j < |line| ==> line[j] in line;
    FindUnique(line, '\n', |line|);
  }

  /** Every line followed by a line feed. */
  function Unlines(ls: seq<string>): string {
    if ls == [] then [] else ls[0] + "\n" + Unlines(ls[1..])
  }

  function StripAll(ls: seq<string>): seq<string> {
    if ls == [] then [] else [StripCr(ls[0])] + StripAll(ls[1..])
  }

  lemma {:induction false} UnlinesAppend(a: seq<string>, b: seq<string>)
    ensures Unlines(a + b) == Unlines(a) + Unlines(b)
  {
    if a == [] {
      assert a + b == b;
    } else {
      assert (a + b)[1..] == a[1..] + b;
      UnlinesAppend(a[1..], b);
    }
  }

  /** Splitting what was joined gives the lines back, without their final carriage returns. */
  lemma {:induction false} LinesOfUnlines(ls: seq<string>)
    requires forall l :: l in ls ==> OneLine(l)
    ensures Lines(Unlines(ls)) == StripAll(ls)
  {
    if ls == [] {
    } else {
      var s := Unlines(ls);
      assert OneLine(ls[0]);
      assert s == ls[0] + ("\n" + Unlines(ls[1..]));
      FindUnique(s, '\n', |ls[0]|);
      assert s[..|ls[0]|] == ls[0] && s[|ls[0]| + 1..] == Unlines(ls[1..]);
      LinesOfUnlines(ls[1..]);
    }
  }

  lemma {:induction false} LinesAreSingle(s: string)
    ensures forall l :: l in Lines(s) ==> OneLine(l)
    decreases |s|
  {
    if s == [] {
    } else {
      var i := Find(s, '\n');
      if i < |s| {
        LinesAreSingle(s[i + 1..]);
        forall c | c in StripCr(s[..i]) ensures c != '\n' {
          var j :| 0 <= j < i && s[j] == c;
        }
      } else {
        forall c | c in s ensures c != '\n' {
          var j :| 0 <= j < |s| && s[j] == c;
        }
      }
    }
  }
}

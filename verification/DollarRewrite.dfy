/**
 `rewrite_dollar_refs_for_cmd` of src/main.rs: `$NAME` becomes `%NAME%` for the declared names.  The code works on
 the bytes of the command and pushes each as a character; a string of bytes is written here as a string of the
 characters with those codes.
 */
module DollarRewrite {
  import opened Basics
  import opened Text

  predicate IsIdentStart(c: char) {
    'a' <= c <= 'z' || 'A' <= c <= 'Z' || c == '_'
  }

  predicate IsIdentCont(c: char) {
    IsIdentStart(c) || '0' <= c <= '9'
  }

  const LOWER := "abcdefghijklmnopqrstuvwxyz"
  const UPPER := "ABCDEFGHIJKLMNOPQRSTUVWXYZ"
  const DIGITS := "0123456789"

  /** A name begins with a letter or an underscore, and goes on with those and digits. */
  lemma NameCharacters(c: char)
    ensures IsIdentStart(c) <==> c in LOWER || c in UPPER || c == '_'
    ensures IsIdentCont(c) <==> c in LOWER || c in UPPER || c == '_' || c in DIGITS
  {
    hide LOWER, UPPER, DIGITS;
    forall i | 0 <= i < 26 ensures |LOWER| == 26 && LOWER[i] as int == 'a' as int + i {
      LowerAt(i);
    }
    forall i | 0 <= i < 26 ensures |UPPER| == 26 && UPPER[i] as int == 'A' as int + i {
      UpperAt(i);
    }
    forall i | 0 <= i < 10 ensures |DIGITS| == 10 && DIGITS[i] as int == '0' as int + i {
      DigitAt(i);
    }
    LowerAt(0);
    UpperAt(0);
    DigitAt(0);
    InRun(c, LOWER, 'a', 26);
    InRun(c, UPPER, 'A', 26);
    InRun(c, DIGITS, '0', 10);
  }

  lemma LowerAt(i: nat)
    requires i < 26
    ensures |LOWER| == 26 && LOWER[i] as int == 'a' as int + i
  {
  }

  lemma UpperAt(i: nat)
    requires i < 26
    ensures |UPPER| == 26 && UPPER[i] as int == 'A' as int + i
  {
  }

  lemma DigitAt(i: nat)
    requires i < 10
    ensures |DIGITS| == 10 && DIGITS[i] as int == '0' as int + i
  {
  }

  lemma InRun(c: char, s: string, first: char, n: nat)
    requires |s| == n && forall i :: 0 <= i < n ==> s[i] as int == first as int + i
    ensures c in s <==> first as int <= c as int < first as int + n
  {
    if first as int <= c as int < first as int + n {
      assert s[c as int - first as int] == c;
    }
  }

  /** The length of the identifier a text begins with. */
  function IdentLength(s: string): (n: nat)
    ensures n <= |s| && (n < |s| ==> !IsIdentCont(s[n])) && forall i :: 0 <= i < n ==> IsIdentCont(s[i])
  {
    if s == [] || !IsIdentCont(s[0]) then 0 else 1 + IdentLength(s[1..])
  }

  /** The name a text refers to, when it begins with a reference. */
  function RefAt(s: string): Option<string> {
    if |s| > 1 && s[0] == '$' && IsIdentStart(s[1]) then Some(s[1..1 + IdentLength(s[1..])]) else None
  }

  function Rewrite(s: string, names: seq<string>): string
    decreases |s|
  {
    if s == [] then []
    else
      var name := RefAt(s);
      if name.Some? && name.value in names
      then "%" + name.value + "%" + Rewrite(s[1 + |name.value|..], names)
      else [s[0]] + Rewrite(s[1..], names)
  }

  // ----- UTF-8, as byte characters -----

  function ByteChar(n: nat): (c: char)
    requires n < 256
    ensures c as int == n
  {
    n as char
  }

  function Utf8Char(c: char): (b: string)
    ensures |b| >= 1 && (c as int < 0x80 <==> |b| == 1) && (c as int < 0x80 ==> b == [c])
    ensures c as int >= 0x80 ==> forall i :: 0 <= i < |b| ==> b[i] as int >= 0x80
  {
    var n := c as int;
    if n < 0x80 then [c]
    else if n < 0x800 then [ByteChar(0xC0 + n / 64), ByteChar(0x80 + n % 64)]
    else if n < 0x1_0000 then [ByteChar(0xE0 + n / 4096), ByteChar(0x80 + n / 64 % 64), ByteChar(0x80 + n % 64)]
    else
      [ByteChar(0xF0 + n / 0x4_0000), ByteChar(0x80 + n / 4096 % 64),
       ByteChar(0x80 + n / 64 % 64), ByteChar(0x80 + n % 64)]
  }

  /** The code of a character is in its bytes, six bits in each but the first; it takes no more of them than needed. */
  lemma Utf8CharMeans(c: char)
    ensures var b := Utf8Char(c);
            && |b| <= 4 && (forall i :: 1 <= i < |b| ==> 0x80 <= b[i] as int < 0xC0)
            && (|b| == 1 ==> c == b[0] && c as int < 0x80)
            && (|b| == 2 ==> 0xC0 <= b[0] as int < 0xE0) && (|b| == 3 ==> 0xE0 <= b[0] as int < 0xF0)
            && (|b| == 4 ==> 0xF0 <= b[0] as int < 0xF8)
            && (|b| == 2 ==> c as int == (b[0] as int - 0xC0) * 64 + (b[1] as int - 0x80) >= 0x80)
            && (|b| == 3 ==> c as int == ((b[0] as int - 0xE0) * 64 + (b[1] as int - 0x80)) * 64 + (b[2] as int - 0x80)
                             >= 0x800)
            && (|b| == 4 ==> c as int == (((b[0] as int - 0xF0) * 64 + (b[1] as int - 0x80)) * 64
                             + (b[2] as int - 0x80)) * 64 + (b[3] as int - 0x80) >= 0x1_0000)
  {
    var n := c as int;
    var q1, q2 := n / 64, n / 4096;
    assert q2 == q1 / 64 && n / 0x4_0000 == q2 / 64;
    assert n == q1 * 64 + n % 64 && q1 == q2 * 64 + q1 % 64 && q2 == n / 0x4_0000 * 64 + q2 % 64;
  }

  /** `as_bytes` */
  function Utf8(s: string): string {
    if s == [] then [] else Utf8Char(s[0]) + Utf8(s[1..])
  }

  predicate IsAscii(s: string) {
    forall i :: 0 <= i < |s| ==> s[i] as int < 0x80
  }

  /** Bytes and characters coincide exactly for ASCII text. */
  lemma {:induction false} AsciiBytes(s: string)
    ensures |Utf8(s)| >= |s| && (Utf8(s) == s <==> IsAscii(s)) && (|Utf8(s)| == |s| ==> IsAscii(s))
  {
    hide Utf8Char;
    if s != [] {
      AsciiBytes(s[1..]);
      assert IsAscii(s) <==> s[0] as int < 0x80 && IsAscii(s[1..]) by {
        assert forall i :: 0 < i < |s| ==> s[i] == s[1..][i - 1];
        if IsAscii(s) {
          forall i | 0 <= i < |s[1..]| ensures s[1..][i] as int < 0x80 { assert s[1..][i] == s[i + 1]; }
        }
      }
      if IsAscii(s) {
        assert Utf8(s) == [s[0]] + s[1..];
      }
    }
  }

  /** The inner loop: past the identifier. */
  method ReadIdent(bytes: string, start: nat) returns (end: nat)
    requires start <= |bytes|
    ensures end == start + IdentLength(bytes[start..])
  {
    end := start;
    while end < |bytes| && IsIdentCont(bytes[end])
      invariant start <= end <= |bytes|
      invariant IdentLength(bytes[start..]) == end - start + IdentLength(bytes[end..])
    {
      assert bytes[end..][1..] == bytes[end + 1..];
      end := end + 1;
    }
  }

  /** `out` is what becomes of the first `i` bytes. */
  ghost predicate Rewritten(bytes: string, names: seq<string>, out: string, i: nat) {
    i <= |bytes| && Rewrite(bytes, names) == out + Rewrite(bytes[i..], names)
  }

  /** A reference begins at `i`. */
  predicate RefersAt(bytes: string, i: nat) {
    i + 1 < |bytes| && bytes[i] == '$' && IsIdentStart(bytes[i + 1])
  }

  lemma RefOf(t: string)
    ensures RefAt("$" + t) == if t != [] && IsIdentStart(t[0]) then Some(t[..IdentLength(t)]) else None
  {
    hide IdentLength;
    var s, n := "$" + t, IdentLength(t);
    assert s[1..] == t && s[1..1 + n] == t[..n];
  }

  lemma RefHere(bytes: string, i: nat)
    requires i < |bytes|
    ensures RefAt(bytes[i..]) ==
              if RefersAt(bytes, i) then Some(bytes[i + 1..i + 1 + IdentLength(bytes[i + 1..])]) else None
  {
    hide IdentLength;
    var t := bytes[i + 1..];
    if bytes[i] == '$' {
      assert bytes[i..] == "$" + t;
      RefOf(t);
      assert t[..IdentLength(t)] == bytes[i + 1..i + 1 + IdentLength(t)];
    }
  }

  lemma RefStep(bytes: string, names: seq<string>, out: string, i: nat, end: nat)
    requires Rewritten(bytes, names, out, i) && RefersAt(bytes, i)
    requires end == i + 1 + IdentLength(bytes[i + 1..]) && bytes[i + 1..end] in names
    ensures Rewritten(bytes, names, out + "%" + bytes[i + 1..end] + "%", end)
  {
    hide IdentLength, RefAt;
    RefHere(bytes, i);
    var name, rest := bytes[i + 1..end], Rewrite(bytes[end..], names);
    assert bytes[i..][1 + |name|..] == bytes[end..];
    Joined(out, "%" + name + "%", rest);
    Joined("%", name, "%");
    Joined(out, "%", name + "%");
    Joined(out + "%", name, "%");
  }

  lemma CharStep(bytes: string, names: seq<string>, out: string, i: nat)
    requires i < |bytes| && Rewritten(bytes, names, out, i)
    requires RefersAt(bytes, i) ==> bytes[i + 1..i + 1 + IdentLength(bytes[i + 1..])] !in names
    ensures Rewritten(bytes, names, out + [bytes[i]], i + 1)
  {
    hide IdentLength, RefAt;
    RefHere(bytes, i);
    assert bytes[i..][1..] == bytes[i + 1..];
    Joined(out, [bytes[i]], Rewrite(bytes[i + 1..], names));
  }

  /** `rewrite_dollar_refs_for_cmd` */
  method RewriteDollarRefs(cmd: string, names: seq<string>) returns (out: string)
    ensures out == if names == [] then cmd else Rewrite(Utf8(cmd), names)
  {
    if names == [] {
      return cmd;
    }
    out := RewriteLoop(Utf8(cmd), names);
  }

  method RewriteLoop(bytes: string, names: seq<string>) returns (out: string)
    ensures out == Rewrite(bytes, names)
  {
    out := [];
    var i := 0;
    assert bytes[0..] == bytes;
    while i < |bytes|
      invariant 0 <= i <= |bytes|
      invariant Rewritten(bytes, names, out, i)
    {
      hide Rewritten, IdentLength;
      if bytes[i] == '$' && i + 1 < |bytes| && IsIdentStart(bytes[i + 1]) {
        var end := ReadIdent(bytes, i + 1);
        var name := bytes[i + 1..end];
        if name in names {
          RefStep(bytes, names, out, i, end);
          out := out + "%" + name + "%";
          i := end;
          continue;
        }
      }
      CharStep(bytes, names, out, i);
      out := out + [bytes[i]];
      i := i + 1;
    }
    assert bytes[i..] == [];
  }

  // ----- what the two shells make of it -----

  /** A POSIX shell's reading: the longest name after a dollar sign, for the known names. */
  function ExpandDollar(s: string, names: seq<string>, env: map<string, string>): string
    decreases |s|
  {
    if s == [] then []
    else
      var name := RefAt(s);
      if name.Some? && name.value in names && name.value in env
      then env[name.value] + ExpandDollar(s[1 + |name.value|..], names, env)
      else [s[0]] + ExpandDollar(s[1..], names, env)
  }

  /** cmd.exe's reading: `%NAME%` for a defined name; any other percent sign stays. */
  function ExpandPercent(s: string, env: map<string, string>): string
    decreases |s|
  {
    if s == [] then []
    else if s[0] == '%' && Find(s[1..], '%') < |s| - 1 && s[1..1 + Find(s[1..], '%')] in env
    then env[s[1..1 + Find(s[1..], '%')]] + ExpandPercent(s[2 + Find(s[1..], '%')..], env)
    else [s[0]] + ExpandPercent(s[1..], env)
  }

  lemma PercentName(name: string, rest: string, env: map<string, string>)
    requires '%' !in name && name in env
    ensures ExpandPercent("%" + name + "%" + rest, env) == env[name] + ExpandPercent(rest, env)
  {
    var s := "%" + name + "%" + rest;
    assert s[1..] == name + "%" + rest;
    assert forall i :: 0 <= i < |name| ==> s[1..][i] == name[i];
    FindUnique(s[1..], '%', |name|);
    assert s[1..1 + |name|] == name && s[2 + |name|..] == rest;
  }

  lemma NameHasNo(s: string, c: char)
    requires RefAt(s).Some? && !IsIdentCont(c)
    ensures c !in RefAt(s).value
  {
    var name := RefAt(s).value;
    assert forall i :: 0 <= i < |name| ==> name[i] == s[1..][i];
  }

  /** For a command without percent signs, cmd.exe makes of the rewritten command what a POSIX shell makes of the
      original, for all names and values. */
  lemma {:induction false} RewritePreservesMeaning(s: string, names: seq<string>, env: map<string, string>)
    requires '%' !in s && forall n :: n in names ==> n in env
    ensures ExpandPercent(Rewrite(s, names), env) == ExpandDollar(s, names, env)
    decreases |s|
  {
    if s != [] {
      var name := RefAt(s);
      if name.Some? && name.value in names {
        RewritePreservesMeaning(s[1 + |name.value|..], names, env);
        OneReferenceStep(s, names, env);
      } else {
        RewritePreservesMeaning(s[1..], names, env);
        var r := Rewrite(s[1..], names);
        assert s[0] != '%';
        assert ([s[0]] + r)[1..] == r;
      }
    }
  }

  /** With a percent sign in the command the readings can differ: it pairs up with one that the rewriting puts in. */
  lemma PercentInCommandDiffers()
    ensures var env := map["A" := "1", "X" := "2"];
            ExpandPercent(Rewrite("%X$A", ["A"]), env) != ExpandDollar("%X$A", ["A"], env)
  {
    var env, s := map["A" := "1", "X" := "2"], "%X$A";
    assert s == "%X" + "$A" && "$A" == "$" + "A";
    OneReference("A", ["A"]);
    NoRefsPass("%X", "$A", ["A"]);
    assert Rewrite(s, ["A"]) == "%" + "X" + "%" + "A%";
    PercentName("X", "A%", env);
    assert RefAt(s).None?;
    assert ExpandDollar(s, ["A"], env)[0] == '%';
  }

  // ----- exactly when the meaning is preserved -----

  /** A percent sign, or a reference to a known name, which becomes one. */
  predicate MarkAt(s: string, names: seq<string>, j: nat) {
    j < |s| && (s[j] == '%' || (RefAt(s[j..]).Some? && RefAt(s[j..]).value in names))
  }

  /** A percent sign whose next mark is there, but not right behind it: the two enclose a name. */
  predicate EnclosedAt(s: string, names: seq<string>, i: nat, j: nat) {
    i + 1 < j < |s| && s[i] == '%' && MarkAt(s, names, j) && forall k :: i < k < j ==> !MarkAt(s, names, k)
  }

  ghost predicate Encloses(s: string, names: seq<string>) {
    exists i: nat, j: nat :: EnclosedAt(s, names, i, j)
  }

  /** All names are defined, and no value is given to the empty name. */
  ghost predicate Defines(env: map<string, string>, names: seq<string>) {
    [] !in env && forall n :: n in names && n != [] ==> n in env
  }

  /** The distance to the first mark, or the length. */
  function NextMark(s: string, names: seq<string>): (n: nat)
    ensures n <= |s| && (n < |s| ==> MarkAt(s, names, n)) && forall k :: 0 <= k < n ==> !MarkAt(s, names, k)
  {
    if s == [] || MarkAt(s, names, 0) then 0
    else
      var n := 1 + NextMark(s[1..], names);
      assert forall k: nat :: 1 <= k ==> (MarkAt(s, names, k) <==> MarkAt(s[1..], names, k - 1)) by {
        forall k: nat | 1 <= k <= |s| ensures s[1..][k - 1..] == s[k..] {}
      }
      n
  }

  lemma MarkShift(s: string, names: seq<string>, k: nat, j: nat)
    requires k <= |s|
    ensures MarkAt(s[k..], names, j) <==> MarkAt(s, names, k + j)
  {
    if k + j < |s| {
      assert s[k..][j..] == s[k + j..];
    }
  }

  lemma EnclosedShift(s: string, names: seq<string>, k: nat, i: nat, j: nat)
    requires k <= |s|
    ensures EnclosedAt(s[k..], names, i, j) <==> EnclosedAt(s, names, k + i, k + j)
  {
    MarkShift(s, names, k, j);
    forall m: nat ensures MarkAt(s[k..], names, m) <==> MarkAt(s, names, k + m) {
      MarkShift(s, names, k, m);
    }
    if EnclosedAt(s[k..], names, i, j) {
      forall m | k + i < m < k + j ensures !MarkAt(s, names, m) {
        assert !MarkAt(s[k..], names, m - k);
      }
    }
  }

  /** What lies behind the first `k` characters encloses a name if the whole does, but not from within those. */
  lemma EnclosesBehind(s: string, names: seq<string>, k: nat)
    requires k <= |s|
    ensures Encloses(s[k..], names) ==> Encloses(s, names)
    ensures Encloses(s, names) && (forall i: nat, j: nat :: i < k ==> !EnclosedAt(s, names, i, j)) ==>
              Encloses(s[k..], names)
  {
    hide EnclosedAt;
    if Encloses(s[k..], names) {
      var i: nat, j: nat :| EnclosedAt(s[k..], names, i, j);
      EnclosedShift(s, names, k, i, j);
    }
    if Encloses(s, names) && forall i: nat, j: nat :: i < k ==> !EnclosedAt(s, names, i, j) {
      var i: nat, j: nat :| EnclosedAt(s, names, i, j);
      EnclosedOrder(s, names, i, j);
      EnclosedShift(s, names, k, i - k, j - k);
    }
  }

  lemma EnclosedOrder(s: string, names: seq<string>, i: nat, j: nat)
    ensures EnclosedAt(s, names, i, j) ==> i < j && s[i] == '%'
  {
  }

  /** Up to the first mark nothing is rewritten. */
  lemma {:induction false} UpToMark(s: string, names: seq<string>, n: nat)
    requires n <= |s| && forall k :: 0 <= k < n ==> !MarkAt(s, names, k)
    ensures Rewrite(s, names) == s[..n] + Rewrite(s[n..], names)
    decreases n
  {
    if n == 0 {
      assert s[0..] == s && s[..0] == [];
    } else {
      hide Rewrite, MarkAt;
      forall k: nat ensures MarkAt(s[1..], names, k) <==> MarkAt(s, names, 1 + k) {
        MarkShift(s, names, 1, k);
      }
      UpToMark(s[1..], names, n - 1);
      NoMark(s, names);
      assert s[1..][n - 1..] == s[n..];
      assert s[..n] == [s[0]] + s[1..][..n - 1];
      Joined([s[0]], s[1..][..n - 1], Rewrite(s[n..], names));
    }
  }

  lemma NoMark(s: string, names: seq<string>)
    requires s != [] && !MarkAt(s, names, 0)
    ensures Rewrite(s, names) == [s[0]] + Rewrite(s[1..], names)
  {
    assert s[0..] == s;
  }

  /** A mark comes out as a percent sign. */
  lemma MarkComesOut(s: string, names: seq<string>, n: nat)
    requires MarkAt(s, names, n)
    ensures Rewrite(s[n..], names) != [] && Rewrite(s[n..], names)[0] == '%'
  {
  }

  lemma PercentStays(r: string, env: map<string, string>)
    requires [] !in env && (r == [] || r[0] == '%' || '%' !in r)
    ensures ExpandPercent("%" + r, env) == "%" + ExpandPercent(r, env)
  {
    hide Find;
    var s := "%" + r;
    assert s[1..] == r;
    if '%' !in r {
      FindUnique(r, '%', |r|);
    } else {
      FindUnique(r, '%', 0);
      assert s[1..1 + 0] == [];
    }
  }

  /** The step over one character that is no reference, when it encloses nothing. */
  lemma OneCharacter(s: string, names: seq<string>, env: map<string, string>)
    requires s != [] && (RefAt(s).None? || RefAt(s).value !in names) && [] !in env
    requires s[0] == '%' ==> NextMark(s[1..], names) in {0, |s| - 1}
    ensures ExpandPercent(Rewrite(s, names), env) == [s[0]] + ExpandPercent(Rewrite(s[1..], names), env)
    ensures ExpandDollar(s, names, env) == [s[0]] + ExpandDollar(s[1..], names, env)
  {
    var t := s[1..];
    var r := Rewrite(t, names);
    assert Rewrite(s, names) == [s[0]] + r && ([s[0]] + r)[1..] == r;
    if s[0] == '%' {
      var n := NextMark(t, names);
      UpToMark(t, names, n);
      if n < |t| {
        MarkComesOut(t, names, n);
        assert t[n..] == t;
      } else {
        assert t[n..] == [] && t[..n] == t && r == t;
        NoPercent(t, names);
      }
      PercentStays(r, env);
      assert Rewrite(s, names) == "%" + r;
    }
  }

  lemma OneReferenceStep(s: string, names: seq<string>, env: map<string, string>)
    requires RefAt(s).Some? && RefAt(s).value in names && RefAt(s).value in env
    ensures var (name, rest) := (RefAt(s).value, s[1 + |RefAt(s).value|..]);
            && ExpandPercent(Rewrite(s, names), env) == env[name] + ExpandPercent(Rewrite(rest, names), env)
            && ExpandDollar(s, names, env) == env[name] + ExpandDollar(rest, names, env)
  {
    var (name, rest) := (RefAt(s).value, s[1 + |RefAt(s).value|..]);
    NameHasNo(s, '%');
    PercentName(name, Rewrite(rest, names), env);
  }

  lemma Cancel(a: string, x: string, y: string)
    ensures a + x == a + y <==> x == y
  {
    assert (a + x)[|a|..] == x && (a + y)[|a|..] == y;
  }

  lemma NoPercent(t: string, names: seq<string>)
    requires forall k :: 0 <= k < |t| ==> !MarkAt(t, names, k)
    ensures '%' !in t
  {
    forall k | 0 <= k < |t| ensures t[k] != '%' {
      assert !MarkAt(t, names, k);
    }
  }

  lemma NothingEnclosed(s: string, names: seq<string>, j: nat)
    requires s != [] && (s[0] == '%' ==> NextMark(s[1..], names) in {0, |s| - 1})
    ensures !EnclosedAt(s, names, 0, j)
  {
    if EnclosedAt(s, names, 0, j) {
      var n := NextMark(s[1..], names);
      MarkShift(s, names, 1, j - 1);
      MarkShift(s, names, 1, 0);
    }
  }

  lemma {:induction false} UnenclosedPreserves(s: string, names: seq<string>, env: map<string, string>)
    requires Defines(env, names) && !Encloses(s, names)
    ensures ExpandPercent(Rewrite(s, names), env) == ExpandDollar(s, names, env)
    decreases |s|
  {
    hide Encloses, EnclosedAt, MarkAt, NextMark;
    if s != [] {
      hide Rewrite, ExpandPercent, ExpandDollar;
      var name := RefAt(s);
      if name.Some? && name.value in names {
        EnclosesBehind(s, names, 1 + |name.value|);
        UnenclosedPreserves(s[1 + |name.value|..], names, env);
        OneReferenceStep(s, names, env);
      } else {
        EnclosesBehind(s, names, 1);
        if s[0] == '%' && NextMark(s[1..], names) !in {0, |s| - 1} {
          FirstEncloses(s, names);
        }
        OneCharacter(s, names, env);
        UnenclosedPreserves(s[1..], names, env);
      }
    }
  }

  /** A percent sign whose next mark is further on encloses a name. */
  lemma FirstEncloses(s: string, names: seq<string>)
    requires s != [] && s[0] == '%' && NextMark(s[1..], names) !in {0, |s| - 1}
    ensures Encloses(s, names)
  {
    var n := NextMark(s[1..], names);
    MarkShift(s, names, 1, n);
    forall k | 0 < k < n + 1 ensures !MarkAt(s, names, k) {
      MarkShift(s, names, 1, k - 1);
    }
    assert EnclosedAt(s, names, 0, n + 1);
  }

  /** Where a name is enclosed, giving it a value makes the difference. */
  lemma {:induction false} EnclosedDiffers(s: string, names: seq<string>) returns (env: map<string, string>)
    requires Encloses(s, names)
    ensures Defines(env, names) && ExpandPercent(Rewrite(s, names), env) != ExpandDollar(s, names, env)
    decreases |s|
  {
    hide Encloses, EnclosedAt, MarkAt, NextMark, Rewrite, ExpandPercent, ExpandDollar;
    NotEmpty(s, names);
    var name := RefAt(s);
    if name.Some? && name.value in names {
      var k := 1 + |name.value|;
      NotInReference(s, names);
      EnclosesBehind(s, names, k);
      env := EnclosedDiffers(s[k..], names);
      OneReferenceStep(s, names, env);
      Cancel(env[name.value], ExpandPercent(Rewrite(s[k..], names), env), ExpandDollar(s[k..], names, env));
    } else if s[0] == '%' && NextMark(s[1..], names) !in {0, |s| - 1} {
      env := FirstDiffers(s, names);
    } else {
      forall j: nat ensures !EnclosedAt(s, names, 0, j) {
        NothingEnclosed(s, names, j);
      }
      EnclosesBehind(s, names, 1);
      env := EnclosedDiffers(s[1..], names);
      OneCharacter(s, names, env);
      Cancel([s[0]], ExpandPercent(Rewrite(s[1..], names), env), ExpandDollar(s[1..], names, env));
    }
  }

  lemma NotEmpty(s: string, names: seq<string>)
    requires Encloses(s, names)
    ensures s != []
  {
  }

  lemma NotInReference(s: string, names: seq<string>)
    requires RefAt(s).Some?
    ensures forall i: nat, j: nat :: i < 1 + |RefAt(s).value| ==> !EnclosedAt(s, names, i, j)
  {
    var name := RefAt(s).value;
    assert forall i :: 0 < i < 1 + |name| ==> s[i] == s[1..][i - 1];
  }

  lemma FirstDiffers(s: string, names: seq<string>) returns (env: map<string, string>)
    requires s != [] && s[0] == '%' && NextMark(s[1..], names) !in {0, |s| - 1}
    ensures Defines(env, names) && ExpandPercent(Rewrite(s, names), env) != ExpandDollar(s, names, env)
  {
    hide Rewrite, ExpandPercent, MarkAt, NextMark;
    var t, n := s[1..], NextMark(s[1..], names);
    var name := t[..n];
    var all := names + [name];
    env := map x | x in all && x != [] :: "!";
    NextIsMark(t, names);
    UpToMark(t, names, n);
    MarkComesOut(t, names, n);
    NoPercentBefore(t, names, n);
    var more := Rewrite(t[n..], names);
    assert more == "%" + more[1..];
    assert "%" + (name + more) == "%" + name + "%" + more[1..];
    PercentFirst(s, names);
    PercentName(name, more[1..], env);
    assert name in env && env[name] == "!";
    StartsDollar(s, names, env);
  }

  lemma NextIsMark(t: string, names: seq<string>)
    ensures var n := NextMark(t, names);
            n <= |t| && (n < |t| ==> MarkAt(t, names, n)) && forall k :: 0 <= k < n ==> !MarkAt(t, names, k)
  {
  }

  lemma PercentFirst(s: string, names: seq<string>)
    requires s != [] && s[0] == '%'
    ensures Rewrite(s, names) == "%" + Rewrite(s[1..], names)
  {
  }

  lemma StartsDollar(s: string, names: seq<string>, env: map<string, string>)
    requires s != [] && s[0] == '%'
    ensures ExpandDollar(s, names, env) != [] && ExpandDollar(s, names, env)[0] == '%'
  {
  }

  lemma NoPercentBefore(t: string, names: seq<string>, n: nat)
    requires n <= |t| && forall k :: 0 <= k < n ==> !MarkAt(t, names, k)
    ensures '%' !in t[..n]
  {
    forall k | 0 <= k < n ensures t[..n][k] != '%' {
      assert !MarkAt(t, names, k) && t[..n][k] == t[k];
    }
  }

  /** cmd.exe makes of the rewritten command what a POSIX shell makes of the original, for all values of the names and
      of any other names, if and only if no percent sign is followed by another percent sign or a known reference
      other than immediately. */
  lemma PreservedIff(s: string, names: seq<string>)
    ensures (forall env :: Defines(env, names) ==>
               ExpandPercent(Rewrite(s, names), env) == ExpandDollar(s, names, env)) <==>
              !Encloses(s, names)
  {
    hide *;
    if Encloses(s, names) {
      var env := EnclosedDiffers(s, names);
    } else {
      forall env | Defines(env, names) ensures ExpandPercent(Rewrite(s, names), env) == ExpandDollar(s, names, env) {
        UnenclosedPreserves(s, names, env);
      }
    }
  }

  lemma OneReference(name: string, names: seq<string>)
    requires name != [] && IsIdentStart(name[0]) && name in names
    requires forall i :: 0 <= i < |name| ==> IsIdentCont(name[i])
    ensures Rewrite("$" + name, names) == "%" + name + "%"
  {
    var s := "$" + name;
    assert s[1..] == name;
    IdentAll(name);
    assert s[1] == name[0] && s[1..1 + |name|] == name;
    assert s[1 + |name|..] == [] && "%" + name + "%" + [] == "%" + name + "%";
  }

  lemma {:induction false} IdentAll(name: string)
    requires forall i :: 0 <= i < |name| ==> IsIdentCont(name[i])
    ensures IdentLength(name) == |name|
  {
    if name != [] {
      IdentAll(name[1..]);
    }
  }

  // ----- doing it twice -----

  lemma {:induction false} IdentKept(s: string, names: seq<string>)
    ensures IdentLength(Rewrite(s, names)) == IdentLength(s)
    ensures Rewrite(s, names)[..IdentLength(s)] == s[..IdentLength(s)]
    ensures s != [] ==>
              Rewrite(s, names) != [] && (Rewrite(s, names)[0] == s[0] || (s[0] == '$' && Rewrite(s, names)[0] == '%'))
    decreases |s|
  {
    if s != [] && IsIdentCont(s[0]) {
      var r := Rewrite(s[1..], names);
      IdentKept(s[1..], names);
      assert Rewrite(s, names) == [s[0]] + r && s == [s[0]] + s[1..];
      IdentTail(s[0], s[1..], r);
    } else if s != [] {
      assert Rewrite(s, names)[0] == s[0] || Rewrite(s, names)[0] == '%';
    }
  }

  /** A reference that is kept is still the same reference afterwards. */
  lemma RefKept(s: string, names: seq<string>)
    requires s != [] && (RefAt(s).None? || RefAt(s).value !in names)
    ensures RefAt([s[0]] + Rewrite(s[1..], names)) == RefAt(s)
  {
    IdentKept(s[1..], names);
    var r := Rewrite(s[1..], names);
    assert ([s[0]] + r)[1..] == r;
    var n := IdentLength(s[1..]);
    assert ([s[0]] + r)[1..1 + n] == r[..n];
    assert s[1..1 + n] == s[1..][..n];
    assert |s| > 1 ==> s[1..][0] == s[1];
  }

  lemma {:induction false} NoRefsPass(t: string, r: string, names: seq<string>)
    requires '$' !in t
    ensures Rewrite(t + r, names) == t + Rewrite(r, names)
    decreases |t|
  {
    if t == [] {
      assert t + r == r;
    } else {
      assert (t + r)[1..] == t[1..] + r;
      NoRefsPass(t[1..], r, names);
    }
  }

  /** Rewriting a command again changes nothing. */
  lemma {:induction false} RewriteIdempotent(s: string, names: seq<string>)
    ensures Rewrite(Rewrite(s, names), names) == Rewrite(s, names)
    decreases |s|
  {
    if s != [] {
      var name := RefAt(s);
      if name.Some? && name.value in names {
        var rest := s[1 + |name.value|..];
        RewriteIdempotent(rest, names);
        NameHasNo(s, '$');
        NoRefsPass("%" + name.value + "%", Rewrite(rest, names), names);
      } else {
        RewriteIdempotent(s[1..], names);
        RefKept(s, names);
        var r := Rewrite(s[1..], names);
        assert ([s[0]] + r)[1..] == r;
      }
    }
  }

  /** An identifier is the same in characters and in bytes, and so is what follows it. */
  lemma {:induction false} IdentUtf8(s: string)
    ensures IdentLength(Utf8(s)) == IdentLength(s) <= |Utf8(s)|
    ensures Utf8(s)[..IdentLength(s)] == s[..IdentLength(s)] && Utf8(s)[IdentLength(s)..] == Utf8(s[IdentLength(s)..])
  {
    hide Utf8Char;
    if s != [] {
      var b, r := Utf8Char(s[0]), Utf8(s[1..]);
      assert (b + r)[0] == b[0];
      if IsIdentCont(s[0]) {
        IdentUtf8(s[1..]);
        IdentTail(s[0], s[1..], r);
      } else {
        assert !IsIdentCont(b[0]);
        assert s[0..] == s;
      }
    }
  }

  lemma IdentTail(c: char, t: string, r: string)
    requires IsIdentCont(c)
    ensures IdentLength([c] + r) == 1 + IdentLength(r) && IdentLength([c] + t) == 1 + IdentLength(t)
    ensures IdentLength(r) == IdentLength(t) && r[..IdentLength(t)] == t[..IdentLength(t)] ==>
              ([c] + r)[..1 + IdentLength(t)] == ([c] + t)[..1 + IdentLength(t)]
    ensures IdentLength(r) == IdentLength(t) ==>
              ([c] + r)[1 + IdentLength(t)..] == r[IdentLength(t)..] &&
              ([c] + t)[1 + IdentLength(t)..] == t[IdentLength(t)..]
  {
    assert ([c] + r)[1..] == r && ([c] + t)[1..] == t;
    var n := IdentLength(t);
    if IdentLength(r) == n {
      assert ([c] + r)[..1 + n] == [c] + r[..n] && ([c] + t)[..1 + n] == [c] + t[..n];
    }
  }

  lemma FirstByte(t: string)
    ensures t == [] <==> Utf8(t) == []
    ensures t != [] ==> (IsIdentStart(Utf8(t)[0]) <==> IsIdentStart(t[0]))
  {
    hide Utf8Char;
  }

  lemma RefUtf8(s: string)
    requires s != [] && s[0] == '$'
    ensures RefAt(Utf8(s)) == RefAt(s)
    ensures RefAt(s).Some? ==> Utf8(s)[1 + |RefAt(s).value|..] == Utf8(s[1 + |RefAt(s).value|..])
  {
    var t := s[1..];
    var r, n := Utf8(t), IdentLength(t);
    assert Utf8(s) == "$" + r && s == "$" + t;
    hide Utf8, Utf8Char, IdentLength, RefAt;
    FirstByte(t);
    IdentUtf8(t);
    RefOf(t);
    RefOf(r);
    assert ("$" + r)[1 + n..] == r[n..] && ("$" + t)[1 + n..] == t[n..];
  }

  /** Once a name is declared, the bytes come out as the characters that went in if and only if the command is ASCII;
      otherwise the result is longer than the rewriting of the characters. */
  lemma {:induction false} FaithfulIffAscii(cmd: string, names: seq<string>)
    ensures |Rewrite(Utf8(cmd), names)| >= |Rewrite(cmd, names)|
    ensures Rewrite(Utf8(cmd), names) == Rewrite(cmd, names) <==> IsAscii(cmd)
    ensures |Rewrite(Utf8(cmd), names)| == |Rewrite(cmd, names)| ==> IsAscii(cmd)
    decreases |cmd|
  {
    hide Utf8Char, IdentLength;
    if cmd != [] {
      var b, r := Utf8Char(cmd[0]), Utf8(cmd[1..]);
      if cmd[0] == '$' {
        RefUtf8(cmd);
      }
      var name := RefAt(cmd);
      if name.Some? && name.value in names {
        FaithfulIffAscii(cmd[1 + |name.value|..], names);
        RefIsAscii(cmd);
      } else {
        FaithfulIffAscii(cmd[1..], names);
        AsciiTail(cmd, 1);
        if cmd[0] as int < 0x80 {
          assert b + r == [cmd[0]] + r && ([cmd[0]] + r)[1..] == r;
        } else {
          NoRefsPass(b, r, names);
        }
      }
    }
  }

  lemma RefIsAscii(s: string)
    requires RefAt(s).Some?
    ensures IsAscii(s) <==> IsAscii(s[1 + |RefAt(s).value|..])
    ensures IsAscii("%" + RefAt(s).value + "%")
  {
    var n := |RefAt(s).value|;
    var ref := s[..1 + n];
    forall i | 0 <= i < |ref| ensures ref[i] as int < 0x80 {
      assert i > 0 ==> ref[i] == s[1..][i - 1];
    }
    AsciiTail(s, 1 + n);
  }

  lemma AsciiTail(s: string, k: nat)
    requires k <= |s|
    ensures IsAscii(s) ==> IsAscii(s[k..])
    ensures IsAscii(s) ==> IsAscii(s[..k])
    ensures IsAscii(s[..k]) && IsAscii(s[k..]) ==> IsAscii(s)
  {
    if IsAscii(s[..k]) && IsAscii(s[k..]) {
      forall i | 0 <= i < |s| ensures s[i] as int < 0x80 {
        assert if i < k then s[i] == s[..k][i] else s[i] == s[k..][i - k];
      }
    }
  }

  /** For an ASCII command the method's result is the rewriting of the command itself, and calling it again changes
      nothing. */
  lemma AsciiRewrite(cmd: string, names: seq<string>)
    requires IsAscii(cmd)
    ensures Rewrite(Utf8(cmd), names) == Rewrite(cmd, names)
    ensures Rewrite(Utf8(Rewrite(Utf8(cmd), names)), names) == Rewrite(Utf8(cmd), names)
  {
    AsciiBytes(cmd);
    AsciiKept(cmd, names);
    AsciiBytes(Rewrite(cmd, names));
    RewriteIdempotent(cmd, names);
  }

  lemma {:induction false} AsciiKept(s: string, names: seq<string>)
    requires IsAscii(s)
    ensures IsAscii(Rewrite(s, names))
    decreases |s|
  {
    hide IdentLength, IsAscii;
    if s != [] {
      var name := RefAt(s);
      if name.Some? && name.value in names {
        RefIsAscii(s);
        AsciiKept(s[1 + |name.value|..], names);
        AsciiJoin("%" + name.value + "%", Rewrite(s[1 + |name.value|..], names));
      } else {
        AsciiTail(s, 1);
        AsciiKept(s[1..], names);
        AsciiJoin([s[0]], Rewrite(s[1..], names));
        assert s[..1] == [s[0]];
      }
    }
  }

  lemma AsciiJoin(a: string, b: string)
    ensures IsAscii(a) && IsAscii(b) ==> IsAscii(a + b)
  {
  }
}

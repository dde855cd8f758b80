/** The escape scanner of an interactive session (src/ssh.rs): a byte automaton fed with reads of any size. */
module EscapeScanner {
  import opened Basics

  const NEWLINE: Byte := 10
  const DOT: Byte := 46
  const QUESTION: Byte := 63

  lemma EscapeBytes()
    ensures NEWLINE == '\n' as int && DOT == '.' as int && QUESTION == '?' as int
  {
  }

  /** Where help was asked for, where the escape that disconnects is, if there is one, and whether the scan ends at the
      start of a line. */
  datatype Scan = Scan(helps: seq<nat>, cut: Option<nat>, atLineStart: bool)

  /** How many bytes a request for help takes: itself, and the line feed after it. */
  function HelpLength(s: Bytes): (n: nat)
    requires |s| > 1
    ensures 2 <= n <= |s|
  {
    if |s| > 2 && s[2] == NEWLINE then 3 else 2
  }

  /** The scan of the bytes `s`, which begin at position `at`.  An escape counts only with the byte that follows it
      in the same read. */
  function ScanAt(esc: Byte, s: Bytes, atLineStart: bool, at: nat): Scan
    decreases |s|
  {
    if s == [] then Scan([], None, atLineStart)
    else if s[0] == NEWLINE then ScanAt(esc, s[1..], true, at + 1)
    else if atLineStart && s[0] == esc && |s| > 1 && s[1] == DOT then Scan([], Some(at), true)
    else if atLineStart && s[0] == esc && |s| > 1 && s[1] == QUESTION then
      AfterHelp([at], ScanAt(esc, s[HelpLength(s)..], true, at + HelpLength(s)))
    else ScanAt(esc, s[1..], false, at + 1)
  }

  function AfterHelp(helps: seq<nat>, r: Scan): Scan {
    r.(helps := helps + r.helps)
  }

  /** The scan of one read. */
  function ScanOf(esc: Byte, s: Bytes, atLineStart: bool): Scan {
    ScanAt(esc, s, atLineStart, 0)
  }

  /** The inner loop of the pump: the position reached, what was asked for, and the new line state. */
  method ScanRead(esc: Byte, stream: Bytes, atLineStart: bool)
      returns (pos: nat, disconnect: bool, helps: seq<nat>, newLineStart: bool)
    ensures var r := ScanOf(esc, stream, atLineStart);
            helps == r.helps && disconnect == r.cut.Some? && newLineStart == r.atLineStart &&
            pos == (if r.cut.Some? then r.cut.value else |stream|)
  {
    pos, disconnect, helps, newLineStart := 0, false, [], atLineStart;
    ghost var all := ScanOf(esc, stream, atLineStart);
    assert stream[0..] == stream;
    NoHelps(all);
    while pos < |stream|
      invariant 0 <= pos <= |stream|
      invariant all == AfterHelp(helps, ScanAt(esc, stream[pos..], newLineStart, pos))
    {
      var b := stream[pos];
      ghost var rest := stream[pos..];
      hide AfterHelp;
      assert rest[1..] == stream[pos + 1..];
      if b == NEWLINE {
        newLineStart := true;
        pos := pos + 1;
        continue;
      }
      if newLineStart && b == esc && pos + 1 < |stream| {
        var action := stream[pos + 1];
        if action == DOT {
          HelpsThen(helps, Some(pos), true);
          disconnect := true;
          return;
        } else if action == QUESTION {
          var start := pos;
          pos := pos + 2;
          if pos < |stream| && stream[pos] == NEWLINE {
            pos := pos + 1;
          }
          assert rest[HelpLength(rest)..] == stream[pos..];
          HelpsJoin(helps, [start], ScanAt(esc, stream[pos..], true, pos));
          helps := helps + [start];
          newLineStart := true;
          continue;
        } else {
          newLineStart := false;
          pos := pos + 1;
        }
      } else {
        newLineStart := false;
        pos := pos + 1;
      }
    }
    assert stream[pos..] == [];
    HelpsThen(helps, None, newLineStart);
  }

  lemma HelpsThen(helps: seq<nat>, cut: Option<nat>, atLineStart: bool)
    ensures AfterHelp(helps, Scan([], cut, atLineStart)) == Scan(helps, cut, atLineStart)
  {
    assert helps + [] == helps;
  }

  lemma HelpsJoin(a: seq<nat>, b: seq<nat>, r: Scan)
    ensures AfterHelp(a, AfterHelp(b, r)) == AfterHelp(a + b, r)
  {
    assert a + (b + r.helps) == a + b + r.helps;
  }

  // ----- what one scan finds, position by position -----

  /** Position `p` is at the start of a line: after a line feed, after a request for help, or where the read begins. */
  predicate LineStart(esc: Byte, s: Bytes, atLineStart: bool, p: nat)
    requires p <= |s|
  {
    if p == 0 then atLineStart
    else
      s[p - 1] == NEWLINE ||
      (p >= 2 && s[p - 1] == QUESTION && s[p - 2] == esc != NEWLINE && LineStart(esc, s, atLineStart, p - 2))
  }

  /** An escape at the start of a line, followed in the same read by `action`. */
  predicate EscapeAt(esc: Byte, s: Bytes, atLineStart: bool, p: nat, action: Byte) {
    p + 1 < |s| && s[p] == esc != NEWLINE && s[p + 1] == action && LineStart(esc, s, atLineStart, p)
  }

  /** The scan has come to position `k`, which is not the second byte of a request for help. */
  predicate ScanningAt(esc: Byte, s: Bytes, atLineStart: bool, k: nat, state: bool) {
    && k <= |s| && state == LineStart(esc, s, atLineStart, k)
    && (k > 0 ==> !EscapeAt(esc, s, atLineStart, k - 1, QUESTION))
  }

  ghost predicate FindsFrom(esc: Byte, s: Bytes, atLineStart: bool, k: nat, r: Scan) {
    && (r.cut.Some? ==> r.cut.value >= k && EscapeAt(esc, s, atLineStart, r.cut.value, DOT))
    && (forall p: nat :: k <= p < (if r.cut.Some? then r.cut.value else |s|) ==> !EscapeAt(esc, s, atLineStart, p, DOT))
    && (forall p: nat :: p in r.helps <==>
          k <= p < (if r.cut.Some? then r.cut.value else |s|) && EscapeAt(esc, s, atLineStart, p, QUESTION))
    && (forall i, j :: 0 <= i < j < |r.helps| ==> r.helps[i] < r.helps[j])
    && (r.cut.None? ==> r.atLineStart == LineStart(esc, s, atLineStart, |s|))
  }

  lemma {:induction false} ScanFinds(esc: Byte, s: Bytes, atLineStart: bool, k: nat, state: bool)
    requires ScanningAt(esc, s, atLineStart, k, state)
    ensures FindsFrom(esc, s, atLineStart, k, ScanAt(esc, s[k..], state, k))
    decreases |s| - k
  {
    hide FindsFrom, ScanningAt, EscapeAt, LineStart;
    EscapeHere(esc, s, atLineStart, k, state);
    if k == |s| {
      FindsDone(esc, s, atLineStart, k, state, Scan([], None, state));
    } else {
      var rest := s[k..];
      assert rest[1..] == s[k + 1..];
      if EscapeAt(esc, s, atLineStart, k, DOT) {
        FindsDone(esc, s, atLineStart, k, state, Scan([], Some(k), true));
      } else if EscapeAt(esc, s, atLineStart, k, QUESTION) {
        var n := HelpLength(rest);
        assert rest[n..] == s[k + n..];
        HelpScanned(esc, s, atLineStart, k, n);
        ScanFinds(esc, s, atLineStart, k + n, true);
        HelpFound(esc, s, atLineStart, k, n, ScanAt(esc, s[k + n..], true, k + n));
      } else {
        SkipOne(esc, s, atLineStart, k, state, ScanAt(esc, s[k + 1..], s[k] == NEWLINE, k + 1));
        ScanFinds(esc, s, atLineStart, k + 1, s[k] == NEWLINE);
      }
    }
  }

  lemma EscapeHere(esc: Byte, s: Bytes, atLineStart: bool, k: nat, state: bool)
    requires ScanningAt(esc, s, atLineStart, k, state)
    ensures k <= |s|
    ensures k < |s| ==> forall action ::
              EscapeAt(esc, s, atLineStart, k, action) <==>
                state && s[k] == esc != NEWLINE && k + 1 < |s| && s[k + 1] == action
  {
  }

  lemma FindsDone(esc: Byte, s: Bytes, atLineStart: bool, k: nat, state: bool, r: Scan)
    requires ScanningAt(esc, s, atLineStart, k, state) && r.helps == []
    requires if k == |s| then r == Scan([], None, state) else r.cut == Some(k) && EscapeAt(esc, s, atLineStart, k, DOT)
    ensures FindsFrom(esc, s, atLineStart, k, r)
  {
  }

  lemma SkipOne(esc: Byte, s: Bytes, atLineStart: bool, k: nat, state: bool, r: Scan)
    requires ScanningAt(esc, s, atLineStart, k, state) && k < |s|
    requires !EscapeAt(esc, s, atLineStart, k, DOT) && !EscapeAt(esc, s, atLineStart, k, QUESTION)
    ensures ScanningAt(esc, s, atLineStart, k + 1, s[k] == NEWLINE)
    ensures FindsFrom(esc, s, atLineStart, k + 1, r) ==> FindsFrom(esc, s, atLineStart, k, r)
  {
  }

  lemma HelpScanned(esc: Byte, s: Bytes, atLineStart: bool, k: nat, n: nat)
    requires ScanningAt(esc, s, atLineStart, k, true) && EscapeAt(esc, s, atLineStart, k, QUESTION)
    requires n == HelpLength(s[k..])
    ensures ScanningAt(esc, s, atLineStart, k + n, true)
  {
    assert !LineStart(esc, s, atLineStart, k + 1);
  }

  lemma HelpFound(esc: Byte, s: Bytes, atLineStart: bool, k: nat, n: nat, r: Scan)
    requires ScanningAt(esc, s, atLineStart, k, true) && EscapeAt(esc, s, atLineStart, k, QUESTION)
    requires n == HelpLength(s[k..]) && FindsFrom(esc, s, atLineStart, k + n, r)
    ensures FindsFrom(esc, s, atLineStart, k, AfterHelp([k], r))
  {
    assert !LineStart(esc, s, atLineStart, k + 1);
    var all := AfterHelp([k], r);
    forall p: nat ensures p in all.helps <==> p == k || p in r.helps {}
    forall p: nat | k < p < k + n && p < |s|
      ensures !EscapeAt(esc, s, atLineStart, p, DOT) && !EscapeAt(esc, s, atLineStart, p, QUESTION)
    {
    }
    forall i, j | 0 <= i < j < |all.helps| ensures all.helps[i] < all.helps[j] {
      assert all.helps[j] in r.helps;
    }
  }

  /** The scan of a read finds just what is there: it disconnects at the first escape at the start of a line that a dot
      follows, and before that it has seen every one that a question mark follows, once and in order; with no
      disconnect, the line state it leaves is that of the end of the read. */
  lemma ScanMeans(esc: Byte, s: Bytes, atLineStart: bool)
    ensures var r := ScanOf(esc, s, atLineStart);
            && (forall p: nat :: r.cut == Some(p) <==>
                  && EscapeAt(esc, s, atLineStart, p, DOT)
                  && forall q: nat :: q < p ==> !EscapeAt(esc, s, atLineStart, q, DOT))
            && (forall p: nat :: p in r.helps <==>
                  EscapeAt(esc, s, atLineStart, p, QUESTION) && (r.cut.Some? ==> p < r.cut.value))
            && (forall i, j :: 0 <= i < j < |r.helps| ==> r.helps[i] < r.helps[j])
            && (r.cut.None? ==> r.atLineStart == LineStart(esc, s, atLineStart, |s|))
  {
    ScanFinds(esc, s, atLineStart, 0, atLineStart);
    assert s[0..] == s;
  }

  // ----- the whole pump -----

  datatype End = EndOfInput | Disconnected | SendFailed | ReadFailed

  /** The outer loop.  An empty read is the end of the input; `sends` calls of `data` succeed and the next fails;
      when the reads are used up reading fails. */
  method EscapePump(inputs: seq<Bytes>, escape: Option<Byte>, sends: nat)
      returns (forwarded: seq<Bytes>, helps: nat, end: End)
    ensures |forwarded| <= |inputs| && |forwarded| <= sends && forwarded == inputs[..|forwarded|]
    ensures forall i :: 0 <= i < |forwarded| ==> inputs[i] != []
    ensures end.ReadFailed? <==> |forwarded| == |inputs|
    ensures end.EndOfInput? <==> |forwarded| < |inputs| && inputs[|forwarded|] == []
    ensures end.Disconnected? ==> escape.Some?
    ensures end.SendFailed? ==> |forwarded| == sends
    ensures escape.None? ==> helps == 0
    ensures escape.Some? ==> var state := StateAfter(escape.value, forwarded);
            state.Some? &&
            if end.EndOfInput? || end.ReadFailed? then helps == HelpsIn(escape.value, forwarded)
            else
              var last := ScanOf(escape.value, inputs[|forwarded|], state.value);
              (end.Disconnected? <==> last.cut.Some?) && helps == HelpsIn(escape.value, forwarded) + |last.helps|
  {
    var carry: Bytes := [];
    var atLineStart := true;
    forwarded, helps := [], 0;
    for i := 0 to |inputs|
      invariant carry == []
      invariant forwarded == inputs[..i]
      invariant escape.Some? ==>
                StateAfter(escape.value, forwarded) == Some(atLineStart) && helps == HelpsIn(escape.value, forwarded)
      invariant escape.None? ==> helps == 0
      invariant |forwarded| <= sends && forall k :: 0 <= k < i ==> inputs[k] != []
    {
      assert inputs[..i + 1] == inputs[..i] + [inputs[i]];
      if inputs[i] == [] {
        return forwarded, helps, EndOfInput;
      }
      var stream := carry + inputs[i];
      assert stream == inputs[i];
      carry := [];
      var pos := |stream|;
      if escape.Some? {
        StateSnoc(escape.value, forwarded, stream);
        var disconnect, asked;
        pos, disconnect, asked, atLineStart := ScanRead(escape.value, stream, atLineStart);
        helps := helps + |asked|;
        if disconnect {
          return forwarded, helps, Disconnected;
        }
      }
      if pos > 0 {
        if |forwarded| == sends {
          return forwarded, helps, SendFailed;
        }
        assert stream[..pos] == stream;
        forwarded := forwarded + [stream[..pos]];
      }
      // The bytes past `pos` would be carried over to the next read; there never are any.
      assert pos == |stream|;
    }
    end := ReadFailed;
  }

  /** The line state after some reads, none of which disconnects. */
  function StateAfter(esc: Byte, inputs: seq<Bytes>): Option<bool> {
    StateFrom(esc, inputs, true)
  }

  function StateFrom(esc: Byte, inputs: seq<Bytes>, atLineStart: bool): Option<bool> {
    if inputs == [] then Some(atLineStart)
    else
      var r := ScanOf(esc, inputs[0], atLineStart);
      if r.cut.Some? then None else StateFrom(esc, inputs[1..], r.atLineStart)
  }

  /** How often help is shown during them. */
  function HelpsIn(esc: Byte, inputs: seq<Bytes>): nat {
    HelpsFrom(esc, inputs, true)
  }

  function HelpsFrom(esc: Byte, inputs: seq<Bytes>, atLineStart: bool): nat {
    if inputs == [] then 0
    else
      var r := ScanOf(esc, inputs[0], atLineStart);
      |r.helps| + HelpsFrom(esc, inputs[1..], r.atLineStart)
  }

  lemma {:induction false} StateSnocFrom(esc: Byte, inputs: seq<Bytes>, s: Bytes, atLineStart: bool)
    requires StateFrom(esc, inputs, atLineStart).Some?
    ensures var r := ScanOf(esc, s, StateFrom(esc, inputs, atLineStart).value);
            StateFrom(esc, inputs + [s], atLineStart) == (if r.cut.Some? then None else Some(r.atLineStart)) &&
            HelpsFrom(esc, inputs + [s], atLineStart) == HelpsFrom(esc, inputs, atLineStart) + |r.helps|
  {
    hide ScanOf;
    if inputs == [] {
      assert [s][1..] == [];
    } else {
      assert (inputs + [s])[1..] == inputs[1..] + [s];
      StateSnocFrom(esc, inputs[1..], s, ScanOf(esc, inputs[0], atLineStart).atLineStart);
    }
  }

  lemma StateSnoc(esc: Byte, inputs: seq<Bytes>, s: Bytes)
    requires StateAfter(esc, inputs).Some?
    ensures var r := ScanOf(esc, s, StateAfter(esc, inputs).value);
            StateAfter(esc, inputs + [s]) == (if r.cut.Some? then None else Some(r.atLineStart)) &&
            HelpsIn(esc, inputs + [s]) == HelpsIn(esc, inputs) + |r.helps|
  {
    StateSnocFrom(esc, inputs, s, true);
  }

  // ----- one read or two -----

  /** The scan comes to the last byte of `s` at the start of a line, and that byte is the escape. */
  function EndsArmed(esc: Byte, s: Bytes, atLineStart: bool): bool
    decreases |s|
  {
    if s == [] then false
    else if s[0] == NEWLINE then EndsArmed(esc, s[1..], true)
    else if atLineStart && s[0] == esc && |s| == 1 then true
    else if atLineStart && s[0] == esc && s[1] == DOT then false
    else if atLineStart && s[0] == esc && s[1] == QUESTION then EndsArmed(esc, s[HelpLength(s)..], true)
    else EndsArmed(esc, s[1..], false)
  }

  /** The cut between `a` and `b` separates an escape from the `.` or `?` that belongs to it. */
  predicate Severed(esc: Byte, a: Bytes, atLineStart: bool, b: Bytes) {
    EndsArmed(esc, a, atLineStart) && b != [] && (b[0] == DOT || b[0] == QUESTION)
  }

  /** The scan of two reads, one after the other. */
  function TwoReads(esc: Byte, a: Bytes, b: Bytes, atLineStart: bool, at: nat): Scan {
    var r := ScanAt(esc, a, atLineStart, at);
    if r.cut.Some? then r else AfterHelp(r.helps, ScanAt(esc, b, r.atLineStart, at + |a|))
  }

  lemma TwoReadsHelp(esc: Byte, a: Bytes, b: Bytes, at: nat)
    requires |a| > 1 && a[0] == esc != NEWLINE && a[1] == QUESTION
    ensures TwoReads(esc, a, b, true, at) ==
              AfterHelp([at], TwoReads(esc, a[HelpLength(a)..], b, true, at + HelpLength(a)))
  {
    var n := HelpLength(a);
    var r := ScanAt(esc, a[n..], true, at + n);
    if r.cut.None? {
      HelpsJoin([at], r.helps, ScanAt(esc, b, r.atLineStart, at + |a|));
    }
  }

  /** Scanning `a + b` as one read gives the same as scanning `a` and then `b`, unless the cut severs an escape. */
  lemma {:induction false} UnseveredSplit(esc: Byte, a: Bytes, b: Bytes, atLineStart: bool, at: nat)
    requires !Severed(esc, a, atLineStart, b)
    ensures ScanAt(esc, a + b, atLineStart, at) == TwoReads(esc, a, b, atLineStart, at)
    decreases |a|
  {
    hide TwoReads;
    if a == [] {
      assert a + b == b;
      NothingThenRead(esc, b, atLineStart, at);
    } else {
      assert (a + b)[1..] == a[1..] + b;
      if a[0] == NEWLINE {
        UnseveredSplit(esc, a[1..], b, true, at + 1);
        TwoReadsSkip(esc, a, b, atLineStart, true, at);
      } else if atLineStart && a[0] == esc && |a| > 1 && a[1] == DOT {
        TwoReadsCut(esc, a, b, atLineStart, at);
      } else if atLineStart && a[0] == esc && |a| > 1 && a[1] == QUESTION {
        var n := HelpLength(a);
        if n == HelpLength(a + b) {
          TwoReadsHelp(esc, a, b, at);
          assert (a + b)[n..] == a[n..] + b;
          UnseveredSplit(esc, a[n..], b, true, at + n);
        } else {
          HelpAtEnd(esc, a, b, at);
        }
      } else {
        UnseveredSplit(esc, a[1..], b, false, at + 1);
        TwoReadsSkip(esc, a, b, atLineStart, false, at);
      }
    }
  }

  lemma NothingThenRead(esc: Byte, b: Bytes, atLineStart: bool, at: nat)
    ensures TwoReads(esc, [], b, atLineStart, at) == ScanAt(esc, b, atLineStart, at)
  {
    NoHelps(ScanAt(esc, b, atLineStart, at));
  }

  lemma TwoReadsSkip(esc: Byte, a: Bytes, b: Bytes, atLineStart: bool, next: bool, at: nat)
    requires a != [] && ScanAt(esc, a, atLineStart, at) == ScanAt(esc, a[1..], next, at + 1)
    ensures TwoReads(esc, a, b, atLineStart, at) == TwoReads(esc, a[1..], b, next, at + 1)
  {
    hide ScanAt;
  }

  lemma TwoReadsCut(esc: Byte, a: Bytes, b: Bytes, atLineStart: bool, at: nat)
    requires ScanAt(esc, a, atLineStart, at).cut.Some?
    ensures TwoReads(esc, a, b, atLineStart, at) == ScanAt(esc, a, atLineStart, at)
  {
    hide ScanAt;
  }

  /** The line feed that ends a help escape may be the first byte of the second read. */
  lemma HelpAtEnd(esc: Byte, a: Bytes, b: Bytes, at: nat)
    requires |a| > 1 && a[0] == esc != NEWLINE && a[1] == QUESTION && HelpLength(a) != HelpLength(a + b)
    ensures ScanAt(esc, a + b, true, at) == TwoReads(esc, a, b, true, at)
  {
    TwoReadsHelp(esc, a, b, at);
    assert a[2..] == [] && (a + b)[3..] == b[1..] && b[0] == NEWLINE;
    NoHelps(ScanAt(esc, b, true, at + 2));
  }

  lemma NoHelps(r: Scan)
    ensures AfterHelp([], r) == r
  {
    assert [] + r.helps == r.helps;
  }

  lemma {:induction false} PositionsFrom(esc: Byte, s: Bytes, atLineStart: bool, at: nat)
    ensures var r := ScanAt(esc, s, atLineStart, at);
            (r.cut.Some? ==> r.cut.value >= at) && forall i :: 0 <= i < |r.helps| ==> r.helps[i] >= at
    decreases |s|
  {
    if s != [] {
      PositionsFrom(esc, s[1..], s[0] == NEWLINE, at + 1);
      if atLineStart && s[0] == esc != NEWLINE && |s| > 1 && s[1] == QUESTION {
        PositionsFrom(esc, s[HelpLength(s)..], true, at + HelpLength(s));
      }
    }
  }

  /** When it does, the two differ: the escape that one read finds is missing from two. */
  lemma {:induction false} SeveredSplit(esc: Byte, a: Bytes, b: Bytes, atLineStart: bool, at: nat)
    requires Severed(esc, a, atLineStart, b)
    ensures ScanAt(esc, a + b, atLineStart, at) != TwoReads(esc, a, b, atLineStart, at)
    decreases |a|
  {
    assert (a + b)[1..] == a[1..] + b;
    if a[0] == NEWLINE {
      SeveredSplit(esc, a[1..], b, true, at + 1);
    } else if atLineStart && a[0] == esc && |a| == 1 {
      SeveredAtLast(esc, a, b, at);
    } else if atLineStart && a[0] == esc && a[1] == QUESTION {
      var n := HelpLength(a);
      ArmedHelp(esc, a);
      assert (a + b)[n..] == a[n..] + b && HelpLength(a + b) == n;
      SeveredSplit(esc, a[n..], b, true, at + n);
      TwoReadsHelp(esc, a, b, at);
      HelpInjective([at], ScanAt(esc, a[n..] + b, true, at + n), TwoReads(esc, a[n..], b, true, at + n));
    } else {
      SeveredSplit(esc, a[1..], b, false, at + 1);
    }
  }

  lemma ArmedHelp(esc: Byte, a: Bytes)
    requires |a| > 1 && a[0] == esc != NEWLINE && a[1] == QUESTION && EndsArmed(esc, a, true)
    ensures |a| > 2
  {
    assert EndsArmed(esc, a[HelpLength(a)..], true);
  }

  lemma SeveredAtLast(esc: Byte, a: Bytes, b: Bytes, at: nat)
    requires |a| == 1 && a[0] == esc != NEWLINE && b != [] && (b[0] == DOT || b[0] == QUESTION)
    ensures ScanAt(esc, a + b, true, at) != TwoReads(esc, a, b, true, at)
  {
    var one, two := ScanAt(esc, a + b, true, at), TwoReads(esc, a, b, true, at);
    var second := ScanAt(esc, b, false, at + 1);
    assert a[1..] == [] && ScanAt(esc, a, true, at) == Scan([], None, false);
    NoHelps(second);
    assert two == second;
    PositionsFrom(esc, b, false, at + 1);
    assert (a + b)[1] == b[0];
    if b[0] == DOT {
      assert one.cut == Some(at);
    } else {
      assert one.helps[0] == at;
    }
  }

  lemma HelpInjective(helps: seq<nat>, r: Scan, s: Scan)
    ensures AfterHelp(helps, r) == AfterHelp(helps, s) ==> r == s
  {
    if AfterHelp(helps, r) == AfterHelp(helps, s) {
      assert r.helps == (helps + r.helps)[|helps|..] == (helps + s.helps)[|helps|..] == s.helps;
    }
  }

  /** One read or two make no difference if and only if the cut does not sever an escape. */
  lemma SplitIff(esc: Byte, a: Bytes, b: Bytes, atLineStart: bool)
    ensures ScanOf(esc, a + b, atLineStart) == TwoReads(esc, a, b, atLineStart, 0) <==> !Severed(esc, a, atLineStart, b)
  {
    hide ScanAt, TwoReads, Severed;
    if Severed(esc, a, atLineStart, b) {
      SeveredSplit(esc, a, b, atLineStart, 0);
    } else {
      UnseveredSplit(esc, a, b, atLineStart, 0);
    }
  }

  // ----- any number of reads -----

  function Flatten(inputs: seq<Bytes>): Bytes {
    if inputs == [] then [] else inputs[0] + Flatten(inputs[1..])
  }

  /** The scan of a series of reads, up to the one that disconnects. */
  function ManyReads(esc: Byte, inputs: seq<Bytes>, atLineStart: bool, at: nat): Scan
    decreases |inputs|
  {
    if inputs == [] then Scan([], None, atLineStart)
    else
      var r := ScanAt(esc, inputs[0], atLineStart, at);
      if r.cut.Some? then r else AfterHelp(r.helps, ManyReads(esc, inputs[1..], r.atLineStart, at + |inputs[0]|))
  }

  /** No escape is severed by the end of a read. */
  predicate WellCut(esc: Byte, inputs: seq<Bytes>, atLineStart: bool)
    decreases |inputs|
  {
    inputs == [] ||
    (!Severed(esc, inputs[0], atLineStart, Flatten(inputs[1..])) &&
     (ScanAt(esc, inputs[0], atLineStart, 0).cut.Some? ||
      WellCut(esc, inputs[1..], ScanAt(esc, inputs[0], atLineStart, 0).atLineStart)))
  }

  lemma {:induction false} StateIgnoresPosition(esc: Byte, s: Bytes, atLineStart: bool, at: nat, at2: nat)
    ensures var r, r2 := ScanAt(esc, s, atLineStart, at), ScanAt(esc, s, atLineStart, at2);
            r.atLineStart == r2.atLineStart && (r.cut.Some? <==> r2.cut.Some?) && |r.helps| == |r2.helps|
    decreases |s|
  {
    if s != [] {
      StateIgnoresPosition(esc, s[1..], s[0] == NEWLINE, at + 1, at2 + 1);
      if atLineStart && s[0] == esc != NEWLINE && |s| > 1 && s[1] == QUESTION {
        StateIgnoresPosition(esc, s[HelpLength(s)..], true, at + HelpLength(s), at2 + HelpLength(s));
      }
    }
  }

  lemma {:induction false} WellCutIsOneRead(esc: Byte, inputs: seq<Bytes>, atLineStart: bool, at: nat)
    requires WellCut(esc, inputs, atLineStart)
    ensures ManyReads(esc, inputs, atLineStart, at) == ScanAt(esc, Flatten(inputs), atLineStart, at)
    decreases |inputs|
  {
    hide ScanAt, Severed;
    if inputs == [] {
      NothingRead(esc, atLineStart, at);
    } else {
      StateIgnoresPosition(esc, inputs[0], atLineStart, 0, at);
      UnseveredSplit(esc, inputs[0], Flatten(inputs[1..]), atLineStart, at);
      var r := ScanAt(esc, inputs[0], atLineStart, at);
      if r.cut.None? {
        WellCutIsOneRead(esc, inputs[1..], r.atLineStart, at + |inputs[0]|);
      }
    }
  }

  lemma NothingRead(esc: Byte, atLineStart: bool, at: nat)
    ensures ScanAt(esc, [], atLineStart, at) == Scan([], None, atLineStart)
  {
  }

  /** Any two ways of cutting one input into reads that sever no escape agree: in whether and where the session
      disconnects, in the requests for help, and in the line state. */
  lemma ChunkingDoesNotMatter(esc: Byte, one: seq<Bytes>, other: seq<Bytes>)
    requires Flatten(one) == Flatten(other) && WellCut(esc, one, true) && WellCut(esc, other, true)
    ensures ManyReads(esc, one, true, 0) == ManyReads(esc, other, true, 0)
  {
    WellCutIsOneRead(esc, one, true, 0);
    WellCutIsOneRead(esc, other, true, 0);
  }

  /** The pump's state is that of the series of reads it has forwarded. */
  lemma {:induction false} StateIsManyReads(esc: Byte, inputs: seq<Bytes>, atLineStart: bool, at: nat)
    ensures var r := ManyReads(esc, inputs, atLineStart, at);
            StateFrom(esc, inputs, atLineStart) == (if r.cut.Some? then None else Some(r.atLineStart)) &&
            (r.cut.None? ==> HelpsFrom(esc, inputs, atLineStart) == |r.helps|)
    decreases |inputs|
  {
    hide ScanAt;
    if inputs != [] {
      StateIgnoresPosition(esc, inputs[0], atLineStart, 0, at);
      StateIsManyReads(esc, inputs[1..], ScanAt(esc, inputs[0], atLineStart, at).atLineStart, at + |inputs[0]|);
    }
  }
}

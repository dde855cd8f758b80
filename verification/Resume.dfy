/** The master's side of a resumed connection: `handle_resume` of src/control.rs, and what the client makes of it. */
module Resume {
  import opened Basics
  import opened Text
  import opened Frames
  import opened Channel

  // ----- the command line -----

  datatype Verb = Check | Stop | Nothing | Exec(cmd: string)

  /** `trim_end_matches(c)` */
  function TrimEndOf(s: string, c: char): string {
    if s != [] && s[|s| - 1] == c then TrimEndOf(s[..|s| - 1], c) else s
  }

  function FirstWord(s: string): string {
    var t := TrimStart(s);
    t[..FirstWhitespace(t)]
  }

  /** The line without its line feeds and then its carriage returns. */
  function Command(line: string): string {
    TrimEndOf(TrimEndOf(line, '\n'), '\r')
  }

  /** What the master makes of a command line: control verbs come in the same frames as commands. */
  function Dispatch(line: string): Verb {
    var cmd := Command(line);
    var verb := FirstWord(cmd);
    if verb == "check" then Check
    else if verb == "exit" || verb == "stop" then Stop
    else if cmd == [] then Nothing
    else Exec(cmd)
  }

  // ----- the same, by what the line is made of -----

  predicate AllAre(s: string, c: char) {
    forall i :: 0 <= i < |s| ==> s[i] == c
  }

  predicate EndsIn(s: string, c: char) {
    s != [] && s[|s| - 1] == c
  }

  ghost predicate FirstWordIs(line: string, word: string) {
    exists ws: string, rest: string ::
      AllSpace(ws) && (rest == [] || IsWhitespace(rest[0])) && line == ws + (word + rest)
  }

  /** `cmd` is the line without its trailing line feeds and then its trailing carriage returns. */
  ghost predicate IsCommand(line: string, cmd: string) {
    exists crs: string, lfs: string ::
      && AllAre(crs, '\r') && AllAre(lfs, '\n') && line == cmd + (crs + lfs)
      && !EndsIn(cmd, '\r') && (crs == [] ==> !EndsIn(cmd, '\n'))
  }

  ghost predicate IsVerb(line: string) {
    FirstWordIs(line, "check") || FirstWordIs(line, "exit") || FirstWordIs(line, "stop")
  }

  lemma {:induction false} TrimmedIsSpace(s: string, i: nat)
    requires i < |s| - |TrimStart(s)|
    ensures IsWhitespace(s[i])
  {
    hide IsWhitespace;
    if i > 0 {
      TrimmedIsSpace(s[1..], i - 1);
    }
  }

  lemma FirstWordMeans(line: string, word: string)
    requires NoSpace(word) && word != []
    ensures FirstWord(line) == word <==> FirstWordIs(line, word)
  {
    hide FirstWord, IsWhitespace;
    if FirstWord(line) == word {
      FirstWordFound(line);
    }
    forall ws: string, rest: string |
      AllSpace(ws) && (rest == [] || IsWhitespace(rest[0])) && line == ws + (word + rest)
      ensures FirstWord(line) == word
    {
      FirstWordRead(ws, word, rest);
    }
  }

  lemma FirstWordFound(line: string)
    ensures FirstWordIs(line, FirstWord(line))
  {
    hide IsWhitespace, TrimStart, FirstWhitespace;
    var t := TrimStart(line);
    var n := |line| - |t|;
    forall i | 0 <= i < n ensures IsWhitespace(line[i]) {
      TrimmedIsSpace(line, i);
    }
    var ws, word, rest := line[..n], FirstWord(line), t[|FirstWord(line)|..];
    assert line == ws + (word + rest);
    assert rest == [] || IsWhitespace(rest[0]);
    assert AllSpace(ws);
  }

  lemma FirstWordRead(ws: string, word: string, rest: string)
    requires AllSpace(ws) && NoSpace(word) && word != [] && (rest == [] || IsWhitespace(rest[0]))
    ensures FirstWord(ws + (word + rest)) == word
  {
    hide IsWhitespace, TrimStart, FirstWhitespace;
    var t := word + rest;
    assert t[0] == word[0];
    TrimStartMeans(ws, t);
    assert forall i :: 0 <= i < |word| ==> t[i] == word[i];
    assert rest != [] ==> t[|word|] == rest[0];
  }

  /** Space at the end of a line is no part of its first word. */
  lemma {:induction false} FirstWordIgnoresEnd(s: string, tail: string)
    requires AllSpace(tail)
    ensures FirstWord(s + tail) == FirstWord(s)
    decreases |s|
  {
    hide IsWhitespace;
    if s == [] {
      assert s + tail == tail + [];
      TrimStartMeans(tail, []);
    } else if IsWhitespace(s[0]) {
      assert (s + tail)[1..] == s[1..] + tail;
      FirstWordIgnoresEnd(s[1..], tail);
    } else {
      var n, t := FirstWhitespace(s), s + tail;
      assert TrimStart(s) == s && TrimStart(t) == t by { assert t[0] == s[0]; }
      assert forall i :: 0 <= i < |s| ==> t[i] == s[i];
      assert n == |s| && tail != [] ==> t[|s|] == tail[0];
      assert FirstWhitespace(t) == n;
    }
  }

  lemma {:induction false} TrimEndOfMeans(s: string, cs: string, c: char)
    requires AllAre(cs, c) && !EndsIn(s, c)
    ensures TrimEndOf(s + cs, c) == s
    decreases |cs|
  {
    if cs == [] {
      assert s + cs == s;
    } else {
      assert (s + cs)[..|s + cs| - 1] == s + cs[..|cs| - 1];
      TrimEndOfMeans(s, cs[..|cs| - 1], c);
    }
  }

  lemma {:induction false} TrimEndOfCut(s: string, c: char) returns (cs: string)
    ensures AllAre(cs, c) && s == TrimEndOf(s, c) + cs && !EndsIn(TrimEndOf(s, c), c)
  {
    if EndsIn(s, c) {
      var less := TrimEndOfCut(s[..|s| - 1], c);
      cs := less + [c];
    } else {
      cs := [];
    }
  }

  lemma CommandMeans(line: string, cmd: string)
    ensures Command(line) == cmd <==> IsCommand(line, cmd)
  {
    if Command(line) == cmd {
      var lfs := TrimEndOfCut(line, '\n');
      var crs := TrimEndOfCut(TrimEndOf(line, '\n'), '\r');
      Joined(cmd, crs, lfs);
      assert crs == [] ==> cmd == TrimEndOf(line, '\n');
    }
    forall crs: string, lfs: string |
      && AllAre(crs, '\r') && AllAre(lfs, '\n') && line == cmd + (crs + lfs)
      && !EndsIn(cmd, '\r') && (crs == [] ==> !EndsIn(cmd, '\n'))
      ensures Command(line) == cmd
    {
      Joined(cmd, crs, lfs);
      assert EndsIn(cmd + crs, '\n') ==> crs == [] && cmd + crs == cmd;
      TrimEndOfMeans(cmd + crs, lfs, '\n');
      TrimEndOfMeans(cmd, crs, '\r');
    }
  }

  /** The command has the line's first word. */
  lemma CommandHasWord(line: string)
    ensures FirstWord(Command(line)) == FirstWord(line)
  {
    hide FirstWord;
    var cmd := Command(line);
    CommandMeans(line, cmd);
    var crs: string, lfs: string :|
      AllAre(crs, '\r') && AllAre(lfs, '\n') && line == cmd + (crs + lfs);
    ReturnsAreSpace(crs, lfs);
    FirstWordIgnoresEnd(cmd, crs + lfs);
  }

  lemma ReturnsAreSpace(crs: string, lfs: string)
    requires AllAre(crs, '\r') && AllAre(lfs, '\n')
    ensures AllSpace(crs + lfs)
  {
  }

  lemma DispatchMeans(line: string)
    ensures Dispatch(line).Check? <==> FirstWordIs(line, "check")
    ensures Dispatch(line).Stop? <==> FirstWordIs(line, "exit") || FirstWordIs(line, "stop")
    ensures !IsVerb(line) ==>
              Dispatch(line) == if IsCommand(line, []) then Nothing else Exec(Command(line))
    ensures forall cmd :: IsCommand(line, cmd) <==> cmd == Command(line)
    ensures IsCommand(line, []) ==> !IsVerb(line)
  {
    CommandHasWord(line);
    VerbsAreWords();
    FirstWordMeans(line, "check");
    FirstWordMeans(line, "exit");
    FirstWordMeans(line, "stop");
    forall cmd ensures IsCommand(line, cmd) <==> cmd == Command(line) {
      CommandMeans(line, cmd);
    }
    assert FirstWord([]) == [];
    hide IsCommand, FirstWordIs, Command, FirstWord;
  }

  lemma VerbsAreWords()
    ensures NoSpace("check") && NoSpace("exit") && NoSpace("stop")
  {
  }

  // ----- what the master writes -----

  /** The text's characters, one byte each. */
  function Ascii(s: string): (b: Bytes)
    ensures |b| == |s| && forall i :: 0 <= i < |s| ==> b[i] == s[i] as int % 256
  {
    if s == [] then [] else [s[0] as int % 256] + Ascii(s[1..])
  }

  function ControlReply(text: string): Bytes {
    BigEndian(|text|) + Ascii(text)
  }

  /** What the master writes for a command line; `server` is what the channel delivers for a command. */
  function MasterWrites(line: string, pid: string, server: string -> seq<Msg>): Bytes {
    match Dispatch(line)
    case Check => ControlReply("ok " + pid + "\n")
    case Stop => ControlReply("bye\n")
    case Nothing => DoneFrame(0)
    case Exec(cmd) => Encode(Pump(server(cmd)).0) + DoneFrame(Pump(server(cmd)).1)
  }

  /** Serve one command line; `stop` is the request to shut the master down. */
  method ServeLine(line: string, pid: string, server: string -> seq<Msg>, tx: Wire) returns (stop: bool)
    modifies tx
    ensures tx.bytes == old(tx.bytes) + MasterWrites(line, pid, server)
    ensures stop <==> Dispatch(line).Stop?
  {
    hide Dispatch, Frame, BigEndian;
    stop := false;
    ghost var before := tx.bytes;
    match Dispatch(line) {
      case Check =>
        tx.WriteCmdFrame(Ascii("ok " + pid + "\n"));
        Joined(before, BigEndian(|"ok " + pid + "\n"|), Ascii("ok " + pid + "\n"));
      case Stop =>
        tx.WriteCmdFrame(Ascii("bye\n"));
        Joined(before, BigEndian(|"bye\n"|), Ascii("bye\n"));
        stop := true;
      case Nothing =>
        tx.WriteDone(0);
      case Exec(cmd) =>
        var code := PumpSessionToUds(server(cmd), tx);
        tx.WriteDone(code);
        Joined(before, Encode(Pump(server(cmd)).0), DoneFrame(code));
    }
  }

  lemma ByeBytes()
    ensures ControlReply("bye\n") == [0, 0, 0, 4, 98, 121, 101, 10]
  {
  }

  lemma DoneBytes()
    ensures DoneFrame(0) == [0, 0, 0, 1, 0, 0]
  {
  }

  /** What one connection comes to: nothing was asked, a request to shut down, a served line, or an error. */
  datatype Served = Closed | Refused | Line(stop: bool)

  /**
   `handle_resume`: one command frame, decoded from UTF-8.  A master stops exactly for a line whose first word is exit
   or stop, and answers check, those two and an empty line by itself; for any other line the channel is handed the line
   without its trailing line feeds and then its trailing carriage returns, and the client what it delivers.
   */
  method HandleResume(rx: Wire, tx: Wire, decode: Bytes -> Option<string>, pid: string, server: string -> seq<Msg>)
      returns (r: Served)
    requires rx != tx
    modifies rx, tx
    ensures rx.bytes == CmdFrame(old(rx.bytes)).1
    ensures Answered(CmdFrame(old(rx.bytes)).0, decode, pid, server, r, old(tx.bytes), tx.bytes)
  {
    hide CmdFrame, MasterWrites, Dispatch;
    var frame := rx.ReadCmdFrame();
    if frame.Err? { return Refused; }
    if frame.value.None? { return Closed; }
    var line := decode(frame.value.value);
    if line.None? { return Refused; }
    var stop := ServeLine(line.value, pid, server, tx);
    WritesMean(line.value, pid, server);
    DispatchMeans(line.value);
    return Line(stop);
  }

  /** The answer to a frame, in terms of the line alone. */
  ghost predicate Answered(frame: Result<Option<Bytes>, ()>, decode: Bytes -> Option<string>, pid: string,
                           server: string -> seq<Msg>, r: Served, before: Bytes, after: Bytes) {
    if frame.Err? then r == Refused && after == before
    else if frame.value.None? then r == Closed && after == before
    else if decode(frame.value.value).None? then r == Refused && after == before
    else
      var line := decode(frame.value.value).value;
      && r == Line(FirstWordIs(line, "exit") || FirstWordIs(line, "stop"))
      && exists reply :: after == before + reply && Reply(line, pid, server, reply)
  }

  ghost predicate Reply(line: string, pid: string, server: string -> seq<Msg>, reply: Bytes) {
    && (FirstWordIs(line, "check") ==> reply == ControlReply("ok " + pid + "\n"))
    && (FirstWordIs(line, "exit") || FirstWordIs(line, "stop") ==> reply == [0, 0, 0, 4, 98, 121, 101, 10])
    && (IsCommand(line, []) ==> reply == [0, 0, 0, 1, 0, 0])
    && (!IsVerb(line) ==>
          forall cmd :: IsCommand(line, cmd) && cmd != [] ==>
            reply == Encode(Pump(server(cmd)).0) + DoneFrame(Pump(server(cmd)).1))
  }

  lemma WritesMean(line: string, pid: string, server: string -> seq<Msg>)
    ensures Reply(line, pid, server, MasterWrites(line, pid, server))
  {
    DispatchMeans(line);
    ByeBytes();
    DoneBytes();
    hide Dispatch, IsCommand, FirstWordIs, Command, ControlReply, DoneFrame, Encode, Pump;
  }

  // ----- what the resume client makes of it -----

  function ResumeView(line: string, pid: string, server: string -> seq<Msg>): View {
    ReadFrames(MasterWrites(line, pid, server))
  }

  /** A command that is run comes through whole. */
  lemma ResumedCommand(line: string, pid: string, server: string -> seq<Msg>, cmd: string)
    requires !IsVerb(line) && IsCommand(line, cmd) && cmd != [] && AllFit(Pump(server(cmd)).0)
    ensures ResumeView(line, pid, server) == Exit(Pump(server(cmd)).0, Pump(server(cmd)).1 % 256, [])
  {
    DispatchMeans(line);
    var ms := server(cmd);
    FramesRoundTrip(Pump(ms).0, Pump(ms).1, []);
    hide Dispatch, IsCommand, FirstWordIs, Command, ReadFrames, Encode, DoneFrame, Pump;
    assert Encode(Pump(ms).0) + DoneFrame(Pump(ms).1) + [] == Encode(Pump(ms).0) + DoneFrame(Pump(ms).1);
  }

  /** A command whose first word is a control verb is never run: the client reports a protocol error. */
  lemma ResumedVerbFails(line: string, pid: string, server: string -> seq<Msg>)
    requires IsVerb(line) && |pid| + 4 < TWO32
    ensures ResumeView(line, pid, server) == Broken([])
  {
    DispatchMeans(line);
    hide Dispatch, FirstWordIs, ReadFrames, Ascii, BigEndian;
    ControlReplyIsNoExit(Ascii("ok " + pid + "\n"));
    ControlReplyIsNoExit(Ascii("bye\n"));
  }

  /**
   Direct and resumed sessions agree for every channel with at most one status, that one before the first Eof or
   Close and with no data between the two: the same output, and the same exit code modulo 256.
   */
  lemma DirectAndResumedAgree(line: string, pid: string, server: string -> seq<Msg>, cmd: string, patience: nat)
    requires !IsVerb(line) && IsCommand(line, cmd) && cmd != [] && AllFit(Pump(server(cmd)).0)
    requires var ms := server(cmd);
             |Statuses(Before(ms))| <= 1 && Statuses(Behind(ms)) == [] && NoBytes(AfterStatus(Before(ms)))
    ensures var direct, resumed := Reader(server(cmd), patience), ResumeView(line, pid, server);
            resumed.Exit? && SameOutput(direct.0, resumed.events) && resumed.code == direct.1 % 256
  {
    hide IsVerb, IsCommand, Pump, Reader, ReadFrames, AsI32, ResumeView;
    var ms := server(cmd);
    ResumedCommand(line, pid, server, cmd);
    SameOutputIff(ms, patience);
    SameCodeIff(ms, patience);
    NoStatusesInPrefix(Behind(ms), if patience < |Behind(ms)| then patience else |Behind(ms)|);
  }
}

/**
 The two readers of a session channel: the master's pump, which feeds a resume client (src/control.rs), and the
 reader task of a direct session (src/ssh.rs).  A channel is the sequence of messages it delivers; its end is
 the sender being dropped.
 */
module Channel {
  import opened Basics
  import opened Frames
  import opened Text

  datatype Msg =
    | Data(bytes: Bytes)
    | ExtendedData(bytes: Bytes)
    | ExitStatus(status: nat)
    | Eof
    | Close
    | Success
    | Failure
    | Other

  /** `status as i32` of a u32. */
  function AsI32(status: nat): int {
    var m := status % TWO32;
    if m < 0x8000_0000 then m else m - TWO32
  }

  /** The i32 with the same 32 bits. */
  lemma AsI32Means(status: nat)
    ensures -0x8000_0000 <= AsI32(status) < 0x8000_0000 && (status - AsI32(status)) % TWO32 == 0
  {
    var m := status % TWO32;
    assert status - m == status / TWO32 * TWO32;
    assert status - m + TWO32 == (status / TWO32 + 1) * TWO32;
  }

  // ----- the master's pump -----

  /** What the pump forwards and the code it returns, `code` being the last status seen so far. */
  function PumpFrom(ms: seq<Msg>, code: int): (seq<Event>, int) {
    if ms == [] then ([], code)
    else
      match ms[0]
      case Data(b) => var r := PumpFrom(ms[1..], code); ([Stdout(b)] + r.0, r.1)
      case ExtendedData(b) => var r := PumpFrom(ms[1..], code); ([Stderr(b)] + r.0, r.1)
      case ExitStatus(s) => PumpFrom(ms[1..], AsI32(s))
      case Eof => ([], code)
      case Close => ([], code)
      case _ => PumpFrom(ms[1..], code)
  }

  function Pump(ms: seq<Msg>): (seq<Event>, int) {
    PumpFrom(ms, 0)
  }

  /** `pump_session_to_uds` */
  method PumpSessionToUds(ms: seq<Msg>, tx: Wire) returns (exitCode: int)
    modifies tx
    ensures tx.bytes == old(tx.bytes) + Encode(Pump(ms).0) && exitCode == Pump(ms).1
  {
    exitCode := 0;
    ghost var sent: seq<Event> := [];
    ghost var all := Pump(ms);
    var i := 0;
    assert ms[0..] == ms && [] + all.0 == all.0 && old(tx.bytes) + Encode([]) == old(tx.bytes);
    while i < |ms|
      invariant 0 <= i <= |ms|
      invariant all == (sent + PumpFrom(ms[i..], exitCode).0, PumpFrom(ms[i..], exitCode).1)
      invariant tx.bytes == old(tx.bytes) + Encode(sent)
    {
      ghost var next := PumpFrom(ms[i + 1..], exitCode);
      assert ms[i..][1..] == ms[i + 1..];
      match ms[i] {
        case Data(b) =>
          tx.WriteDataFrame(1, b);
          OneMoreEvent(old(tx.bytes), sent, Stdout(b), next.0);
          sent := sent + [Stdout(b)];
        case ExtendedData(b) =>
          tx.WriteDataFrame(2, b);
          OneMoreEvent(old(tx.bytes), sent, Stderr(b), next.0);
          sent := sent + [Stderr(b)];
        case ExitStatus(s) =>
          exitCode := AsI32(s);
        case Eof =>
          break;
        case Close =>
          break;
        case _ =>
      }
      i := i + 1;
    }
    assert sent + [] == sent;
  }

  lemma {:induction false} EncodeAppend(a: seq<Event>, b: seq<Event>)
    ensures Encode(a + b) == Encode(a) + Encode(b)
  {
    hide Frame;
    if a == [] {
      assert a + b == b;
    } else {
      assert (a + b)[1..] == a[1..] + b;
      EncodeAppend(a[1..], b);
    }
  }

  lemma OneMoreEvent(before: Bytes, sent: seq<Event>, e: Event, next: seq<Event>)
    ensures before + Encode(sent) + Frame(Tag(e), e.data) == before + Encode(sent + [e])
    ensures sent + ([e] + next) == sent + [e] + next
  {
    hide Frame;
    EncodeAppend(sent, [e]);
    assert [e][1..] == [] && Encode([e]) == Frame(Tag(e), e.data) + [];
  }

  // ----- the reader of a direct session -----

  /** The drain after Eof or Close: the last status among the messages that come in time. */
  function Drain(ms: seq<Msg>, patience: nat, code: int): int {
    if ms == [] || patience == 0 then code
    else Drain(ms[1..], patience - 1, if ms[0].ExitStatus? then AsI32(ms[0].status) else code)
  }

  /** What the reader shows and the code it sends; the drain's timeout lets `patience` messages through. */
  function Reader(ms: seq<Msg>, patience: nat): (seq<Event>, int) {
    if ms == [] then ([], 0)
    else
      match ms[0]
      case Data(b) => var r := Reader(ms[1..], patience); ([Stdout(b)] + r.0, r.1)
      case ExtendedData(b) => var r := Reader(ms[1..], patience); ([Stderr(b)] + r.0, r.1)
      case ExitStatus(s) => ([], AsI32(s))
      case Eof => ([], Drain(ms[1..], patience, 0))
      case Close => ([], Drain(ms[1..], patience, 0))
      case _ => Reader(ms[1..], patience)
  }

  /** The reader task of `run_session`. */
  method ReadChannel(ms: seq<Msg>, patience: nat) returns (shown: seq<Event>, code: int)
    ensures (shown, code) == Reader(ms, patience)
  {
    shown, code := [], 0;
    ghost var all := Reader(ms, patience);
    var i := 0;
    assert ms[0..] == ms && [] + all.0 == all.0;
    while i < |ms|
      invariant 0 <= i <= |ms| && code == 0
      invariant all == (shown + Reader(ms[i..], patience).0, Reader(ms[i..], patience).1)
    {
      assert ms[i..][1..] == ms[i + 1..];
      ghost var next := Reader(ms[i + 1..], patience).0;
      match ms[i] {
        case Data(b) =>
          assert shown + ([Stdout(b)] + next) == shown + [Stdout(b)] + next;
          shown := shown + [Stdout(b)];
        case ExtendedData(b) =>
          assert shown + ([Stderr(b)] + next) == shown + [Stderr(b)] + next;
          shown := shown + [Stderr(b)];
        case ExitStatus(s) =>
          assert shown + [] == shown;
          return shown, AsI32(s);
        case Eof =>
          code := DrainChannel(ms[i + 1..], patience);
          assert shown + [] == shown;
          return;
        case Close =>
          code := DrainChannel(ms[i + 1..], patience);
          assert shown + [] == shown;
          return;
        case _ =>
      }
      i := i + 1;
    }
    assert shown + [] == shown;
  }

  method DrainChannel(ms: seq<Msg>, patience: nat) returns (code: int)
    ensures code == Drain(ms, patience, 0)
  {
    code := 0;
    var i := 0;
    assert ms[0..] == ms;
    while i < |ms| && i < patience
      invariant 0 <= i <= |ms| && i <= patience
      invariant Drain(ms, patience, 0) == Drain(ms[i..], patience - i, code)
    {
      assert ms[i..][1..] == ms[i + 1..];
      if ms[i].ExitStatus? {
        code := AsI32(ms[i].status);
      }
      i := i + 1;
    }
  }

  // ----- closed forms -----

  predicate Ends(m: Msg) {
    m.Eof? || m.Close?
  }

  /** The messages before the first Eof or Close. */
  function Before(ms: seq<Msg>): seq<Msg> {
    if ms == [] || Ends(ms[0]) then [] else [ms[0]] + Before(ms[1..])
  }

  /** The messages behind it. */
  function Behind(ms: seq<Msg>): seq<Msg> {
    if ms == [] then [] else if Ends(ms[0]) then ms[1..] else Behind(ms[1..])
  }

  function UpToStatus(ms: seq<Msg>): seq<Msg> {
    if ms == [] || ms[0].ExitStatus? then [] else [ms[0]] + UpToStatus(ms[1..])
  }

  function AfterStatus(ms: seq<Msg>): seq<Msg> {
    if ms == [] then [] else if ms[0].ExitStatus? then ms[1..] else AfterStatus(ms[1..])
  }

  function Statuses(ms: seq<Msg>): seq<nat> {
    if ms == [] then []
    else if ms[0].ExitStatus? then [ms[0].status] + Statuses(ms[1..])
    else Statuses(ms[1..])
  }

  function EventsOf(ms: seq<Msg>): seq<Event> {
    if ms == [] then []
    else
      match ms[0]
      case Data(b) => [Stdout(b)] + EventsOf(ms[1..])
      case ExtendedData(b) => [Stderr(b)] + EventsOf(ms[1..])
      case _ => EventsOf(ms[1..])
  }

  function LastCode(statuses: seq<nat>, default: int): int {
    if statuses == [] then default else AsI32(statuses[|statuses| - 1])
  }

  /** The pump forwards all data, and reports the last status, before the first Eof or Close. */
  lemma {:induction false} PumpIs(ms: seq<Msg>, code: int)
    ensures PumpFrom(ms, code) == (EventsOf(Before(ms)), LastCode(Statuses(Before(ms)), code))
  {
    if ms != [] && !Ends(ms[0]) {
      assert Before(ms)[1..] == Before(ms[1..]);
      PumpIs(ms[1..], if ms[0].ExitStatus? then AsI32(ms[0].status) else code);
    }
  }

  lemma {:induction false} DrainIs(ms: seq<Msg>, patience: nat, code: int)
    ensures var seen := ms[..if patience < |ms| then patience else |ms|];
            Drain(ms, patience, code) == LastCode(Statuses(seen), code)
  {
    if ms != [] && patience > 0 {
      var n := if patience < |ms| then patience else |ms|;
      assert ms[..n][1..] == ms[1..][..n - 1];
      DrainIs(ms[1..], patience - 1, if ms[0].ExitStatus? then AsI32(ms[0].status) else code);
    }
  }

  /** The messages behind the end that the drain gets to see. */
  function Drained(ms: seq<Msg>, patience: nat): seq<Msg> {
    Behind(ms)[..if patience < |Behind(ms)| then patience else |Behind(ms)|]
  }

  lemma {:induction false} ReaderShows(ms: seq<Msg>, patience: nat)
    ensures Reader(ms, patience).0 == EventsOf(UpToStatus(Before(ms)))
  {
    hide AsI32, Drain;
    if ms != [] && !Ends(ms[0]) && !ms[0].ExitStatus? {
      assert Before(ms)[1..] == Before(ms[1..]);
      assert UpToStatus(Before(ms))[1..] == UpToStatus(Before(ms[1..]));
      ReaderShows(ms[1..], patience);
    }
  }

  lemma {:induction false} ReaderCode(ms: seq<Msg>, patience: nat)
    ensures Reader(ms, patience).1 ==
              (if Statuses(Before(ms)) != [] then AsI32(Statuses(Before(ms))[0])
               else LastCode(Statuses(Drained(ms, patience)), 0))
  {
    hide AsI32, LastCode;
    if ms == [] {
      assert Drained(ms, patience) == [];
      NoCode(0);
    } else if Ends(ms[0]) {
      DrainIs(ms[1..], patience, 0);
    } else {
      assert Before(ms)[1..] == Before(ms[1..]);
      if !ms[0].ExitStatus? {
        ReaderCode(ms[1..], patience);
      }
    }
  }

  lemma NoCode(default: int)
    ensures LastCode([], default) == default
  {
  }

  /** The direct reader shows data only up to the first status; that status is its code, or else the last one the drain
      sees. */
  lemma ReaderIs(ms: seq<Msg>, patience: nat)
    ensures Reader(ms, patience) ==
              (EventsOf(UpToStatus(Before(ms))),
               if Statuses(Before(ms)) != [] then AsI32(Statuses(Before(ms))[0])
               else LastCode(Statuses(Drained(ms, patience)), 0))
  {
    hide *;
    ReaderShows(ms, patience);
    ReaderCode(ms, patience);
  }

  // ----- do the two agree? -----

  function StdoutOf(es: seq<Event>): Bytes {
    if es == [] then [] else (if es[0].Stdout? then es[0].data else []) + StdoutOf(es[1..])
  }

  function StderrOf(es: seq<Event>): Bytes {
    if es == [] then [] else (if es[0].Stderr? then es[0].data else []) + StderrOf(es[1..])
  }

  ghost predicate SameOutput(a: seq<Event>, b: seq<Event>) {
    StdoutOf(a) == StdoutOf(b) && StderrOf(a) == StderrOf(b)
  }

  ghost predicate NoBytes(ms: seq<Msg>) {
    forall i :: 0 <= i < |ms| && (ms[i].Data? || ms[i].ExtendedData?) ==> ms[i].bytes == []
  }

  lemma OutputStep(a: seq<Event>)
    requires a != []
    ensures StdoutOf(a) == (if a[0].Stdout? then a[0].data else []) + StdoutOf(a[1..])
    ensures StderrOf(a) == (if a[0].Stderr? then a[0].data else []) + StderrOf(a[1..])
  {
  }

  lemma {:induction false} OutputAppend(a: seq<Event>, b: seq<Event>)
    ensures StdoutOf(a + b) == StdoutOf(a) + StdoutOf(b) && StderrOf(a + b) == StderrOf(a) + StderrOf(b)
  {
    if a == [] {
      assert a + b == b;
    } else {
      hide StdoutOf, StderrOf;
      assert (a + b)[1..] == a[1..] + b && (a + b)[0] == a[0];
      OutputAppend(a[1..], b);
      OutputStep(a);
      OutputStep(a + b);
      Joined(if a[0].Stdout? then a[0].data else [], StdoutOf(a[1..]), StdoutOf(b));
      Joined(if a[0].Stderr? then a[0].data else [], StderrOf(a[1..]), StderrOf(b));
    }
  }

  lemma {:induction false} SplitAtStatus(ms: seq<Msg>)
    ensures EventsOf(ms) == EventsOf(UpToStatus(ms)) + EventsOf(AfterStatus(ms))
  {
    if ms != [] && !ms[0].ExitStatus? {
      assert UpToStatus(ms)[1..] == UpToStatus(ms[1..]);
      SplitAtStatus(ms[1..]);
    }
  }

  lemma {:induction false} NoBytesIff(ms: seq<Msg>)
    ensures NoBytes(ms) <==> StdoutOf(EventsOf(ms)) == [] && StderrOf(EventsOf(ms)) == []
  {
    if ms != [] {
      NoBytesIff(ms[1..]);
      assert EventsOf(ms)[..] == EventsOf(ms);
      assert NoBytes(ms) <==> NoBytes(ms[1..]) && (ms[0].Data? || ms[0].ExtendedData? ==> ms[0].bytes == []) by {
        assert forall i :: 0 < i < |ms| ==> ms[i] == ms[1..][i - 1];
        if NoBytes(ms) {
          forall i | 0 <= i < |ms[1..]| ensures ms[1..][i] == ms[i + 1] {}
        }
      }
      if ms[0].Data? || ms[0].ExtendedData? {
        assert EventsOf(ms)[1..] == EventsOf(ms[1..]);
      }
    }
  }

  /** A direct and a resumed session show the same bytes if and only if no data lies between the first status and the
      first Eof or Close: there the resumed session shows more. */
  lemma SameOutputIff(ms: seq<Msg>, patience: nat)
    ensures SameOutput(Reader(ms, patience).0, Pump(ms).0) <==> NoBytes(AfterStatus(Before(ms)))
  {
    PumpIs(ms, 0);
    ReaderIs(ms, patience);
    var shared, extra := EventsOf(UpToStatus(Before(ms))), EventsOf(AfterStatus(Before(ms)));
    SplitAtStatus(Before(ms));
    OutputAppend(shared, extra);
    NoBytesIff(AfterStatus(Before(ms)));
    assert StdoutOf(shared) + StdoutOf(extra) == StdoutOf(shared) <==> StdoutOf(extra) == [] by {
      assert |StdoutOf(shared) + StdoutOf(extra)| == |StdoutOf(shared)| + |StdoutOf(extra)|;
      assert StdoutOf(shared) + [] == StdoutOf(shared);
    }
    assert StderrOf(shared) + StderrOf(extra) == StderrOf(shared) <==> StderrOf(extra) == [] by {
      assert |StderrOf(shared) + StderrOf(extra)| == |StderrOf(shared)| + |StderrOf(extra)|;
      assert StderrOf(shared) + [] == StderrOf(shared);
    }
  }

  /** Their exit codes agree modulo 256 exactly when the first and the last status before the end do; when there is none
      before it, exactly when whatever the direct session drains is 0 modulo 256, for the resumed one reports 0. */
  lemma SameCodeIff(ms: seq<Msg>, patience: nat)
    ensures Reader(ms, patience).1 % 256 == Pump(ms).1 % 256 <==>
              var st := Statuses(Before(ms));
              if st != [] then st[0] % 256 == st[|st| - 1] % 256
              else LastCode(Statuses(Drained(ms, patience)), 0) % 256 == 0
  {
    PumpIs(ms, 0);
    ReaderIs(ms, patience);
    var st := Statuses(Before(ms));
    if st != [] {
      LowByte(st[0]);
      LowByte(st[|st| - 1]);
    }
  }

  lemma LowByte(status: nat)
    ensures AsI32(status) % 256 == status % 256
  {
    var m := status % TWO32;
    assert status == status / TWO32 * TWO32 + m;
    assert TWO32 == 256 * 0x100_0000;
    assert status == 256 * (status / TWO32 * 0x100_0000) + m;
  }

  lemma {:induction false} NoStatusesInPrefix(ms: seq<Msg>, n: nat)
    requires n <= |ms| && Statuses(ms) == []
    ensures Statuses(ms[..n]) == []
  {
    if n > 0 {
      assert ms[..n][1..] == ms[1..][..n - 1];
      NoStatusesInPrefix(ms[1..], n - 1);
    }
  }
}

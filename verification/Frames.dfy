/** The framing of src/control.rs between a control master and a resume client. */
module Frames {
  import opened Basics

  const TWO32 := 0x1_0000_0000

  // ----- big-endian lengths -----

  /** `(n as u32).to_be_bytes()`: a length that does not fit is cut down. */
  function BigEndian(n: nat): (b: Bytes)
    ensures |b| == 4
  {
    var m := n % TWO32;
    [m / 0x100_0000, m / 0x1_0000 % 256, m / 256 % 256, m % 256]
  }

  function FromBigEndian(b: Bytes): (n: nat)
    requires |b| == 4
    ensures n < TWO32
  {
    b[0] as int * 0x100_0000 + b[1] as int * 0x1_0000 + b[2] as int * 256 + b[3] as int
  }

  lemma LengthSurvives(n: nat)
    ensures FromBigEndian(BigEndian(n)) == n % TWO32
  {
    var m := n % TWO32;
    assert m == m / 256 * 256 + m % 256;
    assert m / 0x1_0000 == m / 256 / 256;
    assert m / 256 == m / 0x1_0000 * 256 + m / 256 % 256;
    assert m / 0x100_0000 == m / 0x1_0000 / 256;
    assert m / 0x1_0000 == m / 0x100_0000 * 256 + m / 0x1_0000 % 256;
  }

  lemma Digits256(n: nat)
    ensures n / 0x1_0000 == n / 256 / 256 && n / 0x100_0000 == n / 256 / 256 / 256
  {
  }

  lemma TopDigit(n: nat)
    requires n < TWO32
    ensures n / 256 / 256 / 256 < 256
  {
  }

  /** The four bytes are the length in base 256, the most significant first. */
  lemma BigEndianMeans(n: nat)
    requires n < TWO32
    ensures var b := BigEndian(n); n == ((b[0] as int * 256 + b[1] as int) * 256 + b[2] as int) * 256 + b[3] as int
  {
    hide BigEndian;
    var q1 := n / 256;
    var q2 := q1 / 256;
    var q3 := q2 / 256;
    BigEndianIs(n);
    Horner(n, q1, q2, q3);
  }

  lemma BigEndianIs(n: nat)
    requires n < TWO32
    ensures BigEndian(n) == [n / 256 / 256 / 256, n / 256 / 256 % 256, n / 256 % 256, n % 256]
  {
    Below32(n);
    Digits256(n);
    TopDigit(n);
  }

  lemma Below32(n: nat)
    requires n < TWO32
    ensures n % TWO32 == n
  {
  }

  lemma Horner(n: nat, q1: nat, q2: nat, q3: nat)
    requires q1 == n / 256 && q2 == q1 / 256 && q3 == q2 / 256
    ensures n == ((q3 * 256 + q2 % 256) * 256 + q1 % 256) * 256 + n % 256
  {
  }

  /** `code as u8` of an i32. */
  function AsU8(code: int): Byte {
    code % 256
  }

  // ----- frames -----

  /** What a resume client shows: a piece of standard output or of standard error. */
  datatype Event = Stdout(data: Bytes) | Stderr(data: Bytes)

  function Tag(e: Event): Byte {
    if e.Stdout? then 1 else 2
  }

  function Frame(tag: Byte, payload: Bytes): Bytes {
    BigEndian(|payload|) + [tag] + payload
  }

  function DoneFrame(code: int): Bytes {
    Frame(0, [AsU8(code)])
  }

  function Encode(events: seq<Event>): Bytes {
    if events == [] then [] else Frame(Tag(events[0]), events[0].data) + Encode(events[1..])
  }

  /** One end of the socket: the bytes on their way, and nothing more once they are used up. */
  class Wire {
    var bytes: Bytes

    constructor (bytes: Bytes)
      ensures this.bytes == bytes
    {
      this.bytes := bytes;
    }

    method WriteAll(b: Bytes)
      modifies this
      ensures bytes == old(bytes) + b
    {
      bytes := bytes + b;
    }

    /** `read_exact`; at the end of the stream it fails, having taken what there was. */
    method ReadExact(n: nat) returns (r: Option<Bytes>)
      modifies this
      ensures |old(bytes)| >= n ==> r == Some(old(bytes)[..n]) && bytes == old(bytes)[n..]
      ensures |old(bytes)| < n ==> r.None? && bytes == []
    {
      if |bytes| < n {
        bytes := [];
        return None;
      }
      r := Some(bytes[..n]);
      bytes := bytes[n..];
    }

    /** `write_data_frame` */
    method WriteDataFrame(tag: Byte, payload: Bytes)
      modifies this
      ensures bytes == old(bytes) + Frame(tag, payload)
    {
      var header := new Byte[5];
      var len := BigEndian(|payload|);
      header[0], header[1], header[2], header[3] := len[0], len[1], len[2], len[3];
      header[4] := tag;
      assert header[..] == len + [tag];
      WriteAll(header[..]);
      WriteAll(payload);
    }

    /** `write_done` */
    method WriteDone(code: int)
      modifies this
      ensures bytes == old(bytes) + DoneFrame(code)
    {
      var header := new Byte[5];
      header[0], header[1], header[2], header[3], header[4] := 0, 0, 0, 1, 0;
      assert header[..] == BigEndian(1) + [0];
      WriteAll(header[..]);
      WriteAll([AsU8(code)]);
    }

    /** `write_cmd_frame` */
    method WriteCmdFrame(payload: Bytes)
      modifies this
      ensures bytes == old(bytes) + BigEndian(|payload|) + payload
    {
      WriteAll(BigEndian(|payload|));
      WriteAll(payload);
    }

    /** `read_cmd_frame`: a stream that ends within the length counts as closed, one that ends within the payload is an
        error. */
    method ReadCmdFrame() returns (r: Result<Option<Bytes>, ()>)
      modifies this
      ensures (r, bytes) == CmdFrame(old(bytes))
    {
      hide BigEndian, FromBigEndian;
      var header := ReadExact(4);
      if header.None? {
        return Ok(None);
      }
      var len := FromBigEndian(header.value);
      ghost var rest := bytes;
      var payload := ReadExact(len);
      assert |rest| >= len ==> rest[..len] == old(bytes)[4..4 + len] && rest[len..] == old(bytes)[4 + len..];
      r := if payload.None? then Err(()) else Ok(payload);
    }

    /** The read loop of `try_resume`: the exit code, or `None` on a protocol violation; `shown` is what reached the
        terminal. */
    method TryResume(quiet: bool) returns (code: Option<int>, shown: seq<Event>)
      modifies this
      ensures var v := ReadFrames(old(bytes));
              code == (if v.Exit? then Some(v.code) else None) &&
              shown == (if quiet then [] else v.events) && (v.Exit? ==> bytes == v.rest)
    {
      hide BigEndian, FromBigEndian;
      shown := [];
      ghost var all: seq<Event> := [];
      ghost var view := ReadFrames(bytes);
      assert [] + view.events == view.events;
      while true
        invariant ReadFrames(old(bytes)) == Shift(all, ReadFrames(bytes))
        invariant shown == if quiet then [] else all
        decreases |bytes|
      {
        ghost var before := bytes;
        var header := ReadExact(5);
        if header.None? {
          return None, shown;
        }
        var len, tag := FromBigEndian(header.value[..4]), header.value[4];
        assert before[..5][..4] == before[..4];
        var payload := ReadExact(len);
        if payload.None? {
          return None, shown;
        }
        assert before[5..][..len] == before[5..5 + len] && before[5..][len..] == before[5 + len..];
        match tag {
          case 1 =>
            ShiftMore(all, Stdout(payload.value), ReadFrames(bytes));
            all := all + [Stdout(payload.value)];
            if !quiet {
              shown := shown + [Stdout(payload.value)];
            }
          case 2 =>
            ShiftMore(all, Stderr(payload.value), ReadFrames(bytes));
            all := all + [Stderr(payload.value)];
            if !quiet {
              shown := shown + [Stderr(payload.value)];
            }
          case 0 =>
            return Some(if payload.value == [] then 0 else payload.value[0]), shown;
          case _ =>
            return None, shown;
        }
      }
    }
  }

  function CmdFrame(b: Bytes): (Result<Option<Bytes>, ()>, Bytes) {
    if |b| < 4 then (Ok(None), [])
    else
      var len := FromBigEndian(b[..4]);
      if |b| - 4 < len then (Err(()), []) else (Ok(Some(b[4..4 + len])), b[4 + len..])
  }

  // ----- what the client reads -----

  datatype View = Exit(events: seq<Event>, code: int, rest: Bytes) | Broken(events: seq<Event>)

  function Cons(e: Event, v: View): View {
    v.(events := [e] + v.events)
  }

  function Shift(es: seq<Event>, v: View): View {
    v.(events := es + v.events)
  }

  lemma ShiftMore(es: seq<Event>, e: Event, v: View)
    ensures Shift(es, Cons(e, v)) == Shift(es + [e], v)
  {
    assert es + ([e] + v.events) == es + [e] + v.events;
  }

  function ReadFrames(b: Bytes): View
    decreases |b|
  {
    if |b| < 5 then Broken([])
    else
      var len, tag := FromBigEndian(b[..4]), b[4];
      if |b| - 5 < len then Broken([])
      else
        var payload, rest := b[5..5 + len], b[5 + len..];
        if tag == 1 then Cons(Stdout(payload), ReadFrames(rest))
        else if tag == 2 then Cons(Stderr(payload), ReadFrames(rest))
        else if tag == 0 then Exit([], if payload == [] then 0 else payload[0], rest)
        else Broken([])
  }

  // ----- round trips -----

  lemma FrameHeader(tag: Byte, payload: Bytes, more: Bytes)
    ensures var b := Frame(tag, payload) + more;
            && |b| == 5 + |payload| + |more|
            && FromBigEndian(b[..4]) == |payload| % TWO32 && b[4] == tag
            && b[5..] == payload + more
  {
    hide BigEndian, FromBigEndian;
    LengthSurvives(|payload|);
    assert (Frame(tag, payload) + more)[..4] == BigEndian(|payload|);
  }

  /** What follows the header, cut in two. */
  lemma CutBehind(b: Bytes, first: Bytes, rest: Bytes)
    requires |b| >= 5 && b[5..] == first + rest
    ensures |b| == 5 + |first| + |rest| && b[5..5 + |first|] == first && b[5 + |first|..] == rest
  {
    assert b[5..5 + |first|] == b[5..][..|first|];
    assert b[5 + |first|..] == b[5..][|first|..];
  }

  lemma ReadOneFrame(e: Event, more: Bytes)
    requires |e.data| < TWO32
    ensures ReadFrames(Frame(Tag(e), e.data) + more) == Cons(e, ReadFrames(more))
  {
    hide BigEndian, FromBigEndian, Frame;
    var b := Frame(Tag(e), e.data) + more;
    FrameHeader(Tag(e), e.data, more);
    CutBehind(b, e.data, more);
  }

  ghost predicate AllFit(events: seq<Event>) {
    forall i :: 0 <= i < |events| ==> |events[i].data| < TWO32
  }

  /** The client recovers the events in order and the exit code modulo 256, and reads not one byte too many. */
  lemma {:induction false} FramesRoundTrip(events: seq<Event>, code: int, rest: Bytes)
    requires AllFit(events)
    ensures ReadFrames(Encode(events) + DoneFrame(code) + rest) == Exit(events, code % 256, rest)
  {
    hide Frame, DoneFrame, ReadFrames;
    if events == [] {
      assert Encode(events) + DoneFrame(code) + rest == DoneFrame(code) + rest;
      ReadDone(code, rest);
    } else {
      var first := Frame(Tag(events[0]), events[0].data);
      var more := Encode(events[1..]) + DoneFrame(code) + rest;
      Joined(first, Encode(events[1..]), DoneFrame(code));
      Joined(first, Encode(events[1..]) + DoneFrame(code), rest);
      ReadOneFrame(events[0], more);
      FramesRoundTrip(events[1..], code, rest);
    }
  }

  lemma ReadDone(code: int, rest: Bytes)
    ensures ReadFrames(DoneFrame(code) + rest) == Exit([], code % 256, rest)
  {
    hide BigEndian, FromBigEndian, Frame;
    var b := DoneFrame(code) + rest;
    FrameHeader(0, [AsU8(code)], rest);
    CutBehind(b, [AsU8(code)], rest);
  }

  /** Any other last frame: tag 0 ends with the first byte of its payload, or 0 when there is none, and a tag that is
      not known is an error, which shows all that came before it. */
  lemma {:induction false} LastFrame(events: seq<Event>, tag: Byte, payload: Bytes, rest: Bytes)
    requires AllFit(events) && |payload| < TWO32 && tag != 1 && tag != 2
    ensures ReadFrames(Encode(events) + (Frame(tag, payload) + rest)) ==
              if tag > 0 then Broken(events) else Exit(events, if payload == [] then 0 else payload[0], rest)
  {
    hide Frame, ReadFrames;
    var last := Frame(tag, payload) + rest;
    if events == [] {
      assert Encode(events) + last == last;
      ReadLast(tag, payload, rest);
    } else {
      var first := Frame(Tag(events[0]), events[0].data);
      Joined(first, Encode(events[1..]), last);
      ReadOneFrame(events[0], Encode(events[1..]) + last);
      LastFrame(events[1..], tag, payload, rest);
      assert [events[0]] + events[1..] == events;
    }
  }

  lemma ReadLast(tag: Byte, payload: Bytes, rest: Bytes)
    requires |payload| < TWO32 && tag != 1 && tag != 2
    ensures ReadFrames(Frame(tag, payload) + rest) ==
              if tag > 0 then Broken([]) else Exit([], if payload == [] then 0 else payload[0], rest)
  {
    hide BigEndian, FromBigEndian, Frame;
    var last := Frame(tag, payload) + rest;
    FrameHeader(tag, payload, rest);
    CutBehind(last, payload, rest);
  }

  /** An oversized payload is never read back whole. */
  lemma OversizedFrame(e: Event, more: Bytes)
    requires |e.data| >= TWO32
    ensures var v := ReadFrames(Frame(Tag(e), e.data) + more); v.events != [] && |v.events[0].data| < |e.data|
  {
    hide BigEndian, FromBigEndian;
    FrameHeader(Tag(e), e.data, more);
  }

  /** The first payload of 2^32 bytes or more is read short: the round trip holds exactly when all payloads fit. */
  lemma {:induction false} RoundTripIffFits(events: seq<Event>, code: int, rest: Bytes)
    ensures ReadFrames(Encode(events) + DoneFrame(code) + rest) == Exit(events, code % 256, rest) <==> AllFit(events)
  {
    hide BigEndian, FromBigEndian, Frame;
    if AllFit(events) {
      FramesRoundTrip(events, code, rest);
    } else {
      var more := Encode(events[1..]) + DoneFrame(code) + rest;
      var b := Encode(events) + DoneFrame(code) + rest;
      assert b == Frame(Tag(events[0]), events[0].data) + more;
      if |events[0].data| < TWO32 {
        ReadOneFrame(events[0], more);
        RoundTripIffFits(events[1..], code, rest);
      } else {
        OversizedFrame(events[0], more);
      }
    }
  }

  /** A frame cut short shows nothing. */
  lemma CutFrame(tag: Byte, payload: Bytes, n: nat)
    requires |payload| < TWO32 && n < |Frame(tag, payload)|
    ensures ReadFrames(Frame(tag, payload)[..n]) == Broken([])
  {
    hide BigEndian, FromBigEndian;
    var b := Frame(tag, payload);
    if n >= 5 {
      FrameHeader(tag, payload, []);
      assert b + [] == b;
      assert b[..n][..4] == b[..4];
      ShortFrame(b[..n]);
    }
  }

  /** A stream that is cut anywhere before its end gives an error and no exit code, having shown only events that were
      sent. */
  lemma {:induction false} CutStreamFails(events: seq<Event>, code: int, n: nat)
    requires AllFit(events) && n < |Encode(events) + DoneFrame(code)|
    ensures var v := ReadFrames((Encode(events) + DoneFrame(code))[..n]);
            v.Broken? && v.events <= events
  {
    hide Frame, ReadFrames;
    var b := Encode(events) + DoneFrame(code);
    if events == [] {
      assert b == Frame(0, [AsU8(code)]);
      CutFrame(0, [AsU8(code)], n);
    } else {
      var e := events[0];
      var first, more := Frame(Tag(e), e.data), Encode(events[1..]) + DoneFrame(code);
      assert b == first + more;
      if n < |first| {
        assert b[..n] == first[..n];
        CutFrame(Tag(e), e.data, n);
      } else {
        assert b[..n] == first + more[..n - |first|];
        ReadOneFrame(e, more[..n - |first|]);
        CutStreamFails(events[1..], code, n - |first|);
        assert events == [e] + events[1..];
      }
    }
  }

  /** The command frame: what the client sends is what the master reads, when its length fits. */
  lemma CmdFrameRoundTrip(payload: Bytes, rest: Bytes)
    requires |payload| < TWO32
    ensures CmdFrame(BigEndian(|payload|) + payload + rest) == (Ok(Some(payload)), rest)
  {
    hide BigEndian, FromBigEndian;
    var b := BigEndian(|payload|) + payload + rest;
    LengthSurvives(|payload|);
    assert b[..4] == BigEndian(|payload|);
    assert b[4..4 + |payload|] == payload;
    assert b[4 + |payload|..] == rest;
  }

  /** Cut within its length the command counts as a closed connection, cut within its payload it is an error. */
  lemma CutCommand(payload: Bytes, n: nat)
    requires |payload| < TWO32 && n < 4 + |payload|
    ensures CmdFrame((BigEndian(|payload|) + payload)[..n]) == (if n < 4 then Ok(None) else Err(()), [])
  {
    hide BigEndian, FromBigEndian;
    if n >= 4 {
      LengthSurvives(|payload|);
      assert (BigEndian(|payload|) + payload)[..n][..4] == BigEndian(|payload|);
    }
  }

  /** The master's answer to a control verb has no tag: a resume client never takes one for an exit code.  Its fifth
      byte, the first letter of "ok ..." or "bye", is no tag, and the length is one too long besides. */
  lemma ControlReplyIsNoExit(reply: Bytes)
    requires 0 < |reply| < TWO32
    ensures ReadFrames(BigEndian(|reply|) + reply) == Broken([])
  {
    hide BigEndian, FromBigEndian, ReadFrames;
    var b := BigEndian(|reply|) + reply;
    LengthSurvives(|reply|);
    assert b[..4] == BigEndian(|reply|);
    assert FromBigEndian(b[..4]) == |reply| && |b| - 5 < |reply|;
    ShortFrame(b);
  }

  lemma ShortFrame(b: Bytes)
    requires |b| >= 5 && |b| - 5 < FromBigEndian(b[..4])
    ensures ReadFrames(b) == Broken([])
  {
    hide FromBigEndian;
  }
}

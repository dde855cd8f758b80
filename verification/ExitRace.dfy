/**
 The race for the exit code of a direct session (src/ssh.rs): the connection task, which queues each frame and then
 calls the handler, the reader task, and `run_session` itself, in any interleaving.
 */
module ExitRace {
  import opened Basics
  import opened Channel

  datatype ReaderPc =
    | Reading          // the main loop
    | Draining         // after Eof or Close
    | Ending           // the code is about to be sent
    | Sent
    | Finished

  datatype MainPc =
    | Waiting              // in `select!`
    | Selected(code: int, fromReader: bool)  // before the lookup in the shared map; whether the oneshot was taken
    | Returned(code: int)

  datatype State = State(
    served: seq<nat>,        // the statuses the server has sent
    pending: Option<nat>,    // the one queued whose callback has not run yet
    recorded: seq<nat>,      // the ones the callback has recorded
    captured: Option<nat>,   // the shared map's entry for the channel
    queue: seq<Msg>,
    dropped: bool,           // the channel's sender is gone
    consumed: seq<Msg>,      // what the reader has taken from the queue
    reader: ReaderPc,
    code: int,
    oneshot: Option<int>,
    main: MainPc)

  datatype Action =
    | Serve(status: nat)     // an exit-status frame arrives: queued, if the channel is still there
    | Callback               // `Handler::exit_status` for that frame
    | Deliver(m: Msg)        // any other message
    | Drop
    | Read                   // one `rx.wait()` of the reader
    | Timeout                // the drain's five seconds are over
    | SendCode
    | Finish
    | Die                    // the reader task ends without having sent
    | SelectCode             // `select!` takes the oneshot
    | SelectJoin             // `select!` takes the finished task, or finds the oneshot closed
    | Lookup

  const START := State([], None, [], None, [], false, [], Reading, 0, None, Waiting)

  predicate Enabled(s: State, a: Action) {
    match a
    case Serve(_) => s.pending.None?
    case Callback => s.pending.Some?
    case Deliver(m) => s.pending.None? && !s.dropped && !m.ExitStatus?
    case Drop => s.pending.None? && !s.dropped
    case Read => (s.reader.Reading? || s.reader.Draining?) && (s.queue != [] || s.dropped)
    case Timeout => s.reader.Draining?
    case SendCode => s.reader.Ending?
    case Finish => s.reader.Sent?
    case Die => s.reader.Reading? || s.reader.Draining? || s.reader.Ending?
    case SelectCode => s.main.Waiting? && s.oneshot.Some?
    case SelectJoin => s.main.Waiting? && s.reader.Finished?
    case Lookup => s.main.Selected?
  }

  function ReadOne(s: State): State
    requires Enabled(s, Read)
  {
    if s.queue == [] then s.(reader := Ending)
    else
      var m, rest := s.queue[0], s.(queue := s.queue[1..], consumed := s.consumed + [s.queue[0]]);
      if s.reader.Reading? then
        match m
        case ExitStatus(status) => rest.(reader := Ending, code := AsI32(status))
        case Eof => rest.(reader := Draining)
        case Close => rest.(reader := Draining)
        case _ => rest
      else if m.ExitStatus? then rest.(code := AsI32(m.status))
      else rest
  }

  function Next(s: State, a: Action): State
    requires Enabled(s, a)
  {
    match a
    case Serve(status) =>
      s.(served := s.served + [status], pending := Some(status),
         queue := if s.dropped then s.queue else s.queue + [ExitStatus(status)])
    case Callback => s.(pending := None, recorded := s.recorded + [s.pending.value], captured := Some(s.pending.value))
    case Deliver(m) => s.(queue := s.queue + [m])
    case Drop => s.(dropped := true)
    case Read => ReadOne(s)
    case Timeout => s.(reader := Ending)
    case SendCode => s.(reader := Sent, oneshot := Some(s.code))
    case Finish => s.(reader := Finished)
    case Die => s.(reader := Finished)
    case SelectCode => s.(main := Selected(s.oneshot.value, true))
    case SelectJoin => s.(main := Selected(0, false))
    case Lookup =>
      s.(main := Returned(if s.captured.Some? then AsI32(s.captured.value) else s.main.code), captured := None)
  }

  predicate IsRun(s: State, run: seq<Action>)
    decreases run
  {
    run == [] || (Enabled(s, run[0]) && IsRun(Next(s, run[0]), run[1..]))
  }

  function After(s: State, run: seq<Action>): State
    requires IsRun(s, run)
    decreases run
  {
    if run == [] then s else After(Next(s, run[0]), run[1..])
  }

  // ----- what every interleaving keeps -----

  /** 0, or a status the server sent. */
  ghost predicate Honest(s: State, code: int) {
    code == 0 || exists i :: 0 <= i < |s.served| && code == AsI32(s.served[i])
  }

  /** Every code that is about is honest. */
  ghost predicate CodesHonest(s: State) {
    && Honest(s, s.code)
    && (s.oneshot.Some? ==> Honest(s, s.oneshot.value))
    && (!s.main.Waiting? ==> Honest(s, s.main.code))
    && QueueHonest(s, s.queue)
  }

  ghost predicate QueueHonest(s: State, queue: seq<Msg>) {
    forall i :: 0 <= i < |queue| && queue[i].ExitStatus? ==> Honest(s, AsI32(queue[i].status))
  }

  /** The shared map holds the last status recorded, until it is looked up. */
  ghost predicate MapExact(s: State) {
    && (s.captured.Some? ==> s.recorded != [] && s.captured.value == s.recorded[|s.recorded| - 1])
    && (!s.main.Returned? && s.recorded != [] ==> s.captured.Some?)
    && s.served == s.recorded + (if s.pending.Some? then [s.pending.value] else [])
  }

  ghost predicate Inv(s: State) {
    CodesHonest(s) && MapExact(s)
  }

  lemma StillHonest(s: State, s': State, code: int)
    requires Honest(s, code) && |s.served| <= |s'.served| && s'.served[..|s.served|] == s.served
    ensures Honest(s', code)
  {
    if code != 0 {
      var i :| 0 <= i < |s.served| && code == AsI32(s.served[i]);
      assert s'.served[i] == s'.served[..|s.served|][i];
    }
  }

  lemma StepKeepsMap(s: State, a: Action)
    requires MapExact(s) && Enabled(s, a)
    ensures MapExact(Next(s, a))
  {
    hide AsI32, Honest;
  }

  lemma StepKeepsCodes(s: State, a: Action)
    requires CodesHonest(s) && MapExact(s) && Enabled(s, a)
    ensures CodesHonest(Next(s, a))
  {
    hide Honest, QueueHonest, Next, Enabled, MapExact;
    StepKeepsReaderCodes(s, a);
    StepKeepsMainCode(s, a);
    StepKeepsQueue(s, a);
  }

  lemma StepKeepsReaderCodes(s: State, a: Action)
    requires CodesHonest(s) && Enabled(s, a)
    ensures var s' := Next(s, a); Honest(s', s'.code) && (s'.oneshot.Some? ==> Honest(s', s'.oneshot.value))
  {
    hide AsI32, Honest, QueueHonest;
    var s' := Next(s, a);
    assert s'.served[..|s.served|] == s.served;
    StillHonest(s, s', s.code);
    if s.oneshot.Some? { StillHonest(s, s', s.oneshot.value); }
    if a.Read? && s.queue != [] {
      HeadIsHonest(s);
      StillHonest(s, s', if s.queue[0].ExitStatus? then AsI32(s.queue[0].status) else 0);
    }
  }

  lemma StepKeepsMainCode(s: State, a: Action)
    requires CodesHonest(s) && MapExact(s) && Enabled(s, a)
    ensures var s' := Next(s, a); !s'.main.Waiting? ==> Honest(s', s'.main.code)
  {
    hide AsI32, Honest, QueueHonest;
    var s' := Next(s, a);
    assert s'.served[..|s.served|] == s.served;
    ZeroIsHonest(s');
    if s.oneshot.Some? { StillHonest(s, s', s.oneshot.value); }
    if !s.main.Waiting? { StillHonest(s, s', s.main.code); }
    if a.Lookup? && s.captured.Some? {
      ServedIsHonest(s', |s.recorded| - 1);
    }
  }

  lemma HeadIsHonest(s: State)
    requires QueueHonest(s, s.queue) && s.queue != []
    ensures Honest(s, if s.queue[0].ExitStatus? then AsI32(s.queue[0].status) else 0)
  {
    hide AsI32;
  }

  lemma StepKeepsQueue(s: State, a: Action)
    requires QueueHonest(s, s.queue) && Enabled(s, a)
    ensures QueueHonest(Next(s, a), Next(s, a).queue)
  {
    hide AsI32, Honest;
    var s' := Next(s, a);
    assert s'.served[..|s.served|] == s.served;
    QueueStaysHonest(s, s', s.queue);
    if a.Serve? {
      ServedIsHonest(s', |s.served|);
    }
    if a.Read? && s.queue != [] {
      assert s'.queue == s.queue[1..];
    }
  }

  lemma QueueStaysHonest(s: State, s': State, queue: seq<Msg>)
    requires |s.served| <= |s'.served| && s'.served[..|s.served|] == s.served && QueueHonest(s, queue)
    ensures QueueHonest(s', queue)
  {
    hide AsI32, Honest;
    forall i | 0 <= i < |queue| && queue[i].ExitStatus? ensures Honest(s', AsI32(queue[i].status)) {
      StillHonest(s, s', AsI32(queue[i].status));
    }
  }

  lemma StepKeeps(s: State, a: Action)
    requires Inv(s) && Enabled(s, a)
    ensures Inv(Next(s, a))
  {
    hide CodesHonest, MapExact;
    StepKeepsMap(s, a);
    StepKeepsCodes(s, a);
  }

  lemma ZeroIsHonest(s: State)
    ensures Honest(s, 0)
  {
  }

  lemma ServedIsHonest(s: State, i: nat)
    requires i < |s.served|
    ensures Honest(s, AsI32(s.served[i]))
  {
  }

  lemma {:induction false} RunKeeps(s: State, run: seq<Action>)
    requires Inv(s) && IsRun(s, run)
    ensures Inv(After(s, run))
    decreases run
  {
    hide Inv;
    if run != [] {
      StepKeeps(s, run[0]);
      RunKeeps(Next(s, run[0]), run[1..]);
    }
  }

  /** In every run the code returned is 0 or a status the server sent. */
  lemma ReturnedIsHonest(run: seq<Action>)
    requires IsRun(START, run) && After(START, run).main.Returned?
    ensures Honest(After(START, run), After(START, run).main.code)
  {
    RunKeeps(START, run);
  }

  /** A callback that has run before the lookup decides, whatever the reader and `select!` made of the rest. */
  lemma CallbackDecides(run: seq<Action>)
    requires IsRun(START, run)
    requires var s := After(START, run); s.main.Selected? && s.recorded != []
    ensures var s := After(START, run);
            Next(s, Lookup).main == Returned(AsI32(s.recorded[|s.recorded| - 1]))
  {
    RunKeeps(START, run);
  }

  /** So when the connection task has dealt with every status by then, the last one sent is the result. */
  lemma LastServedDecides(run: seq<Action>)
    requires IsRun(START, run)
    requires var s := After(START, run); s.main.Selected? && s.served != [] && s.pending.None?
    ensures var s := After(START, run);
            Next(s, Lookup).main == Returned(AsI32(s.served[|s.served| - 1]))
  {
    RunKeeps(START, run);
    var s := After(START, run);
    assert s.served == s.recorded;
  }

  /** Without a callback before the lookup, the result is what `select!` gave. */
  lemma NoCallbackNoOverride(run: seq<Action>)
    requires IsRun(START, run)
    requires var s := After(START, run); s.main.Selected? && s.recorded == []
    ensures var s := After(START, run); Next(s, Lookup).main == Returned(s.main.code)
  {
    RunKeeps(START, run);
  }

  /** What `select!` gave is what its branch had to give. */
  predicate SelectionExact(s: State) {
    s.main.Selected? ==> if s.main.fromReader then s.oneshot == Some(s.main.code) else s.main.code == 0
  }

  lemma {:induction false} RunKeepsSelection(s: State, run: seq<Action>)
    requires SelectionExact(s) && SentOnce(s) && IsRun(s, run)
    ensures SelectionExact(After(s, run))
    decreases run
  {
    hide AsI32;
    if run != [] {
      RunKeepsSelection(Next(s, run[0]), run[1..]);
    }
  }

  /** The reader sends at most once. */
  predicate SentOnce(s: State) {
    s.oneshot.Some? ==> s.reader.Sent? || s.reader.Finished?
  }

  /** The code of every run, in closed form: the last status recorded before the lookup; without one, what the reader
      sent if `select!` took that, and else 0. */
  lemma ReturnedIs(run: seq<Action>)
    requires IsRun(START, run) && After(START, run).main.Selected?
    ensures After(START, run).main.fromReader ==> After(START, run).oneshot.Some?
    ensures var s := After(START, run);
            Next(s, Lookup).main ==
              Returned(if s.recorded != [] then AsI32(s.recorded[|s.recorded| - 1])
                       else if s.main.fromReader then s.oneshot.value
                       else 0)
  {
    hide AsI32;
    RunKeeps(START, run);
    RunKeepsSelection(START, run);
  }

  /** The one status of a session, unless it is 0, is returned if and only if its callback ran before the lookup or
      `select!` took the oneshot that carried it; in every other run 0 is. */
  lemma StatusReturnedIff(run: seq<Action>, status: nat)
    requires IsRun(START, run) && After(START, run).main.Selected?
    requires After(START, run).served == [status] && AsI32(status) != 0
    ensures var s := After(START, run);
            var returned := Next(s, Lookup).main.code;
            && (returned == AsI32(status) <==>
                s.recorded == [status] || (s.main.fromReader && s.oneshot == Some(AsI32(status))))
            && (returned != AsI32(status) ==> returned == 0)
  {
    hide AsI32;
    var s := After(START, run);
    ReturnedIs(run);
    RunKeeps(START, run);
    assert s.recorded == [status] || s.recorded == [];
    SentIsHonest(s);
  }

  lemma SentIsHonest(s: State)
    requires Inv(s) && |s.served| == 1
    ensures s.oneshot.Some? ==> s.oneshot.value == 0 || s.oneshot.value == AsI32(s.served[0])
  {
  }

  // ----- runs that lose the status -----

  lemma {:induction false} OneMore(s: State, run: seq<Action>, a: Action)
    requires IsRun(s, run) && Enabled(After(s, run), a)
    ensures IsRun(s, run + [a]) && After(s, run + [a]) == Next(After(s, run), a)
    decreases run
  {
    if run != [] {
      assert (run + [a])[1..] == run[1..] + [a];
      OneMore(Next(s, run[0]), run[1..], a);
    }
  }

  lemma EmptyRun(s: State)
    ensures IsRun(s, []) && After(s, []) == s
  {
  }

  lemma Snoc(s: State, run: seq<Action>, a: Action) returns (longer: seq<Action>)
    requires IsRun(s, run) && Enabled(After(s, run), a)
    ensures IsRun(s, longer) && After(s, longer) == Next(After(s, run), a)
  {
    OneMore(s, run, a);
    longer := run + [a];
  }

  /** The reader received the status and sent it, and still 0 is returned: both branches of `select!` are ready,
      it takes the finished task, and the callback has not run yet. */
  lemma ReadStatusCanBeLost(status: nat)
    ensures exists run :: IsRun(START, run) &&
              var s := After(START, run);
              s.served == [status] && s.oneshot == Some(AsI32(status)) && s.main == Returned(0)
  {
    hide AsI32, IsRun, After;
    var run := ReachRead(status);
    run := Snoc(START, run, SendCode);
    run := Snoc(START, run, Finish);
    run := Snoc(START, run, SelectJoin);
    run := Snoc(START, run, Lookup);
  }

  /** A reader task that dies before it has sent what it received loses it as well. */
  lemma DyingReaderLoses(status: nat)
    ensures exists run :: IsRun(START, run) &&
              var s := After(START, run);
              s.served == [status] && s.code == AsI32(status) && s.oneshot.None? && s.main == Returned(0)
  {
    hide AsI32, IsRun, After;
    var run := ReachRead(status);
    run := Snoc(START, run, Die);
    run := Snoc(START, run, SelectJoin);
    run := Snoc(START, run, Lookup);
  }

  /** A run in which the reader has just received the status. */
  lemma ReachRead(status: nat) returns (run: seq<Action>)
    ensures IsRun(START, run)
    ensures After(START, run) ==
              State([status], Some(status), [], None, [], false, [ExitStatus(status)],
                    Ending, AsI32(status), None, Waiting)
  {
    hide AsI32, IsRun, After;
    EmptyRun(START);
    run := Snoc(START, [], Serve(status));
    run := Snoc(START, run, Read);
  }

  /** A status that comes after the channel was closed is returned when its callback beats the lookup, and lost when it
      does not. */
  lemma LateStatus(status: nat, beforeLookup: bool)
    ensures exists run :: IsRun(START, run) &&
              var s := After(START, run);
              s.served == [status] && s.recorded == [status] &&
              s.main == Returned(if beforeLookup then AsI32(status) else 0)
  {
    hide AsI32;
    var run := ReachSelected();
    if beforeLookup {
      run := Snoc(START, run, Serve(status));
      run := Snoc(START, run, Callback);
      run := Snoc(START, run, Lookup);
    } else {
      run := Snoc(START, run, Lookup);
      run := Snoc(START, run, Serve(status));
      run := Snoc(START, run, Callback);
    }
  }

  /** A run in which the channel is closed and the reader has sent 0. */
  lemma ReachSelected() returns (run: seq<Action>)
    ensures IsRun(START, run)
    ensures After(START, run) == State([], None, [], None, [], true, [Close], Sent, 0, Some(0), Selected(0, true))
  {
    hide AsI32, IsRun, After;
    EmptyRun(START);
    run := Snoc(START, [], Deliver(Close));
    run := Snoc(START, run, Drop);
    run := Snoc(START, run, Read);
    run := Snoc(START, run, Read);
    run := Snoc(START, run, SendCode);
    run := Snoc(START, run, SelectCode);
  }

  // ----- the reader, step by step, computes what the reader as a function does -----

  predicate HasEnd(ms: seq<Msg>) {
    exists i :: 0 <= i < |ms| && Ends(ms[i])
  }

  lemma {:induction false} BeforeSnoc(ms: seq<Msg>, m: Msg)
    ensures Before(ms + [m]) == if HasEnd(ms) then Before(ms) else if Ends(m) then ms else ms + [m]
    ensures Behind(ms + [m]) == if HasEnd(ms) then Behind(ms) + [m] else []
    ensures !HasEnd(ms) ==> Before(ms) == ms && Behind(ms) == []
  {
    if ms == [] {
      assert [m][1..] == [];
    } else {
      assert (ms + [m])[1..] == ms[1..] + [m];
      BeforeSnoc(ms[1..], m);
      HasEndTail(ms);
      assert [ms[0]] + ms[1..] == ms;
    }
  }

  lemma HasEndTail(ms: seq<Msg>)
    requires ms != []
    ensures HasEnd(ms) <==> Ends(ms[0]) || HasEnd(ms[1..])
  {
    assert forall i :: 0 < i < |ms| ==> ms[i] == ms[1..][i - 1];
    if HasEnd(ms[1..]) {
      var i :| 0 <= i < |ms[1..]| && Ends(ms[1..][i]);
      assert Ends(ms[i + 1]);
    }
  }

  lemma {:induction false} StatusesSnoc(ms: seq<Msg>, m: Msg)
    ensures Statuses(ms + [m]) == Statuses(ms) + (if m.ExitStatus? then [m.status] else [])
  {
    if ms == [] {
      assert [m][1..] == [];
    } else {
      assert (ms + [m])[1..] == ms[1..] + [m];
      StatusesSnoc(ms[1..], m);
    }
  }

  /** The code of a reader that has seen `ms` and is then cut off. */
  ghost function CodeAfter(ms: seq<Msg>): int {
    if Statuses(Before(ms)) != [] then AsI32(Statuses(Before(ms))[0]) else LastCode(Statuses(Behind(ms)), 0)
  }

  ghost predicate ReaderInv(s: State) {
    && (s.reader.Reading? ==> !HasEnd(s.consumed) && Statuses(s.consumed) == [] && s.code == 0)
    && (s.reader.Draining? ==> HasEnd(s.consumed) && Statuses(Before(s.consumed)) == [])
    && (!s.reader.Finished? ==> s.code == CodeAfter(s.consumed))
    && (s.oneshot.Some? ==> s.oneshot.value == CodeAfter(s.consumed) && (s.reader.Sent? || s.reader.Finished?))
  }

  lemma ReadKeeps(s: State)
    requires ReaderInv(s) && Enabled(s, Read)
    ensures ReaderInv(Next(s, Read))
  {
    hide AsI32, HasEnd, Ends;
    if s.queue != [] {
      var ms, m := s.consumed, s.queue[0];
      BeforeSnoc(ms, m);
      StatusesSnoc(ms, m);
      StatusesSnoc(Behind(ms), m);
      EndSnoc(ms, m);
      assert Statuses([]) == [];
    }
  }

  lemma EndSnoc(ms: seq<Msg>, m: Msg)
    ensures HasEnd(ms + [m]) <==> HasEnd(ms) || Ends(m)
    ensures Ends(m) <==> m.Eof? || m.Close?
  {
    if Ends(m) { assert Ends((ms + [m])[|ms|]); }
    if HasEnd(ms) {
      var i :| 0 <= i < |ms| && Ends(ms[i]);
      assert Ends((ms + [m])[i]);
    }
  }

  lemma ReaderStepKeeps(s: State, a: Action)
    requires ReaderInv(s) && Enabled(s, a)
    ensures ReaderInv(Next(s, a))
  {
    if a.Read? {
      ReadKeeps(s);
    } else {
      hide CodeAfter, HasEnd, Statuses;
    }
  }

  lemma {:induction false} ReaderRunKeeps(s: State, run: seq<Action>)
    requires ReaderInv(s) && IsRun(s, run)
    ensures ReaderInv(After(s, run))
    decreases run
  {
    hide ReaderInv;
    if run != [] {
      ReaderStepKeeps(s, run[0]);
      ReaderRunKeeps(Next(s, run[0]), run[1..]);
    }
  }

  /** Whatever the interleaving, the code the reader task sends is the one the sequential reader computes from the
      messages it took. */
  lemma SentCodeIsReaders(run: seq<Action>)
    requires IsRun(START, run) && After(START, run).oneshot.Some?
    ensures var s := After(START, run); s.oneshot.value == Reader(s.consumed, |s.consumed|).1
  {
    hide AsI32;
    assert ReaderInv(START);
    ReaderRunKeeps(START, run);
    var ms := After(START, run).consumed;
    ReaderIs(ms, |ms|);
    BehindIsShorter(ms);
    assert Drained(ms, |ms|) == Behind(ms);
  }

  lemma {:induction false} BehindIsShorter(ms: seq<Msg>)
    ensures |Behind(ms)| <= |ms|
  {
    if ms != [] {
      BehindIsShorter(ms[1..]);
    }
  }

  lemma RunAppend(s: State, run: seq<Action>, more: seq<Action>)
    requires IsRun(s, run) && IsRun(After(s, run), more)
    ensures IsRun(s, run + more) && After(s, run + more) == After(After(s, run), more)
    decreases run
  {
    if run == [] {
      assert run + more == more;
    } else {
      RunAppend(Next(s, run[0]), run[1..], more);
      assert (run + more)[1..] == run[1..] + more;
    }
  }

  /** The channel delivers `ms`, one frame after the other, each status with its callback. */
  lemma {:induction false} Arrive(s: State, ms: seq<Msg>) returns (run: seq<Action>)
    requires s.pending.None? && !s.dropped
    ensures IsRun(s, run) && After(s, run).queue == s.queue + ms
    ensures var s' := After(s, run);
            s'.pending.None? && !s'.dropped &&
            (s'.consumed, s'.reader, s'.code, s'.oneshot, s'.main) ==
            (s.consumed, s.reader, s.code, s.oneshot, s.main)
    decreases |ms|
  {
    hide AsI32, IsRun, After;
    EmptyRun(s);
    run := [];
    if ms != [] {
      var first := Snoc(s, [], if ms[0].ExitStatus? then Serve(ms[0].status) else Deliver(ms[0]));
      if ms[0].ExitStatus? {
        first := Snoc(s, first, Callback);
      }
      var s1 := After(s, first);
      assert s1.queue == s.queue + [ms[0]];
      var rest := Arrive(s1, ms[1..]);
      RunAppend(s, first, rest);
      run := first + rest;
      assert s.queue + [ms[0]] + ms[1..] == s.queue + ms;
    }
  }

  lemma Step(s: State, a: Action, rest: seq<Action>) returns (run: seq<Action>)
    requires Enabled(s, a) && IsRun(Next(s, a), rest)
    ensures IsRun(s, run) && After(s, run) == After(Next(s, a), rest)
  {
    run := [a] + rest;
    assert run[1..] == rest;
  }

  /** The drain takes `patience` messages, if there are so many, before its time is over. */
  lemma {:induction false} DrainAll(s: State, patience: nat) returns (run: seq<Action>)
    requires s.dropped && s.reader.Draining?
    ensures IsRun(s, run)
    ensures var s' := After(s, run);
            s'.reader.Ending? && s'.code == Drain(s.queue, patience, s.code) && s'.oneshot == s.oneshot
    decreases |s.queue|
  {
    hide AsI32;
    if s.queue == [] || patience == 0 {
      run := Step(s, Timeout, []);
    } else {
      var rest := DrainAll(Next(s, Read), patience - 1);
      run := Step(s, Read, rest);
    }
  }

  lemma {:induction false} ReadAll(s: State, patience: nat) returns (run: seq<Action>)
    requires s.dropped && s.reader.Reading? && s.code == 0
    ensures IsRun(s, run)
    ensures var s' := After(s, run);
            s'.reader.Ending? && s'.code == Reader(s.queue, patience).1 && s'.oneshot == s.oneshot
    decreases |s.queue|
  {
    hide AsI32, Drain;
    var s1 := Next(s, Read);
    if s.queue == [] || s.queue[0].ExitStatus? {
      run := Step(s, Read, []);
    } else if Ends(s.queue[0]) {
      var rest := DrainAll(s1, patience);
      run := Step(s, Read, rest);
    } else {
      var rest := ReadAll(s1, patience);
      run := Step(s, Read, rest);
    }
  }

  /** Conversely, whatever the channel delivers and however long the drain waits, there is a run in which the reader
      task sends the code that the sequential reader computes. */
  lemma ReadersCodeIsSent(ms: seq<Msg>, patience: nat)
    ensures exists run :: IsRun(START, run) && After(START, run).oneshot == Some(Reader(ms, patience).1)
  {
    hide IsRun, After, Reader;
    var run := Arrive(START, ms);
    run := Snoc(START, run, Drop);
    var s := After(START, run);
    assert s.queue == ms;
    var more := ReadAll(s, patience);
    RunAppend(START, run, more);
    run := run + more;
    run := Snoc(START, run, SendCode);
  }

  /** Once the channel is gone nothing more is queued: a status that comes then is never read. */
  lemma {:induction false} NothingAfterDrop(s: State, run: seq<Action>)
    requires s.dropped && IsRun(s, run)
    ensures After(s, run).dropped && After(s, run).consumed + After(s, run).queue == s.consumed + s.queue
    decreases run
  {
    if run != [] {
      var s1 := Next(s, run[0]);
      assert s1.consumed + s1.queue == s.consumed + s.queue;
      NothingAfterDrop(s1, run[1..]);
    }
  }
}

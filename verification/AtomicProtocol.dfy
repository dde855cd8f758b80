/**
 The write-to-a-temp-then-rename protocol of src/sftp.rs, as a state machine over
 its individual round trips.  Any number of writers run it on one destination,
 in any interleaving; every round trip may fail, a failure reply may hide an
 effect that did take place, and a writer may crash between any two of them.

 Files are inodes: a handle keeps naming the inode it was opened on, whatever
 happens to the directory entry.  `Remote` is `atomic_write_remote`, which unlinks the
 destination before renaming; `Local` is `atomic_write_local`, which does not.
 */
module AtomicProtocol {
  import opened Basics

  type Name = string

  datatype Flavour = Remote | Local

  datatype Pc =
    | Start                    // about to open the temp exclusively
    | Writing(done: nat)       // temp open, `done` bytes have reached it
    | Settling                 // all bytes written; flush, sync and close are next
    | Settled                  // about to unlink the destination (Remote) or to rename
    | Unlinked                 // Remote only: about to rename
    | Cleaning                 // some step failed; about to remove the temp
    | Done(ok: bool, cleaned: bool)
    | Crashed

  datatype Writer = Writer(tmp: Name, data: Bytes, pc: Pc, handle: nat)

  datatype State = State(dir: map<Name, nat>, inodes: seq<Bytes>, writers: seq<Writer>)

  /** One round trip.  `applied` says whether the server carried it out, `ok` what it replied. */
  datatype Action =
    | Open(applied: bool, ok: bool)
    | Write(upTo: nat)
    | FinishWrite(ok: bool)
    | Settle(ok: bool)
    | Unlink(applied: bool)
    | Rename(applied: bool, ok: bool)
    | Cleanup(applied: bool)
    | Crash

  predicate ReadyToRename(f: Flavour, pc: Pc) {
    if f.Remote? then pc.Unlinked? else pc.Settled?
  }

  predicate Enabled(f: Flavour, s: State, i: nat, a: Action)
    requires i < |s.writers|
  {
    var w := s.writers[i];
    match a
    case Open(applied, ok) => w.pc.Start? && (ok ==> applied) && (applied ==> w.tmp !in s.dir)
    case Write(upTo) => w.pc.Writing? && w.pc.done <= upTo <= |w.data| && w.handle < |s.inodes|
    case FinishWrite(ok) => w.pc.Writing? && (ok ==> w.pc.done == |w.data|)
    case Settle(ok) => w.pc.Settling? && (f.Remote? ==> ok)
    case Unlink(applied) => f.Remote? && w.pc.Settled?
    case Rename(applied, ok) => ReadyToRename(f, w.pc) && (ok ==> applied) && (applied ==> w.tmp in s.dir)
    case Cleanup(applied) => w.pc.Cleaning?
    case Crash => !w.pc.Done? && !w.pc.Crashed?
  }

  function NextPc(f: Flavour, s: State, i: nat, a: Action): Pc
    requires i < |s.writers| && Enabled(f, s, i, a)
  {
    var w := s.writers[i];
    match a
    case Open(_, ok) => if ok then Writing(0) else Cleaning
    case Write(upTo) => Writing(upTo)
    case FinishWrite(ok) => if ok then Settling else Cleaning
    case Settle(ok) => if ok then Settled else Cleaning
    case Unlink(_) => Unlinked
    case Rename(_, ok) => if ok then Done(true, true) else Cleaning
    case Cleanup(applied) => Done(false, applied || w.tmp !in s.dir)
    case Crash => Crashed
  }

  function Next(f: Flavour, path: Name, s: State, i: nat, a: Action): State
    requires i < |s.writers| && Enabled(f, s, i, a)
  {
    var w := s.writers[i];
    var pc := NextPc(f, s, i, a);
    var moved := s.(writers := s.writers[i := w.(pc := pc)]);
    match a
    case Open(applied, _) =>
      if applied then
        State(s.dir[w.tmp := |s.inodes|], s.inodes + [[]], s.writers[i := w.(pc := pc, handle := |s.inodes|)])
      else moved
    case Write(upTo) => moved.(inodes := s.inodes[w.handle := w.data[..upTo]])
    case Unlink(applied) => if applied then moved.(dir := s.dir - {path}) else moved
    case Rename(applied, _) => if applied then moved.(dir := (s.dir - {w.tmp})[path := s.dir[w.tmp]]) else moved
    case Cleanup(applied) => if applied then moved.(dir := s.dir - {w.tmp}) else moved
    case _ => moved
  }

  type Run = seq<(nat, Action)>

  predicate IsRun(f: Flavour, path: Name, s: State, run: Run)
    decreases run
  {
    run == [] ||
    (run[0].0 < |s.writers| && Enabled(f, s, run[0].0, run[0].1) &&
     IsRun(f, path, Next(f, path, s, run[0].0, run[0].1), run[1..]))
  }

  function After(f: Flavour, path: Name, s: State, run: Run): State
    requires IsRun(f, path, s, run)
    decreases run
  {
    if run == [] then s else After(f, path, Next(f, path, s, run[0].0, run[0].1), run[1..])
  }

  /** No writer has begun.  A file may already be there under a temp name, and writers may have drawn the same one. */
  ghost predicate Initial(path: Name, s: State) {
    && (forall n :: n in s.dir ==> s.dir[n] < |s.inodes|)
    && (forall i :: 0 <= i < |s.writers| ==> s.writers[i].pc.Start? && s.writers[i].tmp != path)
  }

  ghost predicate NoTempsYet(s: State) {
    forall i :: 0 <= i < |s.writers| ==> s.writers[i].tmp !in s.dir
  }

  /** The writer holds a temp that it may still write to or rename. */
  predicate Holding(pc: Pc) {
    pc.Writing? || pc.Settling? || pc.Settled? || pc.Unlinked?
  }

  /** The writer may have left its temp behind, or still has it. */
  predicate Answerable(pc: Pc) {
    Holding(pc) || pc.Cleaning? || pc.Crashed? || (pc.Done? && !pc.cleaned)
  }

  ghost predicate AnsweredFor(s: State, n: Name) {
    exists i :: 0 <= i < |s.writers| && s.writers[i].tmp == n && Answerable(s.writers[i].pc)
  }

  /** The writer may have unlinked the destination without having put its own file there. */
  predicate MayHaveLost(pc: Pc) {
    pc.Unlinked? || pc.Cleaning? || pc.Crashed? || (pc.Done? && !pc.ok)
  }

  ghost predicate IsTemp(s: State, n: Name) {
    exists i :: 0 <= i < |s.writers| && s.writers[i].tmp == n
  }

  ghost predicate SameWriters(s0: State, s: State) {
    && |s.writers| == |s0.writers|
    && forall i :: 0 <= i < |s.writers| ==>
         s.writers[i].tmp == s0.writers[i].tmp && s.writers[i].data == s0.writers[i].data
  }

  // ----- what every step keeps, whatever names were drawn -----

  /** A handle is a new inode that has the bytes written so far, and what is under the temp's name is new as well. */
  ghost predicate HolderNew(s0: State, s: State, i: nat)
    requires i < |s.writers|
  {
    var w := s.writers[i];
    Holding(w.pc) ==>
      && |s0.inodes| <= w.handle < |s.inodes|
      && (w.pc.Writing? ==> w.pc.done <= |w.data| && s.inodes[w.handle] == w.data[..w.pc.done])
      && (!w.pc.Writing? ==> s.inodes[w.handle] == w.data)
      && (w.tmp in s.dir ==> |s0.inodes| <= s.dir[w.tmp])
  }

  ghost predicate HoldersDistinct(s: State) {
    forall i, j :: 0 <= i < j < |s.writers| && Holding(s.writers[i].pc) && Holding(s.writers[j].pc) ==>
      s.writers[i].handle != s.writers[j].handle
  }

  ghost predicate AbsenceExplained(f: Flavour, path: Name, s0: State, s: State) {
    path !in s.dir ==>
      || (path !in s0.dir && forall i :: 0 <= i < |s.writers| ==> s.writers[i].pc != Done(true, true))
      || (f.Remote? && exists i :: 0 <= i < |s.writers| && MayHaveLost(s.writers[i].pc))
  }

  ghost predicate NothingStale(path: Name, s0: State, s: State) {
    path in s.dir && s.dir[path] < |s0.inodes| ==>
      forall i :: 0 <= i < |s.writers| ==> s.writers[i].pc != Done(true, true)
  }

  /** Files that are neither the destination nor under a temp name stay. */
  ghost predicate OthersStay(path: Name, s0: State, s: State) {
    forall n :: n != path && !IsTemp(s0, n) ==>
      (n in s.dir <==> n in s0.dir) && (n in s0.dir ==> s.dir[n] == s0.dir[n])
  }

  ghost predicate PcsOk(f: Flavour, s: State) {
    && (forall i :: 0 <= i < |s.writers| && s.writers[i].pc.Unlinked? ==> f.Remote?)
    && (forall i :: 0 <= i < |s.writers| && s.writers[i].pc.Done? && s.writers[i].pc.ok ==> s.writers[i].pc.cleaned)
  }

  ghost predicate Inv(f: Flavour, path: Name, s0: State, s: State) {
    && SameWriters(s0, s)
    && |s0.inodes| <= |s.inodes| && s.inodes[..|s0.inodes|] == s0.inodes
    && (forall n :: n in s.dir ==> s.dir[n] < |s.inodes|)
    && (forall i :: 0 <= i < |s.writers| ==> HolderNew(s0, s, i))
    && HoldersDistinct(s)
    && PcsOk(f, s)
    && AbsenceExplained(f, path, s0, s)
    && NothingStale(path, s0, s)
    && OthersStay(path, s0, s)
  }

  lemma InitialHolds(f: Flavour, path: Name, s: State)
    requires Initial(path, s)
    ensures Inv(f, path, s, s)
  {
  }

  lemma NewStep(f: Flavour, path: Name, s0: State, s: State, i: nat, a: Action, j: nat)
    requires i < |s.writers| && j < |s.writers| && Enabled(f, s, i, a) && s.writers[j].tmp != path
    requires |s0.inodes| <= |s.inodes| && HolderNew(s0, s, j)
    requires i != j && Holding(s.writers[i].pc) && Holding(s.writers[j].pc) ==>
               s.writers[i].handle != s.writers[j].handle
    ensures HolderNew(s0, Next(f, path, s, i, a), j)
  {
  }

  lemma StepKeepsNew(f: Flavour, path: Name, s0: State, s: State, i: nat, a: Action, j: nat)
    requires Initial(path, s0) && Inv(f, path, s0, s)
    requires i < |s.writers| && j < |s.writers| && Enabled(f, s, i, a)
    ensures HolderNew(s0, Next(f, path, s, i, a), j)
  {
    hide AbsenceExplained, NothingStale, OthersStay;
    assert HolderNew(s0, s, j) && s0.writers[j].tmp != path;
    if i != j { HandlesDiffer(s, i, j); }
    NewStep(f, path, s0, s, i, a, j);
  }

  lemma StepKeepsDistinct(f: Flavour, path: Name, s0: State, s: State, i: nat, a: Action)
    requires Initial(path, s0) && Inv(f, path, s0, s)
    requires i < |s.writers| && Enabled(f, s, i, a)
    ensures HoldersDistinct(Next(f, path, s, i, a))
  {
    hide AbsenceExplained, NothingStale, OthersStay;
    var s' := Next(f, path, s, i, a);
    forall j, k | 0 <= j < k < |s'.writers| && Holding(s'.writers[j].pc) && Holding(s'.writers[k].pc)
      ensures s'.writers[j].handle != s'.writers[k].handle
    {
      assert HolderNew(s0, s, j) && HolderNew(s0, s, k);
      if !a.Open? {
        assert Holding(s.writers[j].pc) && Holding(s.writers[k].pc);
      }
    }
  }

  lemma StepKeepsInodes(f: Flavour, path: Name, s0: State, s: State, i: nat, a: Action)
    requires Initial(path, s0) && Inv(f, path, s0, s)
    requires i < |s.writers| && Enabled(f, s, i, a)
    ensures var s' := Next(f, path, s, i, a);
            && |s0.inodes| <= |s'.inodes| && s'.inodes[..|s0.inodes|] == s0.inodes
            && forall n :: n in s'.dir ==> s'.dir[n] < |s'.inodes|
  {
    hide AbsenceExplained, NothingStale, OthersStay, HoldersDistinct;
    var s' := Next(f, path, s, i, a);
    assert HolderNew(s0, s, i);
    forall k | 0 <= k < |s0.inodes| ensures s'.inodes[k] == s0.inodes[k] {
      assert s.inodes[k] == s.inodes[..|s0.inodes|][k];
    }
  }

  lemma AbsenceStep(f: Flavour, path: Name, s0: State, s: State, i: nat, a: Action)
    requires i < |s.writers| && Enabled(f, s, i, a) && s.writers[i].tmp != path && AbsenceExplained(f, path, s0, s)
    ensures AbsenceExplained(f, path, s0, Next(f, path, s, i, a))
  {
    var s' := Next(f, path, s, i, a);
    if path !in s'.dir && path !in s.dir && exists k :: 0 <= k < |s.writers| && MayHaveLost(s.writers[k].pc) {
      var k :| 0 <= k < |s.writers| && MayHaveLost(s.writers[k].pc);
      assert MayHaveLost(s'.writers[k].pc);
    }
    if path !in s'.dir && path in s.dir {
      assert MayHaveLost(s'.writers[i].pc);
    }
  }

  lemma StaleStep(f: Flavour, path: Name, s0: State, s: State, i: nat, a: Action)
    requires i < |s.writers| && Enabled(f, s, i, a) && s.writers[i].tmp != path
    requires NothingStale(path, s0, s) && HolderNew(s0, s, i)
    ensures NothingStale(path, s0, Next(f, path, s, i, a))
  {
  }

  lemma StepKeepsOthers(f: Flavour, path: Name, s0: State, s: State, i: nat, a: Action)
    requires i < |s.writers| && Enabled(f, s, i, a) && IsTemp(s0, s.writers[i].tmp) && OthersStay(path, s0, s)
    ensures OthersStay(path, s0, Next(f, path, s, i, a))
  {
    hide IsTemp;
  }

  lemma WritersStep(f: Flavour, path: Name, s0: State, s: State, i: nat, a: Action)
    requires SameWriters(s0, s) && PcsOk(f, s) && i < |s.writers| && Enabled(f, s, i, a)
    ensures SameWriters(s0, Next(f, path, s, i, a)) && PcsOk(f, Next(f, path, s, i, a))
    ensures |Next(f, path, s, i, a).writers| == |s.writers|
  {
  }

  lemma StepKeeps(f: Flavour, path: Name, s0: State, s: State, i: nat, a: Action)
    requires Initial(path, s0) && Inv(f, path, s0, s)
    requires i < |s.writers| && Enabled(f, s, i, a)
    ensures Inv(f, path, s0, Next(f, path, s, i, a))
  {
    var s' := Next(f, path, s, i, a);
    assert s.writers[i].tmp == s0.writers[i].tmp != path && IsTemp(s0, s.writers[i].tmp);
    WritersStep(f, path, s0, s, i, a);
    hide AbsenceExplained, NothingStale, OthersStay, HolderNew, HoldersDistinct;
    hide Initial, IsTemp, SameWriters, PcsOk, Next;
    forall j | 0 <= j < |s'.writers| ensures HolderNew(s0, s', j) {
      StepKeepsNew(f, path, s0, s, i, a, j);
    }
    StepKeepsDistinct(f, path, s0, s, i, a);
    StepKeepsInodes(f, path, s0, s, i, a);
    AbsenceStep(f, path, s0, s, i, a);
    StaleStep(f, path, s0, s, i, a);
    StepKeepsOthers(f, path, s0, s, i, a);
  }

  lemma {:induction false} RunKeeps(f: Flavour, path: Name, s0: State, s: State, run: Run)
    requires Initial(path, s0) && Inv(f, path, s0, s) && IsRun(f, path, s, run)
    ensures Inv(f, path, s0, After(f, path, s, run))
    decreases run
  {
    hide Inv, Initial;
    if run != [] {
      StepKeeps(f, path, s0, s, run[0].0, run[0].1);
      RunKeeps(f, path, s0, Next(f, path, s, run[0].0, run[0].1), run[1..]);
    }
  }

  // ----- when writers share a temp name -----

  predicate Opens(s: State, n: Name, i: nat) {
    i < |s.writers| && s.writers[i].tmp == n && s.writers[i].pc.Start?
  }

  predicate Holds(s: State, n: Name, i: nat) {
    i < |s.writers| && s.writers[i].tmp == n && Holding(s.writers[i].pc)
  }

  /** The writer may still remove what is under its temp name: it is cleaning up, or will when its open fails. */
  predicate Removes(s: State, n: Name, i: nat) {
    i < |s.writers| && s.writers[i].tmp == n && (s.writers[i].pc.Start? || s.writers[i].pc.Cleaning?)
  }

  /** One writer holds the temp, a second may remove it, and a third may then put its own there before the first
      renames.  What is in the way of a step is removed by one writer more. */
  ghost predicate RiskyName(s: State, n: Name) {
    || (n !in s.dir && exists h: nat, i: nat :: Holds(s, n, h) && Opens(s, n, i))
    || (exists h: nat, i: nat, k: nat :: Holds(s, n, h) && Opens(s, n, i) && Removes(s, n, k) && i != k)
    || (n !in s.dir && exists i: nat, j: nat, k: nat :: ThreeMay(s, n, i, j, k))
    || (exists i: nat, j: nat, k: nat, l: nat :: FourMay(s, n, i, j, k, l))
  }

  predicate ThreeMay(s: State, n: Name, i: nat, j: nat, k: nat) {
    Opens(s, n, i) && Opens(s, n, j) && Removes(s, n, k) && i != j && i != k && j != k
  }

  predicate FourMay(s: State, n: Name, i: nat, j: nat, k: nat, l: nat) {
    ThreeMay(s, n, i, j, k) && Removes(s, n, l) && l != i && l != j && l != k
  }

  ghost predicate Risky(s: State) {
    exists n :: RiskyName(s, n)
  }

  // ----- what is kept where no temp name is risky, or none is shared by writers under way -----

  ghost predicate NoneOpens(s: State, n: Name) {
    forall k: nat :: !Opens(s, n, k)
  }

  /** The temp, when it is there, is the holder's own; when it has been removed, nobody is left to put another there. */
  ghost predicate HolderOwn(path: Name, s: State, i: nat)
    requires i < |s.writers|
  {
    var w := s.writers[i];
    Holding(w.pc) ==>
      && (w.tmp in s.dir ==> s.dir[w.tmp] == w.handle)
      && (w.tmp !in s.dir ==> NoneOpens(s, w.tmp))
      && (path in s.dir ==> s.dir[path] != w.handle)
  }

  /** What a reader of the destination can see: nothing, the initial bytes, or one writer's complete bytes. */
  ghost predicate OldOrComplete(path: Name, s0: State, s: State) {
    path in s.dir ==>
      || (path in s0.dir && s.dir[path] == s0.dir[path])
      || (|s0.inodes| <= s.dir[path] < |s.inodes| &&
          exists i :: 0 <= i < |s.writers| && s.inodes[s.dir[path]] == s.writers[i].data)
  }

  ghost predicate Guarded(path: Name, s0: State, s: State) {
    (forall i :: 0 <= i < |s.writers| ==> HolderOwn(path, s, i)) && OldOrComplete(path, s0, s)
  }

  /** The writer is between its open and its end. */
  predicate Live(pc: Pc) {
    !pc.Start? && !pc.Done? && !pc.Crashed?
  }

  ghost predicate LiveDistinct(s: State) {
    forall i, j :: 0 <= i < j < |s.writers| && Live(s.writers[i].pc) && Live(s.writers[j].pc) ==>
      s.writers[i].tmp != s.writers[j].tmp
  }

  /** At no moment of the run do two writers that are under way share a temp name. */
  ghost predicate DistinctThroughout(f: Flavour, path: Name, s: State, run: Run)
    requires IsRun(f, path, s, run)
    decreases run
  {
    LiveDistinct(s) && (run == [] || DistinctThroughout(f, path, Next(f, path, s, run[0].0, run[0].1), run[1..]))
  }

  ghost predicate Apart(f: Flavour, path: Name, s: State, run: Run)
    requires IsRun(f, path, s, run)
  {
    !Risky(s) || DistinctThroughout(f, path, s, run)
  }

  lemma OwnStep(f: Flavour, path: Name, s: State, i: nat, a: Action, j: nat)
    requires i < |s.writers| && j < |s.writers| && Enabled(f, s, i, a)
    requires s.writers[i].tmp != path && s.writers[j].tmp != path
    requires HolderOwn(path, s, i) && HolderOwn(path, s, j) && (path in s.dir ==> s.dir[path] < |s.inodes|)
    requires i != j && Holding(s.writers[i].pc) && Holding(s.writers[j].pc) ==>
               s.writers[i].handle != s.writers[j].handle
    requires i != j && s.writers[i].pc.Cleaning? && Holding(s.writers[j].pc) && s.writers[i].tmp == s.writers[j].tmp ==>
               NoneOpens(s, s.writers[j].tmp)
    ensures HolderOwn(path, Next(f, path, s, i, a), j)
  {
    var s', n := Next(f, path, s, i, a), s.writers[j].tmp;
    assert forall k: nat :: Opens(s', n, k) ==> Opens(s, n, k);
    assert s.writers[i].pc.Start? && s.writers[i].tmp == n ==> Opens(s, n, i);
  }

  /** A writer that cleans up beside a holder of the same name leaves nobody to open it. */
  lemma CleaningBeside(s: State, i: nat, j: nat)
    requires LiveDistinct(s) || !Risky(s)
    requires i < |s.writers| && j < |s.writers| && i != j && s.writers[i].tmp == s.writers[j].tmp
    requires s.writers[i].pc.Cleaning? && Holding(s.writers[j].pc)
    ensures NoneOpens(s, s.writers[j].tmp)
  {
    var n := s.writers[j].tmp;
    if LiveDistinct(s) {
      LiveApart(s, i, j);
    } else {
      forall k: nat ensures !Opens(s, n, k) {
        assert Holds(s, n, j) && Removes(s, n, i);
        assert !RiskyName(s, n);
      }
    }
  }

  lemma LiveApart(s: State, i: nat, j: nat)
    requires LiveDistinct(s) && i < |s.writers| && j < |s.writers| && i != j
    requires Live(s.writers[i].pc) && Live(s.writers[j].pc)
    ensures s.writers[i].tmp != s.writers[j].tmp
  {
    var lo, hi := if i < j then i else j, if i < j then j else i;
    assert Live(s.writers[lo].pc) && Live(s.writers[hi].pc);
  }

  lemma HandlesDiffer(s: State, i: nat, j: nat)
    requires HoldersDistinct(s) && i < |s.writers| && j < |s.writers| && i != j
    ensures Holding(s.writers[i].pc) && Holding(s.writers[j].pc) ==> s.writers[i].handle != s.writers[j].handle
  {
    var lo, hi := if i < j then i else j, if i < j then j else i;
    assert Holding(s.writers[lo].pc) && Holding(s.writers[hi].pc) ==> s.writers[lo].handle != s.writers[hi].handle;
  }

  lemma OldStep(f: Flavour, path: Name, s0: State, s: State, i: nat, a: Action)
    requires i < |s.writers| && Enabled(f, s, i, a) && s.writers[i].tmp != path
    requires HolderOwn(path, s, i) && HolderNew(s0, s, i) && OldOrComplete(path, s0, s)
    requires path in s.dir ==> s.dir[path] < |s.inodes|
    ensures OldOrComplete(path, s0, Next(f, path, s, i, a))
  {
    var s' := Next(f, path, s, i, a);
    if path in s'.dir {
      if a.Rename? && a.applied {
        assert s'.inodes[s'.dir[path]] == s'.writers[i].data;
      } else {
        assert path in s.dir && s'.dir[path] == s.dir[path];
        assert s'.inodes[s'.dir[path]] == s.inodes[s.dir[path]];
        if !(path in s0.dir && s.dir[path] == s0.dir[path]) {
          var k :| 0 <= k < |s.writers| && s.inodes[s.dir[path]] == s.writers[k].data;
          assert s'.writers[k].data == s.writers[k].data;
        }
      }
    }
  }

  lemma StepKeepsGuarded(f: Flavour, path: Name, s0: State, s: State, i: nat, a: Action)
    requires Initial(path, s0) && Inv(f, path, s0, s) && Guarded(path, s0, s)
    requires LiveDistinct(s) || !Risky(s)
    requires i < |s.writers| && Enabled(f, s, i, a)
    ensures Guarded(path, s0, Next(f, path, s, i, a))
  {
    hide AbsenceExplained, NothingStale, OthersStay, Risky, LiveDistinct;
    var s' := Next(f, path, s, i, a);
    assert HolderOwn(path, s, i) && HolderNew(s0, s, i) && s.writers[i].tmp == s0.writers[i].tmp != path;
    OldStep(f, path, s0, s, i, a);
    forall j | 0 <= j < |s'.writers| ensures HolderOwn(path, s', j) {
      assert HolderOwn(path, s, j) && s.writers[j].tmp == s0.writers[j].tmp != path;
      if i != j { HandlesDiffer(s, i, j); }
      if i != j && s.writers[i].pc.Cleaning? && Holding(s.writers[j].pc) && s.writers[i].tmp == s.writers[j].tmp {
        CleaningBeside(s, i, j);
      }
      OwnStep(f, path, s, i, a, j);
    }
  }

  // ----- a name that is not risky never becomes it -----

  ghost predicate OneHolder(s: State, n: Name) {
    forall g: nat, h: nat :: n in s.dir && Holds(s, n, g) && Holds(s, n, h) ==> g == h
  }

  lemma OwnersAreOne(f: Flavour, path: Name, s0: State, s: State, n: Name)
    requires Inv(f, path, s0, s) && Guarded(path, s0, s)
    ensures OneHolder(s, n)
  {
    hide AbsenceExplained, NothingStale, OthersStay, OldOrComplete;
    forall g: nat, h: nat | n in s.dir && Holds(s, n, g) && Holds(s, n, h) ensures g == h {
      assert HolderOwn(path, s, g) && HolderOwn(path, s, h);
      if g != h {
        HandlesDiffer(s, g, h);
      }
    }
  }

  /** How a writer can have come where it is. */
  lemma CameFrom(f: Flavour, path: Name, s: State, i: nat, a: Action, n: Name)
    requires i < |s.writers| && Enabled(f, s, i, a) && n != path
    ensures var s' := Next(f, path, s, i, a);
            && (forall k: nat :: Opens(s', n, k) ==> Opens(s, n, k) && k != i)
            && (forall k: nat :: Holds(s', n, k) ==>
                  Holds(s, n, k) || (k == i && Opens(s, n, k) && n !in s.dir && n in s'.dir))
            && (forall k: nat :: Removes(s', n, k) ==>
                  Removes(s, n, k) || (k == i && Holds(s, n, k) && !Holds(s', n, k)))
            && (n in s.dir && n !in s'.dir ==> !Removes(s', n, i) || Holds(s, n, i))
            && (n in s.dir && n !in s'.dir ==>
                  (Holds(s, n, i) && !Holds(s', n, i)) || (Removes(s, n, i) && !Opens(s, n, i)))
            && (n !in s.dir && n in s'.dir ==> Opens(s, n, i))
  {
  }

  lemma RiskWasThere(f: Flavour, path: Name, s: State, m: nat, a: Action, n: Name)
    requires m < |s.writers| && Enabled(f, s, m, a) && n != path && OneHolder(s, n)
    requires RiskyName(Next(f, path, s, m, a), n)
    ensures RiskyName(s, n)
  {
    var s' := Next(f, path, s, m, a);
    CameFrom(f, path, s, m, a, n);
    hide Next, NextPc, Enabled, Opens, Holds, Removes;
    HoldsOnly(s, n);
    HoldsOnly(s', n);
    if h: nat, i: nat :| n !in s'.dir && Holds(s', n, h) && Opens(s', n, i) {
      assert Holds(s, n, h) && Opens(s, n, i);
      assert n in s.dir ==> Removes(s, n, m);
    } else if h: nat, i: nat, k: nat :| Holds(s', n, h) && Opens(s', n, i) && Removes(s', n, k) && i != k {
      assert Opens(s, n, i);
      if !Holds(s, n, h) {
        assert ThreeMay(s, n, m, i, k);
      }
    } else if i: nat, j: nat, k: nat :| n !in s'.dir && ThreeMay(s', n, i, j, k) {
      assert Opens(s, n, i) && Opens(s, n, j);
      if Removes(s, n, k) {
        assert n !in s.dir ==> ThreeMay(s, n, i, j, k);
        assert n in s.dir && !Holds(s, n, m) ==> FourMay(s, n, i, j, k, m);
      }
    } else {
      var i: nat, j: nat, k: nat, l: nat :| FourMay(s', n, i, j, k, l);
      assert Opens(s, n, i) && Opens(s, n, j);
      assert Removes(s, n, k) && Removes(s, n, l) ==> FourMay(s, n, i, j, k, l);
    }
  }

  lemma HoldsOnly(s: State, n: Name)
    ensures forall k: nat :: Opens(s, n, k) ==> Removes(s, n, k) && !Holds(s, n, k)
    ensures forall k: nat :: Holds(s, n, k) ==> !Removes(s, n, k)
  {
  }

  lemma StepKeepsSafe(f: Flavour, path: Name, s0: State, s: State, i: nat, a: Action)
    requires Initial(path, s0) && Inv(f, path, s0, s) && Guarded(path, s0, s) && !Risky(s)
    requires i < |s.writers| && Enabled(f, s, i, a)
    ensures !Risky(Next(f, path, s, i, a))
  {
    hide RiskyName, Guarded;
    var s' := Next(f, path, s, i, a);
    if n :| RiskyName(s', n) {
      RiskyIsTemp(s', n);
      TempNotPath(f, path, s0, s, i, a, n);
      OwnersAreOne(f, path, s0, s, n);
      RiskWasThere(f, path, s, i, a, n);
    }
  }

  lemma RiskyIsTemp(s: State, n: Name)
    requires RiskyName(s, n)
    ensures IsTemp(s, n)
  {
    if i: nat :| Opens(s, n, i) {
    } else {
      assert false;
    }
  }

  lemma TempNotPath(f: Flavour, path: Name, s0: State, s: State, i: nat, a: Action, n: Name)
    requires Initial(path, s0) && SameWriters(s0, s) && i < |s.writers| && Enabled(f, s, i, a)
    requires IsTemp(Next(f, path, s, i, a), n)
    ensures n != path
  {
    var s' := Next(f, path, s, i, a);
    var k :| 0 <= k < |s'.writers| && s'.writers[k].tmp == n;
    assert s0.writers[k].tmp == n;
  }

  lemma {:induction false} RunKeepsGuarded(f: Flavour, path: Name, s0: State, s: State, run: Run)
    requires Initial(path, s0) && Inv(f, path, s0, s) && Guarded(path, s0, s)
    requires IsRun(f, path, s, run) && Apart(f, path, s, run)
    ensures Guarded(path, s0, After(f, path, s, run))
    decreases run
  {
    hide Inv, Guarded, Initial, Risky;
    if run != [] {
      var s' := Next(f, path, s, run[0].0, run[0].1);
      StepKeeps(f, path, s0, s, run[0].0, run[0].1);
      StepKeepsGuarded(f, path, s0, s, run[0].0, run[0].1);
      if !Risky(s) {
        StepKeepsSafe(f, path, s0, s, run[0].0, run[0].1);
      }
      RunKeepsGuarded(f, path, s0, s', run[1..]);
    }
  }

  lemma GuardedAtStart(path: Name, s: State)
    requires Initial(path, s)
    ensures Guarded(path, s, s)
  {
  }

  // ----- when a name is risky at the start -----

  predicate Drew(s: State, n: Name, i: nat) {
    i < |s.writers| && s.writers[i].tmp == n
  }

  predicate ThreeDrew(s: State, n: Name, i: nat, j: nat, k: nat) {
    Drew(s, n, i) && Drew(s, n, j) && Drew(s, n, k) && i != j && i != k && j != k
  }

  /** Three writers have drawn one temp name, or four one under which there is a file. */
  ghost predicate Crowded(s: State) {
    exists n, i: nat, j: nat, k: nat :: ThreeDrew(s, n, i, j, k) && (n !in s.dir || FourthDrew(s, n, i, j, k))
  }

  lemma AtStart(path: Name, s: State, n: Name)
    requires Initial(path, s)
    ensures forall i: nat :: !Holds(s, n, i)
    ensures forall i: nat :: Opens(s, n, i) <==> Drew(s, n, i)
    ensures forall i: nat :: Removes(s, n, i) <==> Drew(s, n, i)
  {
  }

  lemma RiskyNameIsCrowded(path: Name, s: State, n: Name)
    requires Initial(path, s) && RiskyName(s, n)
    ensures Crowded(s)
  {
    AtStart(path, s, n);
    hide Opens, Holds, Removes, Drew, Initial;
    if i: nat, j: nat, k: nat, l: nat :| FourMay(s, n, i, j, k, l) {
      assert ThreeDrew(s, n, i, j, k) && FourthDrew(s, n, i, j, k) by { assert Drew(s, n, l); }
    } else {
      var i: nat, j: nat, k: nat :| ThreeMay(s, n, i, j, k);
      assert ThreeDrew(s, n, i, j, k) && n !in s.dir;
    }
  }

  lemma CrowdedNameIsRisky(path: Name, s: State, n: Name, i: nat, j: nat, k: nat)
    requires Initial(path, s) && ThreeDrew(s, n, i, j, k) && (n !in s.dir || FourthDrew(s, n, i, j, k))
    ensures RiskyName(s, n)
  {
    AtStart(path, s, n);
    hide Opens, Holds, Removes, Drew, Initial;
    assert ThreeMay(s, n, i, j, k);
    if n in s.dir {
      var l: nat :| Drew(s, n, l) && l != i && l != j && l != k;
      assert FourMay(s, n, i, j, k, l);
    }
  }

  /** At the start a name is risky exactly when it is crowded. */
  lemma RiskyIsCrowded(path: Name, s: State)
    requires Initial(path, s)
    ensures Risky(s) <==> Crowded(s)
  {
    hide RiskyName, ThreeDrew, FourthDrew, Initial;
    if n :| RiskyName(s, n) {
      RiskyNameIsCrowded(path, s, n);
    }
    if n, i: nat, j: nat, k: nat :| ThreeDrew(s, n, i, j, k) && (n !in s.dir || FourthDrew(s, n, i, j, k)) {
      CrowdedNameIsRisky(path, s, n, i, j, k);
    }
  }

  /** Names that differ among all writers differ among those under way, and none is risky. */
  lemma {:induction false} DistinctNames(f: Flavour, path: Name, s: State, run: Run)
    requires AllDistinct(s) && IsRun(f, path, s, run)
    ensures DistinctThroughout(f, path, s, run)
    decreases run
  {
    if run != [] {
      var s' := Next(f, path, s, run[0].0, run[0].1);
      assert |s'.writers| == |s.writers| && forall i :: 0 <= i < |s.writers| ==> s'.writers[i].tmp == s.writers[i].tmp;
      DistinctNames(f, path, s', run[1..]);
    }
  }

  ghost predicate AllDistinct(s: State) {
    forall i, j :: 0 <= i < j < |s.writers| ==> s.writers[i].tmp != s.writers[j].tmp
  }

  // ----- what interleavings guarantee -----

  /** Bytes that are neither the initial ones nor some writer's complete ones. */
  ghost predicate Torn(path: Name, s0: State, b: Bytes) {
    && (path in s0.dir ==> s0.dir[path] < |s0.inodes| && b != s0.inodes[s0.dir[path]])
    && forall i :: 0 <= i < |s0.writers| ==> b != s0.writers[i].data
  }

  /** A reader of the destination sees nothing, the initial bytes or one writer's complete bytes. */
  ghost predicate Whole(path: Name, s0: State, s: State) {
    path in s.dir ==> s.dir[path] < |s.inodes| && !Torn(path, s0, s.inodes[s.dir[path]])
  }

  lemma GuardedIsWhole(f: Flavour, path: Name, s0: State, s: State)
    requires Initial(path, s0) && Inv(f, path, s0, s) && Guarded(path, s0, s)
    ensures Whole(path, s0, s)
  {
    if path in s.dir {
      if path in s0.dir && s.dir[path] == s0.dir[path] {
        assert s.inodes[s.dir[path]] == s.inodes[..|s0.inodes|][s.dir[path]];
      } else {
        var i :| 0 <= i < |s.writers| && s.inodes[s.dir[path]] == s.writers[i].data;
        assert s0.writers[i].data == s.writers[i].data;
      }
    }
  }

  /** A reader never sees a partial or mixed file, when no temp name is risky at the start, or when at no moment two
      writers that are under way share one. */
  lemma NeverTorn(f: Flavour, path: Name, s0: State, run: Run)
    requires Initial(path, s0) && IsRun(f, path, s0, run) && Apart(f, path, s0, run)
    ensures Whole(path, s0, After(f, path, s0, run))
  {
    InitialHolds(f, path, s0);
    GuardedAtStart(path, s0);
    RunKeeps(f, path, s0, s0, run);
    RunKeepsGuarded(f, path, s0, s0, run);
    GuardedIsWhole(f, path, s0, After(f, path, s0, run));
  }

  /** Without the unlink the destination, once there, is there in every reachable state. */
  lemma LocalNeverAbsent(path: Name, s0: State, run: Run)
    requires Initial(path, s0) && IsRun(Local, path, s0, run) && path in s0.dir
    ensures path in After(Local, path, s0, run).dir
  {
    InitialHolds(Local, path, s0);
    RunKeeps(Local, path, s0, s0, run);
  }

  /** When every writer has returned Ok the destination is there, and holds the bytes of one of them. */
  lemma AllOkDelivers(f: Flavour, path: Name, s0: State, run: Run)
    requires Initial(path, s0) && IsRun(f, path, s0, run) && |s0.writers| > 0
    requires forall i :: 0 <= i < |After(f, path, s0, run).writers| ==>
                           After(f, path, s0, run).writers[i].pc == Done(true, true)
    ensures var s := After(f, path, s0, run);
            path in s.dir && |s0.inodes| <= s.dir[path] < |s.inodes| &&
            (Apart(f, path, s0, run) ==>
               exists i :: 0 <= i < |s0.writers| && s.inodes[s.dir[path]] == s0.writers[i].data)
  {
    InitialHolds(f, path, s0);
    RunKeeps(f, path, s0, s0, run);
    var s := After(f, path, s0, run);
    assert |s.writers| == |s0.writers|;
    assert s.writers[0].pc == Done(true, true);
    assert path in s.dir;
    OkIsNeverUndone(f, path, s0, run, 0);
  }

  /** Once some writer has returned Ok the initial file is gone for good, whatever names were drawn. */
  lemma OkIsNeverUndone(f: Flavour, path: Name, s0: State, run: Run, i: nat)
    requires Initial(path, s0) && IsRun(f, path, s0, run) && i < |s0.writers|
    ensures var s := After(f, path, s0, run);
            |s.writers| == |s0.writers| &&
            (s.writers[i].pc == Done(true, true) && path in s.dir ==>
               && |s0.inodes| <= s.dir[path] < |s.inodes|
               && (Apart(f, path, s0, run) ==>
                     exists j :: 0 <= j < |s0.writers| && s.inodes[s.dir[path]] == s0.writers[j].data))
  {
    InitialHolds(f, path, s0);
    RunKeeps(f, path, s0, s0, run);
    var s := After(f, path, s0, run);
    if Apart(f, path, s0, run) && s.writers[i].pc == Done(true, true) && path in s.dir {
      GuardedAtStart(path, s0);
      RunKeepsGuarded(f, path, s0, s0, run);
      var j :| 0 <= j < |s.writers| && s.inodes[s.dir[path]] == s.writers[j].data;
      assert s0.writers[j].data == s.writers[j].data;
    }
  }

  // ----- what is left behind -----

  lemma StillAnswered(f: Flavour, path: Name, s: State, i: nat, a: Action, n: Name)
    requires i < |s.writers| && Enabled(f, s, i, a) && n != path
    requires n in Next(f, path, s, i, a).dir && (n in s.dir ==> AnsweredFor(s, n))
    ensures AnsweredFor(Next(f, path, s, i, a), n)
  {
    var s' := Next(f, path, s, i, a);
    if n !in s.dir {
      assert Answerable(s'.writers[i].pc);
    } else {
      var j :| 0 <= j < |s.writers| && s.writers[j].tmp == n && Answerable(s.writers[j].pc);
      assert Answerable(s'.writers[j].pc);
    }
  }

  /** A file that was not there at the start belongs to a writer that still has it or left it behind. */
  lemma {:induction false} RunAnswers(f: Flavour, path: Name, s: State, run: Run, n: Name)
    requires n != path && IsRun(f, path, s, run) && (n in s.dir ==> AnsweredFor(s, n))
    ensures n in After(f, path, s, run).dir ==> AnsweredFor(After(f, path, s, run), n)
    decreases run
  {
    hide AnsweredFor;
    if run != [] {
      var s' := Next(f, path, s, run[0].0, run[0].1);
      if n in s'.dir {
        StillAnswered(f, path, s, run[0].0, run[0].1, n);
      }
      RunAnswers(f, path, s', run[1..], n);
    }
  }

  lemma NothingToAnswer(s: State, n: Name)
    requires forall i :: 0 <= i < |s.writers| ==> s.writers[i].pc.Done? && s.writers[i].pc.cleaned
    ensures !AnsweredFor(s, n)
  {
  }

  /** When all writers have ended and every cleanup removed its temp, nothing but the destination has changed, whatever
      names were drawn, when none was there at the start. */
  lemma NoLitter(f: Flavour, path: Name, s0: State, run: Run)
    requires Initial(path, s0) && NoTempsYet(s0) && IsRun(f, path, s0, run)
    requires forall i :: 0 <= i < |After(f, path, s0, run).writers| ==>
                           After(f, path, s0, run).writers[i].pc.Done? && After(f, path, s0, run).writers[i].pc.cleaned
    ensures var s := After(f, path, s0, run);
            s.dir - {path} == s0.dir - {path} && forall n :: n in s0.dir && n != path ==>
              n in s.dir && s.dir[n] < |s.inodes| && s.inodes[s.dir[n]] == s0.inodes[s0.dir[n]]
  {
    hide AbsenceExplained, NothingStale, HolderNew, HoldersDistinct, AnsweredFor;
    InitialHolds(f, path, s0);
    RunKeeps(f, path, s0, s0, run);
    var s := After(f, path, s0, run);
    forall n | n in s0.dir && n != path ensures !IsTemp(s0, n) {}
    forall n | n != path ensures n in s.dir <==> n in s0.dir {
      if n !in s0.dir {
        RunAnswers(f, path, s0, run, n);
        NothingToAnswer(s, n);
      }
    }
    forall n | n in s0.dir && n != path ensures s.inodes[s.dir[n]] == s0.inodes[s0.dir[n]] {
      assert s.inodes[s.dir[n]] == s.inodes[..|s0.inodes|][s.dir[n]];
    }
  }

  // ----- runs that happen -----

  lemma {:induction false} OneMore(f: Flavour, path: Name, s: State, run: Run, i: nat, a: Action)
    requires IsRun(f, path, s, run)
    requires i < |After(f, path, s, run).writers| && Enabled(f, After(f, path, s, run), i, a)
    ensures IsRun(f, path, s, run + [(i, a)])
    ensures After(f, path, s, run + [(i, a)]) == Next(f, path, After(f, path, s, run), i, a)
    decreases run
  {
    var longer := run + [(i, a)];
    if run == [] {
    } else {
      OneMore(f, path, Next(f, path, s, run[0].0, run[0].1), run[1..], i, a);
      assert longer[1..] == run[1..] + [(i, a)];
    }
  }

  lemma Snoc(f: Flavour, path: Name, s: State, run: Run, i: nat, a: Action) returns (longer: Run)
    requires IsRun(f, path, s, run)
    requires i < |After(f, path, s, run).writers| && Enabled(f, After(f, path, s, run), i, a)
    ensures IsRun(f, path, s, longer)
    ensures After(f, path, s, longer) == Next(f, path, After(f, path, s, run), i, a)
  {
    OneMore(f, path, s, run, i, a);
    longer := run + [(i, a)];
  }

  ghost predicate CanOpen(path: Name, s: State, i: nat) {
    i < |s.writers| && s.writers[i].pc.Start? && s.writers[i].tmp !in s.dir && s.writers[i].tmp != path
  }

  /** Writer `i` opens its temp and gets `upTo` bytes into it. */
  lemma ReachPartial(f: Flavour, path: Name, s0: State, before: Run, i: nat, upTo: nat) returns (run: Run)
    requires IsRun(f, path, s0, before) && CanOpen(path, After(f, path, s0, before), i)
    requires upTo <= |After(f, path, s0, before).writers[i].data|
    ensures IsRun(f, path, s0, run)
    ensures var s := After(f, path, s0, before);
            var w := s.writers[i];
            After(f, path, s0, run) ==
              State(s.dir[w.tmp := |s.inodes|], s.inodes + [w.data[..upTo]],
                    s.writers[i := w.(pc := Writing(upTo), handle := |s.inodes|)])
  {
    ghost var s := After(f, path, s0, before);
    run := Snoc(f, path, s0, before, i, Open(true, true));
    run := Snoc(f, path, s0, run, i, Write(upTo));
    assert After(f, path, s0, run).inodes == s.inodes + [s.writers[i].data[..upTo]];
  }

  /** Writer `i` runs up to its rename without a failure; its unlink, if it makes one, takes effect or not. */
  lemma ReachRename(f: Flavour, path: Name, s0: State, before: Run, i: nat, unlinks: bool) returns (run: Run)
    requires IsRun(f, path, s0, before) && CanOpen(path, After(f, path, s0, before), i)
    ensures IsRun(f, path, s0, run)
    ensures var s := After(f, path, s0, before);
            var w := s.writers[i];
            var dir := s.dir[w.tmp := |s.inodes|];
            After(f, path, s0, run) ==
              State(if f.Remote? && unlinks then dir - {path} else dir, s.inodes + [w.data],
                    s.writers[i := w.(pc := if f.Remote? then Unlinked else Settled, handle := |s.inodes|)])
  {
    ghost var w := After(f, path, s0, before).writers[i];
    run := ReachPartial(f, path, s0, before, i, |w.data|);
    assert w.data[..|w.data|] == w.data;
    run := Snoc(f, path, s0, run, i, FinishWrite(true));
    run := Snoc(f, path, s0, run, i, Settle(true));
    if f.Remote? {
      run := Snoc(f, path, s0, run, i, Unlink(unlinks));
    }
  }

  /** Writer `i` finds its temp name taken, and removes it. */
  lemma ReachTaken(f: Flavour, path: Name, s0: State, before: Run, i: nat) returns (run: Run)
    requires IsRun(f, path, s0, before)
    requires var s := After(f, path, s0, before);
             i < |s.writers| && s.writers[i].pc.Start? && s.writers[i].tmp in s.dir
    ensures IsRun(f, path, s0, run)
    ensures var s := After(f, path, s0, before);
            After(f, path, s0, run) ==
              State(s.dir - {s.writers[i].tmp}, s.inodes, s.writers[i := s.writers[i].(pc := Done(false, true))])
  {
    run := Snoc(f, path, s0, before, i, Open(false, false));
    run := Snoc(f, path, s0, run, i, Cleanup(true));
  }

  /** A writer that meets no failure delivers its bytes. */
  lemma CleanRunDelivers(f: Flavour, path: Name, s: State, i: nat)
    requires CanOpen(path, s, i)
    ensures exists run :: IsRun(f, path, s, run) &&
              var s' := After(f, path, s, run);
              |s'.writers| == |s.writers| && s'.writers[i].pc == Done(true, true) &&
              path in s'.dir && s'.dir[path] < |s'.inodes| && s'.inodes[s'.dir[path]] == s.writers[i].data
  {
    var run := ReachRename(f, path, s, [], i, true);
    run := Snoc(f, path, s, run, i, Rename(true, true));
  }

  /** The unlink before the rename can lose the old content for good: the server refuses the rename,
      the writer cleans up and reports the error, and nothing is left at the destination. */
  lemma RefusedRenameLosesOldContent(path: Name, s: State, i: nat)
    requires CanOpen(path, s, i) && path in s.dir
    ensures exists run :: IsRun(Remote, path, s, run) &&
              var s' := After(Remote, path, s, run);
              |s'.writers| == |s.writers| && s'.writers[i].pc == Done(false, true) && path !in s'.dir
  {
    var run := ReachRename(Remote, path, s, [], i, true);
    run := Snoc(Remote, path, s, run, i, Rename(false, false));
    run := Snoc(Remote, path, s, run, i, Cleanup(true));
  }

  /** An error does not mean that the old content is still there: the rename may have taken place and its reply been
      lost. */
  lemma LostReplyDelivers(f: Flavour, path: Name, s: State, i: nat)
    requires CanOpen(path, s, i)
    ensures exists run :: IsRun(f, path, s, run) &&
              var s' := After(f, path, s, run);
              |s'.writers| == |s.writers| && s'.writers[i].pc == Done(false, true) &&
              path in s'.dir && s'.dir[path] < |s'.inodes| && s'.inodes[s'.dir[path]] == s.writers[i].data
  {
    var run := ReachRename(f, path, s, [], i, true);
    run := Snoc(f, path, s, run, i, Rename(true, false));
    run := Snoc(f, path, s, run, i, Cleanup(false));
  }

  /** A writer that crashes leaves its temp behind, with any beginning of its bytes. */
  lemma CrashLeavesTemp(f: Flavour, path: Name, s: State, i: nat, upTo: nat)
    requires CanOpen(path, s, i) && upTo <= |s.writers[i].data|
    ensures exists run :: IsRun(f, path, s, run) &&
              var s', tmp := After(f, path, s, run), s.writers[i].tmp;
              |s'.writers| == |s.writers| && s'.writers[i].pc.Crashed? &&
              tmp in s'.dir && s'.dir[tmp] < |s'.inodes| && s'.inodes[s'.dir[tmp]] == s.writers[i].data[..upTo]
  {
    var run := ReachPartial(f, path, s, [], i, upTo);
    run := Snoc(f, path, s, run, i, Crash);
  }

  /** So does one whose open took place and was reported failed, when its cleanup fails as well. */
  lemma LostOpenLeavesTemp(f: Flavour, path: Name, s: State, i: nat)
    requires CanOpen(path, s, i)
    ensures exists run :: IsRun(f, path, s, run) &&
              var s' := After(f, path, s, run);
              |s'.writers| == |s.writers| && s'.writers[i].pc == Done(false, false) && s.writers[i].tmp in s'.dir
  {
    var run := Snoc(f, path, s, [], i, Open(true, false));
    run := Snoc(f, path, s, run, i, Cleanup(false));
  }

  /** The README's "old or new, at every moment" holds exactly of the protocol without the unlink, as soon as one writer
      finds its temp name free. */
  lemma AlwaysPresentIffLocal(f: Flavour, path: Name, s0: State)
    requires Initial(path, s0) && path in s0.dir && exists i :: 0 <= i < |s0.writers| && s0.writers[i].tmp !in s0.dir
    ensures (forall run :: IsRun(f, path, s0, run) ==> path in After(f, path, s0, run).dir) <==> f.Local?
  {
    if f.Local? {
      forall run | IsRun(f, path, s0, run) ensures path in After(f, path, s0, run).dir {
        LocalNeverAbsent(path, s0, run);
      }
    } else {
      var i :| 0 <= i < |s0.writers| && s0.writers[i].tmp !in s0.dir;
      RefusedRenameLosesOldContent(path, s0, i);
    }
  }

  /** Cleanup removes the temp name even when it is the exclusive open that failed, so a file
      that was there before the call, and is no temp of it, is deleted. */
  lemma FailedOpenDeletesForeignFile(f: Flavour, path: Name, s: State, i: nat)
    requires i < |s.writers| && s.writers[i].pc.Start? && s.writers[i].tmp in s.dir
    ensures exists run :: IsRun(f, path, s, run) && s.writers[i].tmp !in After(f, path, s, run).dir
  {
    var run := ReachTaken(f, path, s, [], i);
  }

  /** A file that is there before the writers begin, and is not their destination, is safe in every run if and only if
      no writer's temp has its name: cleanup removes that name even when it is the exclusive open that failed. */
  lemma ForeignFileSafeIff(f: Flavour, path: Name, s0: State, n: Name)
    requires Initial(path, s0) && n in s0.dir && n != path
    ensures (forall run :: IsRun(f, path, s0, run) ==> SameFile(s0, After(f, path, s0, run), n)) <==> !IsTemp(s0, n)
  {
    if IsTemp(s0, n) {
      var i :| 0 <= i < |s0.writers| && s0.writers[i].tmp == n;
      var run := ReachTaken(f, path, s0, [], i);
      assert !SameFile(s0, After(f, path, s0, run), n);
    } else {
      forall run | IsRun(f, path, s0, run) ensures SameFile(s0, After(f, path, s0, run), n) {
        InitialHolds(f, path, s0);
        RunKeeps(f, path, s0, s0, run);
        var s := After(f, path, s0, run);
        assert s.inodes[s.dir[n]] == s.inodes[..|s0.inodes|][s.dir[n]];
      }
    }
  }

  predicate SameFile(s0: State, s: State, n: Name) {
    && n in s0.dir && n in s.dir && s0.dir[n] < |s0.inodes| && s.dir[n] < |s.inodes|
    && s.inodes[s.dir[n]] == s0.inodes[s0.dir[n]]
  }

  /** Three writers that drew the same free temp name can leave any prefix of the third one's bytes at the
      destination. */
  lemma SharedTempTears(f: Flavour, path: Name, s0: State, before: Run, i: nat, j: nat, k: nat, upTo: nat)
      returns (run: Run)
    requires IsRun(f, path, s0, before)
    requires var s := After(f, path, s0, before);
             && CanOpen(path, s, i) && CanOpen(path, s, j) && CanOpen(path, s, k) && i != j && j != k && i != k
             && s.writers[i].tmp == s.writers[j].tmp == s.writers[k].tmp && upTo <= |s.writers[k].data|
    ensures IsRun(f, path, s0, run)
    ensures var s, s' := After(f, path, s0, before), After(f, path, s0, run);
            path in s'.dir && s'.dir[path] < |s'.inodes| && s'.inodes[s'.dir[path]] == s.writers[k].data[..upTo]
  {
    run := ReachRename(f, path, s0, before, i, false);
    run := ReachTaken(f, path, s0, run, j);
    run := ReachPartial(f, path, s0, run, k, upTo);
    run := Snoc(f, path, s0, run, i, Rename(true, true));
  }

  lemma CrowdTears(f: Flavour, path: Name, s0: State) returns (run: Run)
    requires Initial(path, s0) && Crowded(s0)
    requires forall k :: 0 <= k < |s0.writers| ==> CanTear(path, s0, k)
    ensures IsRun(f, path, s0, run) && !Whole(path, s0, After(f, path, s0, run))
  {
    var n, i: nat, j: nat, k: nat :| ThreeDrew(s0, n, i, j, k) && (n !in s0.dir || FourthDrew(s0, n, i, j, k));
    assert CanTear(path, s0, k);
    var upTo :| 0 <= upTo <= |s0.writers[k].data| && Torn(path, s0, s0.writers[k].data[..upTo]);
    run := [];
    if n in s0.dir {
      var l: nat :| Drew(s0, n, l) && l != i && l != j && l != k;
      run := ReachTaken(f, path, s0, run, l);
    }
    run := SharedTempTears(f, path, s0, run, i, j, k, upTo);
  }

  ghost predicate FourthDrew(s: State, n: Name, i: nat, j: nat, k: nat) {
    exists l: nat :: Drew(s, n, l) && l != i && l != j && l != k
  }

  /** The writer's bytes have a beginning that is neither the initial file nor anyone's complete one. */
  ghost predicate CanTear(path: Name, s0: State, k: nat)
    requires k < |s0.writers|
  {
    exists upTo :: 0 <= upTo <= |s0.writers[k].data| && Torn(path, s0, s0.writers[k].data[..upTo])
  }

  /** Exactly when a reader can see a torn file: when three writers have drawn one temp name, or four one under which
      there is a file. */
  lemma NeverTornIff(f: Flavour, path: Name, s0: State)
    requires Initial(path, s0) && forall k :: 0 <= k < |s0.writers| ==> CanTear(path, s0, k)
    ensures (forall run :: IsRun(f, path, s0, run) ==> Whole(path, s0, After(f, path, s0, run))) <==> !Crowded(s0)
  {
    hide Initial, Whole, CanTear, Crowded;
    RiskyIsCrowded(path, s0);
    if Crowded(s0) {
      var run := CrowdTears(f, path, s0);
    } else {
      forall run | IsRun(f, path, s0, run) ensures Whole(path, s0, After(f, path, s0, run)) {
        NeverTorn(f, path, s0, run);
      }
    }
  }
}

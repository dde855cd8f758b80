/** `push_path` and `pull_path` of src/sftp.rs: recursive copies between the two file systems of a session. */
module TreeCopy {
  import opened Basics
  import opened Tree
  import opened Listing
  import opened Session
  import opened Copy
  import opened PushResult
  import opened CopyFits
  import opened CopyStates

  /** Where a copy to `q` may leave a trace: `q`, what is below it, and the temps beside it. */
  predicate Reach(q: string, k: string) {
    Within(q, k) || IsTempOf(q, k)
  }

  ghost predicate OnlyReached(before: Nodes, after: Nodes, q: string) {
    forall k :: !Reach(q, k) ==> SameAt(before, after, k)
  }

  /** Nothing is at the place of a copy, and it can be made there. */
  ghost predicate Room(before: Nodes, q: string) {
    Creatable(before, q) && NothingWithin(before, q)
  }

  lemma ReachOfEntry(q: string, n: string, k: string)
    requires Reach(q + "/" + n, k)
    ensures Under(q, k)
  {
    var c := q + "/" + n;
    assert c[..|q|] == q && c[|q|] == '/';
    assert k[..|c|] == c by {
      if IsTempOf(c, k) {
        assert k[..|c| + 5][..|c|] == c;
      }
    }
    assert k[..|q|] == k[..|c|][..|q|];
    assert k[|q|] == k[..|c|][|q|];
  }

  lemma ReachGrows(before: Nodes, mid: Nodes, after: Nodes, q: string, n: string)
    requires OnlyReached(before, mid, q) && OnlyReached(mid, after, q + "/" + n)
    ensures OnlyReached(before, after, q)
  {
    forall k | !Reach(q, k) ensures SameAt(before, after, k) {
      if Reach(q + "/" + n, k) {
        ReachOfEntry(q, n, k);
      }
    }
  }

  /** A write to `path` stays within reach of it, however many slashes it ends with. */
  lemma WriteReach(path: string, suffix: string)
    requires IsSuffix(suffix)
    ensures Reach(TrimSlashes(path), path) && Reach(TrimSlashes(path), TempName(path, suffix))
  {
    var p, tmp := TrimSlashes(path), TempName(path, suffix);
    if p == path {
      assert tmp[..|p| + 5] == p + ".tmp." && tmp[|p| + 5..] == suffix;
    } else {
      assert tmp[..|p|] == path[..|p|] == p && tmp[|p|] == path[|p|] == '/';
    }
  }

  lemma OneWriteReached(before: Nodes, after: Nodes, path: string, suffix: string)
    requires IsSuffix(suffix) && AgreeOutside(before, after, {path, TempName(path, suffix)})
    ensures OnlyReached(before, after, TrimSlashes(path))
  {
    WriteReach(path, suffix);
  }

  /** The state of a directory push; `calm` says that no call has failed yet. */
  ghost predicate PushLoop(src: Nodes, p: string, q: string, done: set<string>, before: Nodes, now: Nodes, calm: bool) {
    OnlyReached(before, now, q) && Tried(src, p, q, done, before, now, calm)
  }

  /** Nothing stands in the way of a push: without a failed call it returns Ok. */
  ghost predicate Unhindered(src: Nodes, p: string, before: Nodes, remote: string) {
    TempsClear(src, p, before, TrimSlashes(remote)) && FilesFit(src, p, before, remote)
  }

  /**
   `push_path`.  A push that returns Ok has brought every file's bytes, whatever calls have failed.  Without a failed
   call everything has arrived if and only if the directories fit: a `create_dir` that fails is ignored.  Without a
   failed call and with no temp name taken it returns Ok if and only if the files fit, whatever is at the target
   already.  At every moment, also of a push that fails, each path has its old node or its source's, but for the one
   write under way.
   */
  method PushPath(s: Session, local: string, remote: string) returns (ok: bool)
    requires s.Valid()
    modifies s`remote, s`trace, s`faults
    ensures s.Valid() && s.faults >= old(s.faults)
    ensures OnlyReached(old(s.remote), s.remote, TrimSlashes(remote))
    ensures ok ==> Lookup(s.local, local).Some?
    ensures ok ==> TriedAll(s.local, TrimSlashes(local), TrimSlashes(remote), old(s.remote), s.remote,
                            s.faults == old(s.faults))
    ensures ok ==> FilesAt(s.local, TrimSlashes(local), s.remote, TrimSlashes(remote))
    ensures ok && s.faults == old(s.faults) ==>
              var p, q := TrimSlashes(local), TrimSlashes(remote);
              CopiedAll(s.local, p, q, old(s.remote), s.remote, true) <==> Fits(s.local, p, old(s.remote), q)
    ensures ok && s.faults == old(s.faults) ==> FilesFit(s.local, TrimSlashes(local), old(s.remote), remote)
    ensures Lookup(s.local, local).Some? && s.faults == old(s.faults) ==>
              Unhindered(s.local, TrimSlashes(local), old(s.remote), remote) ==> ok
    ensures Extends(old(s.trace), s.trace)
    ensures AllCopying(Push, s.local, TrimSlashes(local), remote, old(s.remote), s.trace, |old(s.trace)|)
    ensures !ok && s.faults == old(s.faults) ==>
              Stopped(Push, s.local, TrimSlashes(local), remote, old(s.remote), s.remote)
    decreases Subtree(s.local, TrimSlashes(local)), 2
  {
    hide CopiedAll, TriedAll, Fits, FilesAt, FilesFit, TempsClear, AllCopying, Stopped, WellFormed;
    NothingCopied(Push, s.local, TrimSlashes(local), remote, s.remote, s.trace);
    var statFault, readFault: bool := *, *;
    var found := Lookup(s.local, local);
    if found.None? { return false; }
    if statFault || readFault {
      s.Fail();
      return false;
    }
    if found.value.Dir? {
      ok := PushDir(s, local, remote);
    } else {
      ok := PushFile(s, local, remote);
      if !ok && s.faults == old(s.faults) {
        BlockedFile(s.local, TrimSlashes(local), old(s.remote), remote);
      }
    }
    if ok {
      ghost var calm := s.faults == old(s.faults);
      PushedFilesArrive(s.local, TrimSlashes(local), TrimSlashes(remote), old(s.remote), s.remote, calm);
    }
    if ok && s.faults == old(s.faults) {
      CopiedIffFits(s.local, TrimSlashes(local), TrimSlashes(remote), old(s.remote), s.remote);
      PushedFits(s.local, TrimSlashes(local), old(s.remote), s.remote, remote);
    }
  }

  /** What can stop the push of a file stands in its way. */
  lemma BlockedFile(src: Nodes, p: string, before: Nodes, remote: string)
    requires p in src && src[p].File?
    requires || !Creatable(before, remote) || IsDir(before, remote)
             || exists t :: t in before && IsTempOf(TrimSlashes(remote), t)
    ensures !Unhindered(src, p, before, remote)
  {
    var q := TrimSlashes(remote);
    assert q[|q|..] == [] && p + [] == p;
    assert Within(q, q) && IsFileTarget(src, p, q, q);
    if t :| t in before && IsTempOf(q, t) {
      assert !TempsClear(src, p, before, q);
    } else {
      assert Canonical(remote) ==> !FileFits(before, q, q);
    }
  }

  method PushFile(s: Session, local: string, remote: string) returns (ok: bool)
    requires s.Valid() && Lookup(s.local, local).Some? && Lookup(s.local, local).value.File?
    modifies s`remote, s`trace, s`faults
    ensures s.Valid() && s.faults >= old(s.faults)
    ensures OnlyReached(old(s.remote), s.remote, TrimSlashes(remote))
    ensures ok ==> TriedAll(s.local, TrimSlashes(local), TrimSlashes(remote), old(s.remote), s.remote,
                            s.faults == old(s.faults))
    ensures ok ==> Canonical(remote)
    ensures !ok && s.faults == old(s.faults) ==>
              || !Creatable(old(s.remote), remote) || IsDir(old(s.remote), remote)
              || exists t :: t in old(s.remote) && IsTempOf(TrimSlashes(remote), t)
    ensures Extends(old(s.trace), s.trace)
    ensures AllCopying(Push, s.local, TrimSlashes(local), remote, old(s.remote), s.trace, |old(s.trace)|)
    ensures !ok && s.faults == old(s.faults) ==>
              Stopped(Push, s.local, TrimSlashes(local), remote, old(s.remote), s.remote)
  {
    hide CopiedAll, TriedAll, MergedMode, OnlyReached, Windows, NothingLost, AllCopying, Stopped, WellFormed;
    var file := s.local[TrimSlashes(local)];
    var suffix := RandomTmpSuffix();
    OneTempOf(remote, suffix);
    ghost var before := s.remote;
    ok := s.AtomicWriteRemote(remote, file.data, suffix);
    WriteReach(remote, suffix);
    WritesCopy(s.local, TrimSlashes(local), remote, before, s.trace, |old(s.trace)|, suffix);
    if !ok && s.faults == old(s.faults) {
      FailedWriteStops(Push, s.local, TrimSlashes(local), remote, before, s.remote, suffix);
    }
    if ok {
      if file.mode.Some? {
        KeepRemoteMode(s, local, remote, file.mode.value, before, |old(s.trace)|);
      }
      FileCopied(s.local, TrimSlashes(local), remote, before, s.remote, s.faults == old(s.faults));
      FileTried(s.local, TrimSlashes(local), remote, before, s.remote, s.faults == old(s.faults));
    }
    OneWriteReached(before, s.remote, remote, suffix);
  }

  /** The mode update, which may fail. */
  method KeepRemoteMode(s: Session, ghost local: string, remote: string, mode: bv32, ghost before: Nodes,
                        ghost from: nat)
    requires s.Valid() && IsFile(s.local, TrimSlashes(local)) && Canonical(remote) && !IsDir(before, remote)
    requires HasData(s.remote, remote, s.local[TrimSlashes(local)].data) && AgreeOutside(before, s.remote, {remote})
    requires from <= |s.trace| && AllCopying(Push, s.local, TrimSlashes(local), remote, before, s.trace, from)
    modifies s`remote, s`trace, s`faults
    ensures s.Valid() && s.faults >= old(s.faults) && Extends(old(s.trace), s.trace)
    ensures ModeOnly(old(s.remote), s.remote, remote)
    ensures s.faults == old(s.faults) ==>
              remote in s.remote && s.remote[remote].File? && ModeMatches(Some(mode), s.remote[remote].mode)
    ensures AllCopying(Push, s.local, TrimSlashes(local), remote, before, s.trace, from)
  {
    hide MergedMode, ModeMatches, WellFormed, Arrived, Copying;
    MergedMatches(s.remote[remote].mode, mode);
    ghost var p, sent, states := TrimSlashes(local), s.remote, s.trace;
    ModeCopies(Push, s.local, p, remote, before, sent, sent);
    var kept := s.SetRemoteMode(remote, mode);
    forall i | |states| <= i < |s.trace|
      ensures Copying(Push, s.local, p, remote, before, s.trace[i], i + 1 < |s.trace|)
    {
      ModeCopies(Push, s.local, p, remote, before, sent, s.trace[i]);
      ArrivedCopies(Push, s.local, p, remote, before, s.trace[i], i + 1 < |s.trace|);
    }
    CopyingJoin(Push, s.local, p, remote, before, states, s.trace, from);
  }

  lemma NothingCopied(way: Way, src: Nodes, p: string, path: string, before: Nodes, states: seq<Nodes>)
    ensures Extends(states, states) && AllCopying(way, src, p, path, before, states, |states|)
    ensures Stopped(way, src, p, path, before, before)
  {
  }

  /** The `create_dir` a directory push begins with. */
  method MakeRemoteDir(s: Session, local: string, remote: string)
    requires s.Valid() && IsDir(s.local, TrimSlashes(local))
    modifies s`remote, s`trace, s`faults
    ensures s.Valid() && s.faults >= old(s.faults)
    ensures PushLoop(s.local, TrimSlashes(local), TrimSlashes(remote), {}, old(s.remote), s.remote,
                     s.faults == old(s.faults))
    ensures s.trace == old(s.trace) + [s.remote]
  {
    s.Mkdir(remote);
    DirMade(s.local, TrimSlashes(local), TrimSlashes(remote), old(s.remote), s.remote, s.faults == old(s.faults));
  }

  method PushDir(s: Session, local: string, remote: string) returns (ok: bool)
    requires s.Valid() && IsDir(s.local, TrimSlashes(local))
    modifies s`remote, s`trace, s`faults
    ensures s.Valid() && s.faults >= old(s.faults)
    ensures OnlyReached(old(s.remote), s.remote, TrimSlashes(remote))
    ensures ok ==> TriedAll(s.local, TrimSlashes(local), TrimSlashes(remote), old(s.remote), s.remote,
                            s.faults == old(s.faults))
    ensures Unhindered(s.local, TrimSlashes(local), old(s.remote), remote) && s.faults == old(s.faults) ==> ok
    ensures Extends(old(s.trace), s.trace)
    ensures AllCopying(Push, s.local, TrimSlashes(local), remote, old(s.remote), s.trace, |old(s.trace)|)
    ensures !ok && s.faults == old(s.faults) ==>
              Stopped(Push, s.local, TrimSlashes(local), remote, old(s.remote), s.remote)
    decreases Subtree(s.local, TrimSlashes(local)), 1
  {
    hide Unhindered, Tried, TriedAll, AllCopying, Stopped, Arrived, WellFormed;
    ghost var p, q, before := TrimSlashes(local), TrimSlashes(remote), s.remote;
    MakeRemoteDir(s, local, remote);
    DirCopies(s.local, p, remote, before, s.remote, s.trace, s.faults == old(s.faults));
    ok := true;
    var names := Children(s.local, local);
    ghost var done: set<string> := {};
    while names != {}
      invariant s.Valid() && s.faults >= old(s.faults)
      invariant names + done == Children(s.local, local) && names !! done
      invariant PushLoop(s.local, p, q, done, before, s.remote, s.faults == old(s.faults))
      invariant Extends(old(s.trace), s.trace)
      invariant AllCopying(Push, s.local, p, remote, before, s.trace, |old(s.trace)|)
      decreases names
    {
      var name :| name in names;
      ok := PushEntry(s, local, remote, name, done, before, |old(s.trace)|, s.faults == old(s.faults));
      if !ok { return; }
      names := names - {name};
      done := done + {name};
    }
    TriedDone(s.local, local, q, before, s.remote, s.faults == old(s.faults));
  }

  lemma DirCopies(src: Nodes, p: string, remote: string, before: Nodes, now: Nodes, states: seq<Nodes>, calm: bool)
    requires PushLoop(src, p, TrimSlashes(remote), {}, before, now, calm)
    requires |states| > 0 && states[|states| - 1] == now
    ensures AllCopying(Push, src, p, remote, before, states, |states| - 1)
  {
    hide Arrived, TrimSlashes;
    TriedArrived(src, p, TrimSlashes(remote), {}, before, now, calm);
    ArrivedCopies(Push, src, p, remote, before, now, false);
  }

  /** One turn of the directory loop. */
  method PushEntry(s: Session, local: string, remote: string, name: string, ghost done: set<string>,
                   ghost before: Nodes, ghost from: nat, ghost calm: bool) returns (ok: bool)
    requires s.Valid() && IsDir(s.local, TrimSlashes(local))
    requires name in Children(s.local, local) && done <= Children(s.local, local) - {name}
    requires PushLoop(s.local, TrimSlashes(local), TrimSlashes(remote), done, before, s.remote, calm)
    requires from <= |s.trace| && AllCopying(Push, s.local, TrimSlashes(local), remote, before, s.trace, from)
    modifies s`remote, s`trace, s`faults
    ensures s.Valid() && s.faults >= old(s.faults)
    ensures OnlyReached(before, s.remote, TrimSlashes(remote))
    ensures ok ==> PushLoop(s.local, TrimSlashes(local), TrimSlashes(remote), done + {name}, before, s.remote,
                            calm && s.faults == old(s.faults))
    ensures calm && s.faults == old(s.faults) && Unhindered(s.local, TrimSlashes(local), before, remote) ==> ok
    ensures Extends(old(s.trace), s.trace)
    ensures AllCopying(Push, s.local, TrimSlashes(local), remote, before, s.trace, from)
    ensures !ok && s.faults == old(s.faults) ==> Stopped(Push, s.local, TrimSlashes(local), remote, before, s.remote)
    decreases Subtree(s.local, TrimSlashes(local)), 0
  {
    ghost var p, q, mid, states := TrimSlashes(local), TrimSlashes(remote), s.remote, s.trace;
    hide Tried, TriedAll, CopiedAll, Fits, Unhindered, OnlyReached, AllCopying, Stopped, Arrived, WellFormed;
    ChildSubtree(s.local, local, name);
    JoinTrims(remote, name);
    if calm && Unhindered(s.local, p, before, remote) {
      EntryUnhindered(s.local, local, before, mid, remote, done, name);
    }
    ok := PushPath(s, Join(local, name), Join(remote, name));
    ReachGrows(before, mid, s.remote, q, name);
    TriedArrived(s.local, p, q, done, before, mid, calm);
    EntriesCopy(Push, s.local, local, remote, name, before, mid, s.trace, |states|);
    CopyingJoin(Push, s.local, p, remote, before, states, s.trace, from);
    if !ok && s.faults == old(s.faults) {
      EntryStops(Push, s.local, local, remote, name, before, mid, s.remote);
    }
    if ok {
      TriedStep(s.local, local, q, done, name, before, mid, s.remote, calm, s.faults == old(s.faults));
    }
  }

  lemma EntryUnhindered(src: Nodes, dir: string, before: Nodes, mid: Nodes, remote: string, done: set<string>,
                        n: string)
    requires WellFormed(src) && IsDir(src, TrimSlashes(dir)) && Unhindered(src, TrimSlashes(dir), before, remote)
    requires done <= Children(src, dir) && n in Children(src, dir) && n !in done
    requires Tried(src, TrimSlashes(dir), TrimSlashes(remote), done, before, mid, true)
    ensures Unhindered(src, Join(dir, n), mid, Join(remote, n))
  {
    var p, q := TrimSlashes(dir), TrimSlashes(remote);
    forall k ensures IsCopy(src, p, q, done, k) || SameAt(before, mid, k) {
      assert TriedAt(src, p, q, done, before, mid, k, true);
    }
    hide Tried, FilesFit, TempsClear, IsCopy;
    EntryFits(src, dir, remote, done, n, before, mid);
    EntryTempsClear(src, dir, q, done, n, before, mid);
    JoinTrims(remote, n);
  }

  /** Directories can go missing from a push that returns Ok and met no failed call: a directory goes to where a file
      is. */
  method PushOntoFile(s: Session, data: Bytes) returns (ok: bool)
    requires s.Valid() && s.local == map["d" := Dir] && s.remote == map["q" := File(data, None, None)]
    modifies s`remote, s`trace, s`faults
    ensures s.faults == old(s.faults) ==>
              ok && IsFile(s.remote, "q") && !CopiedAll(s.local, "d", "q", old(s.remote), s.remote, true)
  {
    ok := PushPath(s, "d", "q");
    assert Within("q", "q") && SourceKey("d", "q", "q") == "d";
    assert IsFile(old(s.remote), "q");
    if s.faults == old(s.faults) {
      assert TriedAllAt(s.local, "d", "q", old(s.remote), s.remote, "q", true);
    }
  }

  // ----- pull -----

  /** Missing directories above `q` may have been made; nothing else has changed. */
  ghost predicate AncestorsMade(before: Nodes, after: Nodes, q: string) {
    forall k :: SameAt(before, after, k) || (k !in before && IsDir(after, k) && Under(k, q))
  }

  /** As `OnlyReached`, but missing directories above `q` may have been made. */
  ghost predicate PullReached(before: Nodes, after: Nodes, q: string) {
    forall k :: !Reach(q, k) ==> SameAt(before, after, k) || (k !in before && IsDir(after, k) && Under(k, q))
  }

  lemma PullReachGrows(before: Nodes, mid: Nodes, after: Nodes, q: string, n: string)
    requires IsName(n) && PullReached(before, mid, q) && PullReached(mid, after, q + "/" + n)
    ensures PullReached(before, after, q)
  {
    forall k | !Reach(q, k) ensures SameAt(before, after, k) || (k !in before && IsDir(after, k) && Under(k, q)) {
      if Reach(q + "/" + n, k) {
        ReachOfEntry(q, n, k);
      }
      if Under(k, q + "/" + n) {
        UnderEntryOrSelf(k, q, n);
      }
    }
  }

  /** Missing directories on the way to `k` may have been made, `k` included. */
  ghost predicate DirsMade(before: Nodes, now: Nodes, k: string) {
    forall m :: SameAt(before, now, m) || (m !in before && IsDir(now, m) && Within(m, k))
  }

  ghost predicate AllDirsMade(before: Nodes, states: seq<Nodes>, from: nat, k: string) {
    forall i :: from <= i < |states| ==> DirsMade(before, states[i], k)
  }

  lemma NoDirsMade(before: Nodes, states: seq<Nodes>, k: string)
    ensures DirsMade(before, before, k) && AllDirsMade(before, states, |states|, k) && Extends(states, states)
  {
  }

  lemma DirsMadeBelow(before: Nodes, now: Nodes, states: seq<Nodes>, from: nat, parent: string, k: string)
    requires Under(parent, k) && DirsMade(before, now, parent) && AllDirsMade(before, states, from, parent)
    ensures DirsMade(before, now, k) && AllDirsMade(before, states, from, k) && SameAt(before, now, k)
  {
    forall m | Within(m, parent) ensures Under(m, k) {
      assert parent[..|m|] == k[..|m|];
    }
  }

  lemma OneDirMade(before: Nodes, mid: Nodes, now: Nodes, k: string, earlier: seq<Nodes>, later: seq<Nodes>, from: nat)
    requires DirsMade(before, mid, k) && AllDirsMade(before, earlier, from, k) && later == earlier + [now]
    requires now == mid || (k !in mid && now == mid[k := Dir])
    ensures DirsMade(before, now, k) && AllDirsMade(before, later, from, k)
  {
    assert forall i :: 0 <= i < |earlier| ==> later[i] == earlier[i];
  }

  /** `create_dir_all`; the root directory cannot be made. */
  method CreateDirAll(s: Session, k: string) returns (ok: bool)
    requires s.Valid() && Canonical(k)
    modifies s`local, s`localTrace, s`faults
    ensures s.Valid() && s.faults >= old(s.faults) && Extends(old(s.localTrace), s.localTrace)
    ensures DirsMade(old(s.local), s.local, k) && AllDirsMade(old(s.local), s.localTrace, |old(s.localTrace)|, k)
    ensures ok ==> IsDir(s.local, k)
    ensures k in old(s.local) ==> s.local == old(s.local)
    ensures Creatable(old(s.local), k) ==> AgreeOutside(old(s.local), s.local, {k})
    ensures ok ==> Makeable(old(s.local), k)
    ensures !ok && s.faults == old(s.faults) ==> !Makeable(old(s.local), k)
    decreases |k|
  {
    hide Canonical, TrimSlashes, DirsMade, AllDirsMade;
    ghost var before, n := s.local, |s.localTrace|;
    NoDirsMade(before, s.localTrace, k);
    if k == [] || k in s.local { return IsDir(s.local, k); }
    if '/' in k {
      var parent := TrimSlashes(ParentOf(k));
      assert Under(parent, k);
      ok := CreateDirAll(s, parent);
      DirsMadeBelow(before, s.local, s.localTrace, n, parent, k);
      if !ok { return; }
    }
    ghost var mid, states := s.local, s.localTrace;
    var possible := k !in s.local && Creatable(s.local, k);
    if possible {
      WithNode(s.local, k, Dir);
    }
    ok := s.LocalStep(possible, s.local[k := Dir]);
    OneDirMade(before, mid, s.local, k, states, s.localTrace, n);
  }

  /** `apply_local_mode`: the permission bits are set, the file type stays; callers only warn when it fails. */
  method ApplyLocalMode(s: Session, path: string, mode: bv32)
    requires s.Valid() && path in s.local && s.local[path].File?
    modifies s`local, s`localTrace, s`faults
    ensures s.Valid() && s.faults >= old(s.faults)
    ensures var old_ := old(s.local)[path];
            s.local == old(s.local) || s.local == old(s.local)[path := old_.(mode := Some(MergedMode(old_.mode, mode)))]
    ensures s.faults == old(s.faults) ==>
              s.local != old(s.local) || old(s.local)[path].mode == Some(MergedMode(old(s.local)[path].mode, mode))
    ensures s.localTrace == old(s.localTrace) + [s.local]
  {
    var file := s.local[path];
    var after := s.local[path := file.(mode := Some(MergedMode(file.mode, mode)))];
    assert WellFormed(after) by {
      forall q | q in after ensures Canonical(q) && HasParent(after, q) { assert HasParent(s.local, q); }
    }
    var ok := s.LocalStep(true, after);
  }

  /** Nothing stands in the way of a pull: without a failed call it returns Ok. */
  ghost predicate PullClear(src: Nodes, p: string, before: Nodes, local: string) {
    TempsClear(src, p, before, TrimSlashes(local)) && PullFits(src, p, before, local)
  }

  /** `pull_path`.  `base` is the local tree with the directories above the target in place.  Without a failed call and
      with no temp name taken it returns Ok if and only if the whole fits, whatever is at the target already.  At every
      moment each path has its old node or its source's, and nothing but one temp is on its way. */
  method PullPath(s: Session, remote: string, local: string) returns (ok: bool, ghost base: Nodes)
    requires s.Valid()
    modifies s`local, s`localTrace, s`faults
    ensures s.Valid() && s.faults >= old(s.faults)
    ensures PullReached(old(s.local), s.local, TrimSlashes(local))
    ensures ok ==> Lookup(s.remote, remote).Some?
    ensures ok ==>
              && AncestorsMade(old(s.local), base, TrimSlashes(local))
              && CopiedAll(s.remote, TrimSlashes(remote), TrimSlashes(local), base, s.local, s.faults == old(s.faults))
    ensures ok ==> FilesAt(s.remote, TrimSlashes(remote), s.local, TrimSlashes(local))
    ensures ok && Creatable(old(s.local), TrimSlashes(local)) ==> base == old(s.local)
    ensures ok ==> PullFits(s.remote, TrimSlashes(remote), old(s.local), local)
    ensures Lookup(s.remote, remote).Some? && s.faults == old(s.faults) ==>
              PullClear(s.remote, TrimSlashes(remote), old(s.local), local) ==> ok
    ensures Extends(old(s.localTrace), s.localTrace)
    ensures AllCopying(Pull, s.remote, TrimSlashes(remote), local, old(s.local), s.localTrace, |old(s.localTrace)|)
    ensures !ok && s.faults == old(s.faults) ==>
              Stopped(Pull, s.remote, TrimSlashes(remote), local, old(s.local), s.local)
    decreases Subtree(s.remote, TrimSlashes(remote)), 2
  {
    hide AllCopying, Stopped, WellFormed;
    base := s.local;
    NothingCopied(Pull, s.remote, TrimSlashes(remote), local, s.local, s.localTrace);
    var statFault, readFault: bool := *, *;
    var found := Lookup(s.remote, remote);
    if found.None? { return false, base; }
    if statFault || readFault {
      s.Fail();
      return false, base;
    }
    if found.value.Dir? {
      ok, base := PullDir(s, remote, local);
    } else {
      ok, base := PullFile(s, remote, local);
    }
    if ok {
      CopiedFilesArrive(s.remote, TrimSlashes(remote), TrimSlashes(local), base, s.local, s.faults == old(s.faults));
    }
  }

  /** The directory that is to hold `local` is made when it is missing. */
  method MakeParent(s: Session, local: string) returns (ok: bool)
    requires s.Valid()
    modifies s`local, s`localTrace, s`faults
    ensures s.Valid() && s.faults >= old(s.faults)
    ensures AncestorsMade(old(s.local), s.local, TrimSlashes(local)) && Extends(old(s.localTrace), s.localTrace)
    ensures forall i :: |old(s.localTrace)| <= i < |s.localTrace| ==>
                          AncestorsMade(old(s.local), s.localTrace[i], TrimSlashes(local))
    ensures Creatable(old(s.local), TrimSlashes(local)) ==> s.local == old(s.local)
    ensures '/' in TrimSlashes(local) ==>
              var parent := TrimSlashes(ParentOf(TrimSlashes(local)));
              && (ok ==> Makeable(old(s.local), parent) && IsDir(s.local, parent))
              && (!ok && s.faults == old(s.faults) ==> !Makeable(old(s.local), parent))
    ensures '/' !in TrimSlashes(local) ==> ok
  {
    ghost var q := TrimSlashes(local);
    ok := true;
    if '/' in TrimSlashes(local) {
      var parent := TrimSlashes(ParentOf(TrimSlashes(local)));
      assert Under(parent, q);
      ghost var before, from := s.local, |s.localTrace|;
      ok := CreateDirAll(s, parent);
      DirsAreAncestors(before, s.local, parent, q);
      forall i | from <= i < |s.localTrace| ensures AncestorsMade(before, s.localTrace[i], q) {
        assert DirsMade(before, s.localTrace[i], parent);
        DirsAreAncestors(before, s.localTrace[i], parent, q);
      }
    }
  }

  lemma DirsAreAncestors(before: Nodes, now: Nodes, parent: string, q: string)
    requires Under(parent, q) && DirsMade(before, now, parent)
    ensures AncestorsMade(before, now, q)
  {
    forall m | Within(m, parent) ensures Under(m, q) {
      assert parent[..|m|] == q[..|m|];
    }
  }

  /** `atomic_write_local` and then the best-effort mode update. */
  method WriteLocalFile(s: Session, ghost src: Nodes, ghost p: string, local: string, data: Bytes, mode: Option<bv32>)
      returns (ok: bool)
    requires s.Valid() && IsFile(src, p) && src[p].data == data
    modifies s`local, s`localTrace, s`faults
    ensures s.Valid() && s.faults >= old(s.faults)
    ensures OnlyReached(old(s.local), s.local, TrimSlashes(local))
    ensures ok ==> Canonical(local) && AgreeOutside(old(s.local), s.local, {local}) && HasData(s.local, local, data)
    ensures ok ==> Creatable(old(s.local), local) && !IsDir(old(s.local), local)
    ensures ok && s.faults == old(s.faults) ==> ModeMatches(mode, s.local[local].mode)
    ensures !ok && s.faults == old(s.faults) ==>
              !Creatable(old(s.local), local) || IsDir(old(s.local), local) ||
              exists k :: k in old(s.local) && IsTempOf(TrimSlashes(local), k)
    ensures Extends(old(s.localTrace), s.localTrace)
    ensures AllCopying(Pull, src, p, local, old(s.local), s.localTrace, |old(s.localTrace)|)
    ensures !ok && s.faults == old(s.faults) ==> Stopped(Pull, src, p, local, old(s.local), s.local)
  {
    hide MergedMode, OnlyReached, AllCopying, Stopped, LocalWindows, WellFormed, Arrived;
    var suffix := RandomTmpSuffix();
    WriteReach(local, suffix);
    OneTempOf(local, suffix);
    ghost var before := s.local;
    ok := s.AtomicWriteLocal(local, data, suffix);
    LocalWritesCopy(src, p, local, before, s.localTrace, |old(s.localTrace)|, suffix);
    if !ok && s.faults == old(s.faults) {
      FailedWriteStops(Pull, src, p, local, before, s.local, suffix);
    }
    if ok && mode.Some? {
      ghost var sent, states := s.local, s.localTrace;
      MergedMatches(s.local[local].mode, mode.value);
      ApplyLocalMode(s, local, mode.value);
      LocalModeCopies(src, p, local, before, sent, s.local, states, s.localTrace, |old(s.localTrace)|);
    }
    OneWriteReached(before, s.local, local, suffix);
  }

  lemma LocalModeCopies(src: Nodes, p: string, local: string, before: Nodes, sent: Nodes, now: Nodes,
                        earlier: seq<Nodes>, later: seq<Nodes>, from: nat)
    requires IsFile(src, p) && Canonical(local) && !IsDir(before, local) && HasData(sent, local, src[p].data)
    requires AgreeOutside(before, sent, {local}) && ModeOnly(sent, now, local)
    requires |earlier| > 0 && earlier[|earlier| - 1] == sent && later == earlier + [now] && from <= |earlier|
    requires AllCopying(Pull, src, p, local, before, earlier, from)
    ensures AllCopying(Pull, src, p, local, before, later, from)
  {
    hide Arrived, Copying, ModeOnly;
    SameModes(sent, local);
    ModeCopies(Pull, src, p, local, before, sent, sent);
    ModeCopies(Pull, src, p, local, before, sent, now);
    ArrivedCopies(Pull, src, p, local, before, now, false);
    CopyingJoin(Pull, src, p, local, before, earlier, later, from);
  }

  lemma SameModes(t: Nodes, path: string)
    ensures ModeOnly(t, t, path)
  {
  }

  lemma OneTempOf(path: string, suffix: string)
    requires IsSuffix(suffix)
    ensures Canonical(path) ==> IsTempOf(TrimSlashes(path), TempName(path, suffix))
  {
    assert TempName(path, suffix)[..|path| + 5] == path + ".tmp." && TempName(path, suffix)[|path| + 5..] == suffix;
  }

  method PullFile(s: Session, remote: string, local: string) returns (ok: bool, ghost base: Nodes)
    requires s.Valid() && Lookup(s.remote, remote).Some? && Lookup(s.remote, remote).value.File?
    modifies s`local, s`localTrace, s`faults
    ensures s.Valid() && s.faults >= old(s.faults)
    ensures PullReached(old(s.local), s.local, TrimSlashes(local))
    ensures ok ==>
              && AncestorsMade(old(s.local), base, TrimSlashes(local))
              && CopiedAll(s.remote, TrimSlashes(remote), TrimSlashes(local), base, s.local, s.faults == old(s.faults))
    ensures ok && Creatable(old(s.local), TrimSlashes(local)) ==> base == old(s.local)
    ensures ok ==> PullFits(s.remote, TrimSlashes(remote), old(s.local), local)
    ensures s.faults == old(s.faults) ==> PullClear(s.remote, TrimSlashes(remote), old(s.local), local) ==> ok
    ensures Extends(old(s.localTrace), s.localTrace)
    ensures AllCopying(Pull, s.remote, TrimSlashes(remote), local, old(s.local), s.localTrace, |old(s.localTrace)|)
    ensures !ok && s.faults == old(s.faults) ==>
              Stopped(Pull, s.remote, TrimSlashes(remote), local, old(s.local), s.local)
  {
    hide AllCopying, Stopped, CopiedAll, KindsFit, TempsClear;
    ghost var before, p := s.local, TrimSlashes(remote);
    var file := s.remote[TrimSlashes(remote)];
    ok := MakeParent(s, local);
    base := s.local;
    ghost var states := s.localTrace;
    AncestorsCopy(s.remote, p, local, before, base, states, |old(s.localTrace)|);
    if !ok { return; }
    ok := WriteLocalFile(s, s.remote, p, local, file.data, file.mode);
    AllSinceEarlier(Pull, s.remote, p, local, before, base, s.localTrace, |states|);
    CopyingJoin(Pull, s.remote, p, local, before, states, s.localTrace, |old(s.localTrace)|);
    SinceEarlier(Pull, s.remote, p, local, before, base, s.local, false);
    PulledFile(s.remote, p, before, base, local, ok, s.faults == old(s.faults));
    if ok {
      FileCopied(s.remote, p, local, base, s.local, s.faults == old(s.faults));
    }
  }

  lemma AncestorsCopy(src: Nodes, p: string, local: string, before: Nodes, now: Nodes, states: seq<Nodes>, from: nat)
    requires AncestorsMade(before, now, TrimSlashes(local))
    requires forall i :: from <= i < |states| ==> AncestorsMade(before, states[i], TrimSlashes(local))
    ensures AllCopying(Pull, src, p, local, before, states, from) && Stopped(Pull, src, p, local, before, now)
    ensures Arrived(Pull, src, p, TrimSlashes(local), before, now)
  {
    hide TrimSlashes, Copying, Stopped;
    assert Arrived(Pull, src, p, TrimSlashes(local), before, now);
    ArrivedCopies(Pull, src, p, local, before, now, false);
    forall i | from <= i < |states| ensures Copying(Pull, src, p, local, before, states[i], i + 1 < |states|) {
      assert Arrived(Pull, src, p, TrimSlashes(local), before, states[i]);
      ArrivedCopies(Pull, src, p, local, before, states[i], i + 1 < |states|);
    }
  }

  lemma TargetCopies(src: Nodes, p: string, local: string, before: Nodes, now: Nodes, states: seq<Nodes>, from: nat)
    requires IsDir(src, p) && DirsMade(before, now, TrimSlashes(local))
    requires AllDirsMade(before, states, from, TrimSlashes(local))
    ensures AllCopying(Pull, src, p, local, before, states, from) && Stopped(Pull, src, p, local, before, now)
  {
    var q := TrimSlashes(local);
    assert q[|q|..] == [] && p + [] == p;
    hide TrimSlashes, Copying, Stopped;
    assert Arrived(Pull, src, p, q, before, now);
    ArrivedCopies(Pull, src, p, local, before, now, false);
    forall i | from <= i < |states| ensures Copying(Pull, src, p, local, before, states[i], i + 1 < |states|) {
      assert DirsMade(before, states[i], q);
      assert Arrived(Pull, src, p, q, before, states[i]);
      ArrivedCopies(Pull, src, p, local, before, states[i], i + 1 < |states|);
    }
  }

  /** Whether a file could be pulled, once the directory above it was there. */
  lemma PulledFile(src: Nodes, p: string, before: Nodes, base: Nodes, local: string, ok: bool, calm: bool)
    requires WellFormed(src) && WellFormed(base) && IsFile(src, p) && AncestorsMade(before, base, TrimSlashes(local))
    requires '/' in TrimSlashes(local) ==>
               var parent := TrimSlashes(ParentOf(TrimSlashes(local))); Makeable(before, parent) && IsDir(base, parent)
    requires ok ==> Creatable(base, local) && !IsDir(base, local)
    requires !ok && calm ==>
               || !Creatable(base, local) || IsDir(base, local)
               || exists k :: k in base && IsTempOf(TrimSlashes(local), k)
    ensures ok ==> PullFits(src, p, before, local)
    ensures calm && PullClear(src, p, before, local) ==> ok
  {
    var q := TrimSlashes(local);
    assert q[|q|..] == [] && p + [] == p;
    assert Within(q, q) && IsFileTarget(src, p, q, q);
    assert SameAt(before, base, q);
    forall t | IsTempOf(q, t) ensures SameAt(before, base, t) {}
    if ok {
      forall k | Within(q, k) && SourceKey(p, q, k) in src ensures k == q { NothingBelowFile(src, p, q, k); }
    }
  }

  /** The target directory and those above it are made when missing; `base` is the tree without the target. */
  method MakeTarget(s: Session, local: string) returns (ok: bool, ghost base: Nodes)
    requires s.Valid()
    modifies s`local, s`localTrace, s`faults
    ensures s.Valid() && s.faults >= old(s.faults)
    ensures PullReached(old(s.local), s.local, TrimSlashes(local)) &&
              AncestorsMade(old(s.local), base, TrimSlashes(local))
    ensures ok ==> IsDir(s.local, TrimSlashes(local)) && AgreeOutside(base, s.local, {TrimSlashes(local)})
    ensures Creatable(old(s.local), TrimSlashes(local)) ==> base == old(s.local)
    ensures ok ==> TrimSlashes(local) in base ==> IsDir(base, TrimSlashes(local))
    ensures ok ==> Makeable(old(s.local), TrimSlashes(local))
    ensures !ok && s.faults == old(s.faults) ==> !Makeable(old(s.local), TrimSlashes(local))
    ensures Extends(old(s.localTrace), s.localTrace) && DirsMade(old(s.local), s.local, TrimSlashes(local))
    ensures AllDirsMade(old(s.local), s.localTrace, |old(s.localTrace)|, TrimSlashes(local))
  {
    ghost var q, before := TrimSlashes(local), s.local;
    ok := CreateDirAll(s, TrimSlashes(local));
    base := if q in before then s.local else s.local - {q};
  }

  method PullDir(s: Session, remote: string, local: string) returns (ok: bool, ghost base: Nodes)
    requires s.Valid() && IsDir(s.remote, TrimSlashes(remote))
    modifies s`local, s`localTrace, s`faults
    ensures s.Valid() && s.faults >= old(s.faults)
    ensures PullReached(old(s.local), s.local, TrimSlashes(local))
    ensures ok ==>
              && AncestorsMade(old(s.local), base, TrimSlashes(local))
              && CopiedAll(s.remote, TrimSlashes(remote), TrimSlashes(local), base, s.local, s.faults == old(s.faults))
    ensures ok && Creatable(old(s.local), TrimSlashes(local)) ==> base == old(s.local)
    ensures ok ==> PullFits(s.remote, TrimSlashes(remote), old(s.local), local)
    ensures s.faults == old(s.faults) ==> PullClear(s.remote, TrimSlashes(remote), old(s.local), local) ==> ok
    ensures Extends(old(s.localTrace), s.localTrace)
    ensures AllCopying(Pull, s.remote, TrimSlashes(remote), local, old(s.local), s.localTrace, |old(s.localTrace)|)
    ensures !ok && s.faults == old(s.faults) ==>
              Stopped(Pull, s.remote, TrimSlashes(remote), local, old(s.local), s.local)
    decreases Subtree(s.remote, TrimSlashes(remote)), 1
  {
    hide PullReached, AncestorsMade, Lookup, WellFormed, Makeable, KindsFit, TempsClear, AllCopying, Stopped, Arrived;
    hide DirsMade, AllDirsMade;
    ghost var p, q, before := TrimSlashes(remote), TrimSlashes(local), s.local;
    ghost var clear := PullClear(s.remote, p, before, local);
    ok, base := MakeTarget(s, local);
    TargetCopies(s.remote, p, local, before, s.local, s.localTrace, |old(s.localTrace)|);
    if !ok { return; }
    DirCopied(s.remote, p, q, base, s.local, s.faults == old(s.faults));
    assert PullLoop(s.remote, p, q, {}, before, base, s.local, s.faults == old(s.faults));
    if clear {
      BaseFits(s.remote, p, before, base, q);
    }
    hide Copied, CopiedAll;
    var names := Children(s.remote, remote);
    ghost var done: set<string> := {};
    while names != {}
      invariant s.Valid() && s.faults >= old(s.faults)
      invariant names + done == Children(s.remote, remote) && names !! done
      invariant PullLoop(s.remote, p, q, done, before, base, s.local, s.faults == old(s.faults))
      invariant Extends(old(s.localTrace), s.localTrace)
      invariant AllCopying(Pull, s.remote, p, local, before, s.localTrace, |old(s.localTrace)|)
      decreases names
    {
      var name :| name in names;
      ghost var from := |old(s.localTrace)|;
      ok := PullEntry(s, remote, local, name, done, before, base, from, clear, s.faults == old(s.faults));
      if !ok { return; }
      names := names - {name};
      done := done + {name};
    }
    CopyDone(s.remote, remote, q, base, s.local, s.faults == old(s.faults));
    PulledKindsFit(s.remote, p, before, base, s.local, q, s.faults == old(s.faults));
  }

  /** Making directories above the target leaves what is at and below it, and the temps, as they were. */
  lemma BaseFits(src: Nodes, p: string, before: Nodes, base: Nodes, q: string)
    requires AncestorsMade(before, base, q) && KindsFit(src, p, before, q) && TempsClear(src, p, before, q)
    ensures KindsFit(src, p, base, q) && TempsClear(src, p, base, q)
  {
    forall k | Within(q, k) ensures SameAt(before, base, k) {}
    forall k, t | IsFileTarget(src, p, q, k) && IsTempOf(k, t) ensures t !in base {
      assert SameAt(before, base, t);
    }
  }

  lemma PulledKindsFit(src: Nodes, p: string, before: Nodes, base: Nodes, after: Nodes, q: string, calm: bool)
    requires AncestorsMade(before, base, q) && CopiedAll(src, p, q, base, after, calm)
    ensures KindsFit(src, p, before, q)
  {
    forall k | Within(q, k) && SourceKey(p, q, k) in src
      ensures SameAt(before, base, k) && (k in base ==> base[k].Dir? == src[SourceKey(p, q, k)].Dir?)
    {
      assert CopiedAllAt(src, p, q, base, after, k, calm);
    }
  }

  ghost predicate PullLoop(src: Nodes, p: string, q: string, done: set<string>, before: Nodes, base: Nodes,
                           now: Nodes, calm: bool) {
    PullReached(before, now, q) && Copied(src, p, q, done, base, now, calm)
  }

  /** One turn of the directory loop. */
  method PullEntry(s: Session, remote: string, local: string, name: string, ghost done: set<string>,
                   ghost before: Nodes, ghost base: Nodes, ghost from: nat, ghost clear: bool, ghost calm: bool)
      returns (ok: bool)
    requires s.Valid() && IsDir(s.remote, TrimSlashes(remote))
    requires name in Children(s.remote, remote) && done <= Children(s.remote, remote) - {name}
    requires clear ==> KindsFit(s.remote, TrimSlashes(remote), base, TrimSlashes(local))
    requires clear ==> TempsClear(s.remote, TrimSlashes(remote), base, TrimSlashes(local))
    requires PullLoop(s.remote, TrimSlashes(remote), TrimSlashes(local), done, before, base, s.local, calm)
    requires AncestorsMade(before, base, TrimSlashes(local)) && from <= |s.localTrace|
    requires AllCopying(Pull, s.remote, TrimSlashes(remote), local, before, s.localTrace, from)
    modifies s`local, s`localTrace, s`faults
    ensures s.Valid() && s.faults >= old(s.faults)
    ensures PullReached(before, s.local, TrimSlashes(local))
    ensures ok ==> PullLoop(s.remote, TrimSlashes(remote), TrimSlashes(local), done + {name}, before, base, s.local,
                            calm && s.faults == old(s.faults))
    ensures calm && s.faults == old(s.faults) && clear ==> ok
    ensures Extends(old(s.localTrace), s.localTrace)
    ensures AllCopying(Pull, s.remote, TrimSlashes(remote), local, before, s.localTrace, from)
    ensures !ok && s.faults == old(s.faults) ==> Stopped(Pull, s.remote, TrimSlashes(remote), local, before, s.local)
    decreases Subtree(s.remote, TrimSlashes(remote)), 0
  {
    hide KindsFit, TempsClear, Makeable, CopiedAll, AllCopying, Stopped, Arrived, WellFormed, PullReached;
    ghost var p, q, mid, states := TrimSlashes(remote), TrimSlashes(local), s.local, s.localTrace;
    ChildSubtree(s.remote, remote, name);
    JoinTrims(local, name);
    if clear {
      EntryClear(s.remote, remote, local, base, mid, done, name, calm);
    }
    TargetIsDir(s.remote, p, q, done, base, mid, calm);
    ghost var inner;
    ok, inner := PullPath(s, Join(remote, name), Join(local, name));
    PullReachGrows(before, mid, s.local, q, name);
    CopiedArrived(s.remote, p, q, done, before, base, mid, calm);
    EntriesCopy(Pull, s.remote, remote, local, name, before, mid, s.localTrace, |states|);
    CopyingJoin(Pull, s.remote, p, local, before, states, s.localTrace, from);
    if !ok && s.faults == old(s.faults) {
      EntryStops(Pull, s.remote, remote, local, name, before, mid, s.local);
    }
    if ok {
      EntryCreatable(s.remote, p, q, done, base, mid, name, calm);
      CopyStep(s.remote, p, q, done, name, base, mid, s.local, calm, s.faults == old(s.faults));
    }
  }

  lemma TargetIsDir(src: Nodes, p: string, q: string, done: set<string>, base: Nodes, mid: Nodes, calm: bool)
    requires IsDir(src, p) && Copied(src, p, q, done, base, mid, calm)
    ensures IsDir(mid, q)
  {
    assert q[|q|..] == [] && p + [] == p;
    assert CopiedAt(src, p, q, done, base, mid, q, calm);
  }

  lemma EntryClear(src: Nodes, dir: string, local: string, base: Nodes, mid: Nodes, done: set<string>, n: string,
                   calm: bool)
    requires WellFormed(src) && IsDir(src, TrimSlashes(dir))
    requires done <= Children(src, dir) && n in Children(src, dir) && n !in done
    requires Copied(src, TrimSlashes(dir), TrimSlashes(local), done, base, mid, calm)
    requires KindsFit(src, TrimSlashes(dir), base, TrimSlashes(local))
    requires TempsClear(src, TrimSlashes(dir), base, TrimSlashes(local))
    ensures PullClear(src, Join(dir, n), mid, Join(local, n))
  {
    var p, q := TrimSlashes(dir), TrimSlashes(local);
    assert CopiedAt(src, p, q, done, base, mid, q, calm);
    assert q[|q|..] == [] && p + [] == p;
    forall k ensures IsCopy(src, p, q, done, k) || SameAt(base, mid, k) {
      assert CopiedAt(src, p, q, done, base, mid, k, calm);
    }
    hide Copied, KindsFit, TempsClear, Makeable;
    EntryPullFits(src, dir, local, done, n, base, mid);
    EntryTempsClear(src, dir, q, done, n, base, mid);
    ChildKey(src, dir, n);
    JoinTrims(local, n);
  }

  /** Once its directory has been made, an entry can be created in it. */
  lemma EntryCreatable(src: Nodes, p: string, q: string, done: set<string>, base: Nodes, mid: Nodes, n: string,
                       calm: bool)
    requires IsDir(src, p) && Copied(src, p, q, done, base, mid, calm) && IsName(n)
    ensures Creatable(mid, q + "/" + n)
  {
    var child := q + "/" + n;
    assert CopiedAt(src, p, q, done, base, mid, q, calm);
    assert q[|q|..] == [] && p + [] == p;
    SplitLast(q, n, child);
    assert child[|child| - 1] == n[|n| - 1] && n[|n| - 1] in n;
  }

  // ----- there and back -----

  /** Where there is room the directories fit, the files do, and a pull does. */
  lemma RoomFits(src: Nodes, p: string, before: Nodes, q: string)
    requires WellFormed(src) && p in src && Room(before, q)
    ensures Fits(src, p, before, q) && FilesFit(src, p, before, q) && PullFits(src, p, before, q)
  {
    assert Within(q, q) && q !in before;
    if '/' in q {
      assert Makeable(before, ParentOf(q));
    }
  }

  /** The temps that a pull of the copy needs are free if those for the original would be. */
  lemma CopyTempsClear(src: Nodes, p: string, before: Nodes, after: Nodes, q: string, there: Nodes, back: string)
    requires CopiedAll(src, p, q, before, after, true) && NothingWithin(before, q) && TempsClear(src, p, there, back)
    ensures TempsClear(after, q, there, back)
  {
    forall k, t | IsFileTarget(after, q, back, k) && IsTempOf(k, t)
      ensures t !in there && !(Within(back, t) && SourceKey(q, back, t) in after)
    {
      CopyHasSource(src, p, before, after, q, back, k);
      assert IsFileTarget(src, p, back, k);
      if Within(back, t) && SourceKey(q, back, t) in after {
        CopyHasSource(src, p, before, after, q, back, t);
      }
    }
  }

  lemma CopyHasSource(src: Nodes, p: string, before: Nodes, after: Nodes, q: string, back: string, k: string)
    requires CopiedAll(src, p, q, before, after, true) && NothingWithin(before, q)
    requires Within(back, k) && SourceKey(q, back, k) in after
    ensures SourceKey(p, back, k) in src
    ensures IsFile(after, SourceKey(q, back, k)) ==> IsFile(src, SourceKey(p, back, k))
  {
    var m := SourceKey(q, back, k);
    SourceWithin(q, back, k);
    assert m[|q|..] == k[|back|..];
    assert CopiedAllAt(src, p, q, before, after, m, true);
  }

  /**
   A tree pushed to a place where nothing was and pulled to another such place comes back with every file's bytes when
   both return Ok.  When no call failed it comes back the same in names, contents and permission bits, and nothing but
   the two places has changed.  A run in which no call fails gets there, unless a temp meets a name that is taken: one
   in the tree, or one beside the two places.
   */
  method PushThenPull(s: Session, local: string, remote: string, back: string) returns (ok: bool)
    requires s.Valid() && Lookup(s.local, local).Some?
    requires Room(s.remote, remote) && Room(s.local, back)
    modifies s`local, s`localTrace, s`remote, s`trace, s`faults
    ensures s.Valid() && s.faults >= old(s.faults)
    ensures OnlyReached(old(s.remote), s.remote, remote) && PullReached(old(s.local), s.local, back)
    ensures ok ==> FilesAt(old(s.local), TrimSlashes(local), s.local, back)
    ensures ok && s.faults == old(s.faults) ==>
              && SameTree(old(s.local), TrimSlashes(local), s.local, back)
              && (forall k :: !Within(remote, k) ==> SameAt(old(s.remote), s.remote, k))
              && (forall k :: !Within(back, k) ==> SameAt(old(s.local), s.local, k))
    ensures TempsClear(old(s.local), TrimSlashes(local), old(s.remote), remote) && s.faults == old(s.faults) ==>
              TempsClear(old(s.local), TrimSlashes(local), old(s.local), back) ==> ok
  {
    hide CopiedAll, Fits, TriedAll, FilesAt, FilesFit, PullFits, TempsClear;
    RoomFits(s.local, TrimSlashes(local), s.remote, remote);
    ok := PushPath(s, local, remote);
    if !ok { return; }
    ghost var r1, base := s.remote, s.local;
    if s.faults == old(s.faults) {
      PulledBack(s.local, TrimSlashes(local), old(s.remote), r1, remote);
      RoomFits(r1, remote, s.local, back);
      if TempsClear(s.local, TrimSlashes(local), s.local, back) {
        CopyTempsClear(s.local, TrimSlashes(local), old(s.remote), r1, remote, s.local, back);
      }
    }
    ok, base := PullPath(s, remote, back);
    if ok {
      FilesAtTransitive(old(s.local), TrimSlashes(local), r1, remote, s.local, back);
    }
    if ok && s.faults == old(s.faults) {
      RoundTripIsIdentity(old(s.local), TrimSlashes(local), old(s.remote), r1, remote, old(s.local), s.local, back);
    }
  }

  /** The copy is there to be pulled. */
  lemma PulledBack(src: Nodes, p: string, before: Nodes, after: Nodes, q: string)
    requires p in src && CopiedAll(src, p, q, before, after, true)
    ensures q in after && (after[q].Dir? <==> src[p].Dir?)
  {
    assert CopiedAllAt(src, p, q, before, after, q, true);
    assert q[|q|..] == [] && p + [] == p;
  }
}

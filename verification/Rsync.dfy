/** `rsync_upload` of src/sftp.rs: the run itself, on a session whose every call may fail. */
module Rsync {
  import opened Basics
  import opened Tree
  import opened Listing
  import opened Session
  import opened RsyncPlan
  import opened RunMeaning

  // ----- what any state of a run, finished or not, may look like -----

  /** `q` holds its old node, its local counterpart's bytes, or is the root directory just created. */
  ghost predicate HeldAt(j: Job, before: Nodes, st: Nodes, q: string) {
    || SameAt(before, st, q)
    || (Planned(j, q) && HasData(st, q, j.local[Source(j, q)].data))
    || (q == j.rroot && q !in before && IsDir(st, q))
  }

  ghost predicate Held(j: Job, before: Nodes, st: Nodes) {
    forall q :: HeldAt(j, before, st, q)
  }

  /** The tree after the first `create_dir`. */
  ghost predicate RootAdded(j: Job, before: Nodes, base: Nodes) {
    forall q :: SameAt(before, base, q) || (q == j.rroot && q !in before && IsDir(base, q))
  }

  /** The destination of the one write that is under way can be absent.  As long as more is to come its temp then has
      all of the bytes. */
  ghost predicate AbsentAt(j: Job, st: Nodes, w: string, suffix: string, more: bool) {
    && Planned(j, w) && w !in st
    && (more ==> HasData(st, TempName(w, suffix), j.local[Source(j, w)].data))
  }

  /** At most one write is under way: its temp may hold anything. */
  ghost predicate UploadingVia(j: Job, before: Nodes, st: Nodes, w: string, suffix: string, more: bool) {
    forall q :: q != TempName(w, suffix) ==> HeldAt(j, before, st, q) || (q == w && AbsentAt(j, st, w, suffix, more))
  }

  ghost predicate Uploading(j: Job, before: Nodes, st: Nodes, more: bool) {
    Held(j, before, st) ||
    exists w, suffix :: Planned(j, w) && IsSuffix(suffix) && UploadingVia(j, before, st, w, suffix, more)
  }

  ghost predicate AllUploading(j: Job, before: Nodes, states: seq<Nodes>, from: nat, to: nat)
    requires to <= |states|
  {
    forall i :: from <= i < to ==> Uploading(j, before, states[i], i + 1 < |states|)
  }

  /** A run that ended with an error and no failed call: nothing is absent but a file that had the name of a temp. */
  ghost predicate Stopped(j: Job, before: Nodes, st: Nodes) {
    forall q :: HeldAt(j, before, st, q) || (q !in st && IsTempName(j, q))
  }

  ghost predicate IsTempName(j: Job, q: string) {
    exists w, suffix :: Planned(j, w) && IsSuffix(suffix) && q == TempName(w, suffix)
  }

  /** Every upload is complete; some of the doomed files may be gone. */
  ghost predicate Deleting(j: Job, base: Nodes, st: Nodes) {
    && j.o.deleteExtra && !j.o.dryRun
    && forall q :: DeletingAt(j, base, st, q)
  }

  ghost predicate DeletingAt(j: Job, base: Nodes, st: Nodes, q: string) {
    if IsUpload(j, base, q) then HasData(st, q, j.local[Source(j, q)].data)
    else SameAt(base, st, q) || (IsDoomed(j, base, q) && q !in st)
  }

  /** A reason, other than a failed call, for which the write to `q` cannot succeed. */
  ghost predicate Blocked(j: Job, base: Nodes, q: string) {
    || !Creatable(base, q) || IsDir(base, q)
    || exists suffix :: IsSuffix(suffix) && (TempName(q, suffix) in base || Planned(j, TempName(q, suffix)))
  }

  // ----- the upload loop -----

  /** The files in `todo` are still as listed; the others have been dealt with. */
  ghost predicate Progress(j: Job, base: Nodes, todo: set<string>, now: Nodes) {
    forall q :: ProgressAt(j, base, todo, now, q)
  }

  ghost predicate ProgressAt(j: Job, base: Nodes, todo: set<string>, now: Nodes, q: string) {
    if IsUpload(j, base, q) && Source(j, q) !in todo
    then HasData(now, q, j.local[Source(j, q)].data) && !IsDir(base, q)
    else SameAt(base, now, q)
  }

  lemma ProgressStart(j: Job, base: Nodes)
    requires WellFormedJob(j)
    ensures Progress(j, base, LocalFiles(j).Keys, base)
  {
  }

  lemma LoopStart(j: Job, before: Nodes, base: Nodes, todo: set<string>, states: seq<Nodes>)
    requires todo == LocalFiles(j).Keys && Progress(j, base, todo, base)
    ensures UploadLoop(j, before, base, todo, base, states, states)
  {
  }

  /** While `k` waits its turn the server still has what was listed for it. */
  lemma ProgressKeepsDecision(j: Job, base: Nodes, todo: set<string>, now: Nodes, k: string)
    requires WellFormedJob(j) && Progress(j, base, todo, now) && k in todo && k in LocalFiles(j)
    ensures SameAt(base, now, Target(j, k)) && Decide(j, now, k) == Decide(j, base, k)
    ensures Target(j, k) in RemoteFiles(j, base) <==> Target(j, k) in RemoteFiles(j, now)
    ensures Target(j, k) in RemoteFiles(j, base) ==>
              RemoteFiles(j, base)[Target(j, k)] == RemoteFiles(j, now)[Target(j, k)]
  {
    hide LocalFiles, RemoteFiles, Excluded, Target;
    UploadOf(j, base, k);
    assert ProgressAt(j, base, todo, now, Target(j, k));
    SameListed(j, base, now, Target(j, k));
  }

  lemma SameListed(j: Job, base: Nodes, now: Nodes, q: string)
    requires SameAt(base, now, q)
    ensures q in RemoteFiles(j, base) <==> q in RemoteFiles(j, now)
    ensures q in RemoteFiles(j, base) ==>
              q in base && base[q].File? && RemoteFiles(j, base)[q] == RemoteFiles(j, now)[q]
  {
  }

  lemma ProgressSkip(j: Job, base: Nodes, todo: set<string>, now: Nodes, k: string)
    requires WellFormedJob(j) && Progress(j, base, todo, now) && k in todo && k in LocalFiles(j)
    requires !Sends(Decide(j, base, k))
    ensures Progress(j, base, todo - {k}, now)
  {
    forall q ensures ProgressAt(j, base, todo - {k}, now, q) {
      assert ProgressAt(j, base, todo, now, q);
      if IsUpload(j, base, q) {
        SourceInverse(j, q);
      }
    }
  }

  lemma ProgressSentAt(j: Job, base: Nodes, todo: set<string>, now: Nodes, k: string, now': Nodes, q: string)
    requires WellFormedJob(j) && ProgressAt(j, base, todo, now, q) && k in todo && k in LocalFiles(j)
    requires Sends(Decide(j, base, k)) && !IsDir(now, Target(j, k))
    requires q == Target(j, k) ==> HasData(now', q, j.local[k].data)
    requires q != Target(j, k) ==> SameAt(now, now', q)
    ensures ProgressAt(j, base, todo - {k}, now', q)
  {
    if q == Target(j, k) {
      UploadOf(j, base, k);
    } else {
      NotFrom(j, base, k, q);
    }
  }

  lemma ProgressSent(j: Job, base: Nodes, todo: set<string>, now: Nodes, k: string, now': Nodes)
    requires WellFormedJob(j) && Progress(j, base, todo, now) && k in todo && k in LocalFiles(j)
    requires Sends(Decide(j, base, k)) && !IsDir(now, Target(j, k))
    requires HasData(now', Target(j, k), j.local[k].data) && AgreeOutside(now, now', {Target(j, k)})
    ensures Progress(j, base, todo - {k}, now')
  {
    forall q ensures ProgressAt(j, base, todo - {k}, now', q) {
      ProgressSentAt(j, base, todo, now, k, now', q);
    }
  }

  lemma NotFrom(j: Job, base: Nodes, k: string, q: string)
    requires q != Target(j, k) && Under(j.lroot, k)
    ensures IsUpload(j, base, q) ==> Source(j, q) != k
  {
    if IsUpload(j, base, q) {
      SourceInverse(j, q);
    }
  }

  lemma ProgressHeld(j: Job, before: Nodes, base: Nodes, todo: set<string>, now: Nodes)
    requires WellFormedJob(j) && Progress(j, base, todo, now) && RootAdded(j, before, base)
    ensures Held(j, before, now)
  {
    forall q ensures HeldAt(j, before, now, q) {
      if IsUpload(j, base, q) {
        UploadsSurvive(j, base, q);
      }
      assert ProgressAt(j, base, todo, now, q);
    }
  }

  lemma WindowHeldAt(j: Job, before: Nodes, now: Nodes, st: Nodes, k: string, q: string)
    requires WellFormedJob(j) && HeldAt(j, before, now, q) && k in LocalFiles(j) && !Excluded(j, k)
    requires q != Target(j, k) ==> SameAt(now, st, q)
    requires q == Target(j, k) ==> q !in st || SameAt(now, st, q) || HasData(st, q, j.local[k].data)
    ensures HeldAt(j, before, st, q) || (q == Target(j, k) && q !in st && !SameAt(now, st, q))
  {
    if q == Target(j, k) {
      UploadOf(j, now, k);
    }
  }

  /** Each state of one write is a state of an upload in progress. */
  lemma WindowIsUploading(j: Job, before: Nodes, now: Nodes, st: Nodes, k: string, suffix: string, more: bool)
    requires WellFormedJob(j) && Held(j, before, now) && k in LocalFiles(j) && !Excluded(j, k) && IsSuffix(suffix)
    requires WriteWindow(now, st, Target(j, k), TempName(Target(j, k), suffix), j.local[k].data)
    requires more ==> NothingLost(now, st, Target(j, k), TempName(Target(j, k), suffix), j.local[k].data)
    ensures Uploading(j, before, st, more)
  {
    hide HeldAt, Planned, Excluded, Target, LocalFiles, IsSuffix, Source;
    var w := Target(j, k);
    UploadOf(j, now, k);
    forall q | q != TempName(w, suffix)
      ensures HeldAt(j, before, st, q) || (q == w && AbsentAt(j, st, w, suffix, more))
    {
      WindowHeldAt(j, before, now, st, k, q);
    }
    assert UploadingVia(j, before, st, w, suffix, more);
  }

  lemma WindowsAreUploading(j: Job, before: Nodes, now: Nodes, states: seq<Nodes>, from: nat, k: string, suffix: string)
    requires WellFormedJob(j) && Held(j, before, now) && k in LocalFiles(j) && !Excluded(j, k) && IsSuffix(suffix)
    requires Windows(now, states, from, Target(j, k), TempName(Target(j, k), suffix), j.local[k].data)
    requires forall i :: from <= i < |states| - 1 ==>
                           NothingLost(now, states[i], Target(j, k), TempName(Target(j, k), suffix), j.local[k].data)
    ensures AllUploading(j, before, states, from, |states|)
  {
    hide Uploading, NothingLost, WriteWindow, WellFormedJob, Held, Excluded, LocalFiles, Target;
    forall i | from <= i < |states| ensures Uploading(j, before, states[i], i + 1 < |states|) {
      WindowIsUploading(j, before, now, states[i], k, suffix, i + 1 < |states|);
    }
  }

  /** A write that failed without a failed call has changed nothing but its temp's name. */
  lemma FailedWriteStops(j: Job, before: Nodes, now: Nodes, st: Nodes, w: string, suffix: string)
    requires Held(j, before, now) && Planned(j, w) && IsSuffix(suffix)
    requires AgreeOutside(now, st, {w, TempName(w, suffix)}) && SameAt(now, st, w)
    requires TempName(w, suffix) in st ==> IsDir(now, TempName(w, suffix)) && IsDir(st, TempName(w, suffix))
    ensures Stopped(j, before, st)
  {
    hide Planned, IsSuffix, Source;
    forall q ensures HeldAt(j, before, st, q) || (q !in st && IsTempName(j, q)) {
      assert HeldAt(j, before, now, q);
    }
  }

  lemma ModeKeepsProgressAt(j: Job, base: Nodes, todo: set<string>, now: Nodes, k: string, now': Nodes, q: string)
    requires WellFormedJob(j) && ProgressAt(j, base, todo, now, q) && k in LocalFiles(j) && k !in todo
    requires Sends(Decide(j, base, k)) && (SameAt(now, now', q) || (q == Target(j, k) && ModeOnly(now, now', q)))
    ensures ProgressAt(j, base, todo, now', q)
  {
    UploadOf(j, base, k);
  }

  /** A change of mode at a target already written. */
  lemma ModeKeepsProgress(j: Job, base: Nodes, todo: set<string>, now: Nodes, k: string, now': Nodes)
    requires WellFormedJob(j) && Progress(j, base, todo, now) && k in LocalFiles(j) && k !in todo
    requires Sends(Decide(j, base, k)) && ModeOnly(now, now', Target(j, k))
    ensures Progress(j, base, todo, now')
  {
    forall q ensures ProgressAt(j, base, todo, now', q) {
      ModeKeepsProgressAt(j, base, todo, now, k, now', q);
    }
  }

  /** Only the file at `target` may differ, and without a failed call it has the permission bits of the source. */
  ghost predicate Sent(before: Nodes, now: Nodes, target: string, mode: Option<bv32>, calm: bool) {
    && AgreeOutside(before, now, {target}) && target in now && now[target].File?
    && (calm ==> ModeMatches(mode, now[target].mode))
  }

  lemma ModesTurn(j: Job, base: Nodes, todo: set<string>, k: string, now: Nodes, now': Nodes)
    requires WellFormedJob(j) && k in todo && k in LocalFiles(j) && ModesSent(j, base, todo, now)
    requires if Sends(Decide(j, base, k)) then Sent(now, now', Target(j, k), j.local[k].mode, true) else now' == now
    ensures ModesSent(j, base, todo - {k}, now')
  {
    hide WellFormedJob, LocalFiles, Sends, Sent, Target, ModeSentAt;
    forall q ensures ModeSentAt(j, base, todo - {k}, now', q) {
      ModesTurnAt(j, base, todo, k, now, now', q);
    }
  }

  lemma ModesTurnAt(j: Job, base: Nodes, todo: set<string>, k: string, now: Nodes, now': Nodes, q: string)
    requires WellFormedJob(j) && k in todo && k in LocalFiles(j) && ModeSentAt(j, base, todo, now, q)
    requires if Sends(Decide(j, base, k)) then Sent(now, now', Target(j, k), j.local[k].mode, true) else now' == now
    ensures ModeSentAt(j, base, todo - {k}, now', q)
  {
    hide WellFormedJob, LocalFiles, Decide, Sends, Target, Source, IsUpload, ModeMatches;
    UploadedFrom(j, base, k, q);
    if q != Target(j, k) {
      assert SameAt(now, now', q);
    }
  }

  lemma UploadedFrom(j: Job, base: Nodes, k: string, q: string)
    requires WellFormedJob(j) && k in LocalFiles(j)
    ensures IsUpload(j, base, q) && Source(j, q) == k <==> q == Target(j, k) && Sends(Decide(j, base, k))
  {
    hide WellFormedJob, LocalFiles, Decide, Sends, Target, Source;
    UploadOf(j, base, k);
    if IsUpload(j, base, q) {
      SourceInverse(j, q);
    }
  }

  ghost predicate UploadsSame(j: Job, base: Nodes, now: Nodes, now': Nodes) {
    forall q :: IsUpload(j, base, q) ==> SameAt(now, now', q)
  }

  lemma ModesStay(j: Job, base: Nodes, now: Nodes, now': Nodes)
    requires ModesSent(j, base, {}, now) && UploadsSame(j, base, now, now')
    ensures ModesSent(j, base, {}, now')
  {
    forall q ensures ModeSentAt(j, base, {}, now', q) {
      assert ModeSentAt(j, base, {}, now, q);
    }
  }

  /** The write alone. */
  method WriteFile(s: Session, ghost j: Job, ghost before: Nodes, ghost base: Nodes, ghost todo: set<string>,
                   ghost k: string, target: string, data: Bytes) returns (ok: bool)
    requires s.Valid() && WellFormedJob(j) && Progress(j, base, todo, s.remote) && RootAdded(j, before, base)
    requires k in todo && k in LocalFiles(j) && Sends(Decide(j, base, k))
    requires target == Target(j, k) && data == j.local[k].data
    modifies s`remote, s`trace, s`faults
    ensures s.Valid() && s.faults >= old(s.faults) && Extends(old(s.trace), s.trace)
    ensures AllUploading(j, before, s.trace, |old(s.trace)|, |s.trace|)
    ensures ok ==> Progress(j, base, todo - {k}, s.remote) && HasParent(base, target)
    ensures ok ==> AgreeOutside(old(s.remote), s.remote, {target}) && target in s.remote && s.remote[target].File?
    ensures !ok ==> s.faults > old(s.faults) || Blocked(j, base, target)
    ensures !ok && s.faults == old(s.faults) ==> Stopped(j, before, s.remote)
  {
    hide AllUploading, WellFormedJob, Stopped, Planned, Held, Blocked, Windows, NothingLost, Progress, RootAdded;
    hide Target, TempName, Excluded, LocalFiles;
    var suffix := RandomTmpSuffix();
    ghost var now := s.remote;
    ProgressHeld(j, before, base, todo, now);
    UploadOf(j, base, k);
    ok := s.AtomicWriteRemote(target, data, suffix);
    WindowsAreUploading(j, before, now, s.trace, |old(s.trace)|, k, suffix);
    if ok {
      ParentUnchanged(j, base, todo, now, target);
      ProgressSent(j, base, todo, now, k, s.remote);
    } else {
      if s.faults == old(s.faults) {
        FailedWriteStops(j, before, now, s.remote, target, suffix);
      }
      if TempName(target, suffix) in now || !Writable(now, target) {
        BlockedEarlier(j, base, todo, now, target, suffix);
      }
    }
  }

  /** `atomic_write_remote` and then the best-effort mode update, as both branches of the loop do. */
  method SendFile(s: Session, ghost j: Job, ghost before: Nodes, ghost base: Nodes, ghost todo: set<string>,
                  ghost k: string, target: string, data: Bytes, mode: Option<bv32>) returns (ok: bool)
    requires s.Valid() && WellFormedJob(j) && Progress(j, base, todo, s.remote) && RootAdded(j, before, base)
    requires k in todo && k in LocalFiles(j) && Sends(Decide(j, base, k))
    requires target == Target(j, k) && data == j.local[k].data
    modifies s`remote, s`trace, s`faults
    ensures s.Valid() && s.faults >= old(s.faults) && Extends(old(s.trace), s.trace)
    ensures AllUploading(j, before, s.trace, |old(s.trace)|, |s.trace|)
    ensures ok ==> Progress(j, base, todo - {k}, s.remote) && HasParent(base, target)
    ensures ok ==> Sent(old(s.remote), s.remote, target, mode, s.faults == old(s.faults))
    ensures !ok ==> s.faults > old(s.faults) || Blocked(j, base, target)
    ensures !ok && s.faults == old(s.faults) ==> Stopped(j, before, s.remote)
  {
    hide MergedMode, ModeMatches, WellFormedJob, Stopped, Held, Blocked, Progress, AllUploading, RootAdded, WellFormed;
    ok := WriteFile(s, j, before, base, todo, k, target, data);
    if !ok { return; }
    ghost var sent, states := s.remote, s.trace;
    if mode.Some? {
      ProgressHeld(j, before, base, todo - {k}, sent);
      KeepMode(s, j, before, base, todo - {k}, k, target, mode.value);
      UploadingJoin(j, before, states, s.trace, |old(s.trace)|, |s.trace|);
    }
    SentStill(old(s.remote), sent, s.remote, target, mode, s.faults == old(s.faults));
  }

  lemma SentStill(before: Nodes, sent: Nodes, now: Nodes, target: string, mode: Option<bv32>, calm: bool)
    requires AgreeOutside(before, sent, {target}) && target in sent && sent[target].File? && ModeOnly(sent, now, target)
    requires calm && mode.Some? ==> target in now && now[target].File? && ModeMatches(mode, now[target].mode)
    ensures Sent(before, now, target, mode, calm)
  {
  }

  /** The mode update, which may fail. */
  method KeepMode(s: Session, ghost j: Job, ghost before: Nodes, ghost base: Nodes, ghost todo: set<string>,
                  ghost k: string, target: string, mode: bv32)
    requires s.Valid() && WellFormedJob(j) && Progress(j, base, todo, s.remote) && RootAdded(j, before, base)
    requires k !in todo && k in LocalFiles(j) && Sends(Decide(j, base, k)) && target == Target(j, k)
    requires target in s.remote && s.remote[target].File?
    modifies s`remote, s`trace, s`faults
    ensures s.Valid() && s.faults >= old(s.faults) && Extends(old(s.trace), s.trace)
    ensures AllUploading(j, before, s.trace, |old(s.trace)|, |s.trace|)
    ensures Progress(j, base, todo, s.remote) && ModeOnly(old(s.remote), s.remote, target)
    ensures s.faults == old(s.faults) ==>
              target in s.remote && s.remote[target].File? && ModeMatches(Some(mode), s.remote[target].mode)
  {
    hide MergedMode, Uploading, ModeMatches, WellFormedJob, Progress;
    MergedMatches(s.remote[target].mode, mode);
    ghost var sent, m := s.remote, |s.trace|;
    var kept := s.SetRemoteMode(target, mode);
    forall i | m <= i < |s.trace| ensures Uploading(j, before, s.trace[i], i + 1 < |s.trace|) {
      ModeKeepsProgress(j, base, todo, sent, k, s.trace[i]);
      ProgressHeld(j, before, base, todo, s.trace[i]);
      HeldIsUploading(j, before, s.trace[i], i + 1 < |s.trace|);
    }
    ModeKeepsProgress(j, base, todo, sent, k, s.remote);
  }

  lemma HeldIsUploading(j: Job, before: Nodes, st: Nodes, more: bool)
    requires Held(j, before, st)
    ensures Uploading(j, before, st, more)
  {
  }

  /** Directories, and so parents, are the same throughout the loop. */
  lemma ParentUnchanged(j: Job, base: Nodes, todo: set<string>, now: Nodes, q: string)
    requires Progress(j, base, todo, now)
    ensures Creatable(now, q) <==> Creatable(base, q)
    ensures IsDir(now, q) <==> IsDir(base, q)
  {
    assert ProgressAt(j, base, todo, now, q);
    if '/' in q {
      assert ProgressAt(j, base, todo, now, ParentOf(q));
    }
  }

  lemma BlockedEarlier(j: Job, base: Nodes, todo: set<string>, now: Nodes, q: string, suffix: string)
    requires WellFormedJob(j) && Progress(j, base, todo, now)
    requires (IsSuffix(suffix) && TempName(q, suffix) in now) || !Creatable(now, q) || IsDir(now, q)
    ensures Blocked(j, base, q)
  {
    ParentUnchanged(j, base, todo, now, q);
    var tmp := TempName(q, suffix);
    if IsSuffix(suffix) && tmp in now {
      assert ProgressAt(j, base, todo, now, tmp);
      if IsUpload(j, base, tmp) {
        UploadsSurvive(j, base, tmp);
      }
    }
  }

  /** One turn of the upload loop. */
  method UploadOne(s: Session, j: Job, ghost before: Nodes, ghost base: Nodes, ghost todo: set<string>,
                   k: string, localFiles: Files, remoteFiles: Files) returns (ok: bool)
    requires s.Valid() && WellFormedJob(j) && Sound(j.copia) && Progress(j, base, todo, s.remote)
    requires RootAdded(j, before, base)
    requires k in todo && k in localFiles && localFiles == LocalFiles(j) && remoteFiles == RemoteFiles(j, base)
    modifies s`remote, s`trace, s`faults
    ensures s.Valid() && s.faults >= old(s.faults) && Extends(old(s.trace), s.trace)
    ensures AllUploading(j, before, s.trace, |old(s.trace)|, |s.trace|)
    ensures !Sends(Decide(j, base, k)) ==> s.remote == old(s.remote) && s.trace == old(s.trace)
    ensures ok ==> Progress(j, base, todo - {k}, s.remote)
    ensures ok && Sends(Decide(j, base, k)) ==> HasParent(base, Target(j, k))
    ensures ok && Sends(Decide(j, base, k)) ==>
              Sent(old(s.remote), s.remote, Target(j, k), j.local[k].mode, s.faults == old(s.faults))
    ensures !ok ==> s.faults > old(s.faults) || (Sends(Decide(j, base, k)) && Blocked(j, base, Target(j, k)))
    ensures !ok && s.faults == old(s.faults) ==> Stopped(j, before, s.remote)
  {
    hide Progress, RootAdded, WellFormedJob, Blocked, Excluded, Extends, AllUploading, Target, Sent, Stopped;
    NothingHappened(j, before, s.trace);
    if Excluded(j, k) {
      ProgressSkip(j, base, todo, s.remote, k);
      return true;
    }
    var target := Target(j, k);
    var info := localFiles[k];
    var localFault: bool := *;
    if target in remoteFiles && remoteFiles[target].size == info.size {
      var decided;
      decided, ok := UploadSameSize(s, j, before, base, todo, k, target, info, remoteFiles[target], localFault);
      if decided { return; }
    }
    if j.o.dryRun {
      ProgressSkip(j, base, todo, s.remote, k);
      return true;
    }
    if localFault {
      s.Fail();
      return false;
    }
    ok := SendFile(s, j, before, base, todo, k, target, j.local[k].data, info.mode);
  }

  /** The two arms for a remote file of the same size; `decided` is false when it is left to the full upload. */
  method UploadSameSize(s: Session, j: Job, ghost before: Nodes, ghost base: Nodes, ghost todo: set<string>,
                        k: string, target: string, info: FileInfo, there: FileInfo, localFault: bool)
      returns (decided: bool, ok: bool)
    requires s.Valid() && WellFormedJob(j) && Sound(j.copia) && Progress(j, base, todo, s.remote)
    requires RootAdded(j, before, base) && k in todo && k in LocalFiles(j) && !Excluded(j, k)
    requires target == Target(j, k) && target in RemoteFiles(j, base) && there == RemoteFiles(j, base)[target]
    requires info == LocalFiles(j)[k] && there.size == info.size
    modifies s`remote, s`trace, s`faults
    ensures s.Valid() && s.faults >= old(s.faults) && Extends(old(s.trace), s.trace)
    ensures AllUploading(j, before, s.trace, |old(s.trace)|, |s.trace|)
    ensures !decided ==> ok && s.remote == old(s.remote) && s.trace == old(s.trace) && s.faults == old(s.faults)
    ensures !decided ==> Decide(j, base, k) == if j.o.dryRun then Preview else SendFull
    ensures decided && !Sends(Decide(j, base, k)) ==> s.remote == old(s.remote) && s.trace == old(s.trace)
    ensures decided && ok ==> Progress(j, base, todo - {k}, s.remote)
    ensures decided && ok && Sends(Decide(j, base, k)) ==> HasParent(base, target)
    ensures decided && ok && Sends(Decide(j, base, k)) ==>
              Sent(old(s.remote), s.remote, target, j.local[k].mode, s.faults == old(s.faults))
    ensures !ok ==> s.faults > old(s.faults) || (Sends(Decide(j, base, k)) && Blocked(j, base, target))
    ensures !ok && s.faults == old(s.faults) ==> Stopped(j, before, s.remote)
  {
    hide Progress, RootAdded, WellFormedJob, Blocked, Excluded, Extends, AllUploading, Target, Sent, Stopped;
    decided, ok := true, true;
    NothingHappened(j, before, s.trace);
    ProgressKeepsDecision(j, base, todo, s.remote, k);
    if !j.o.checksum && there.mtime == info.mtime {
      ProgressSkip(j, base, todo, s.remote, k);
      return;
    }
    var remoteFault: bool := *;
    if localFault || remoteFault {
      s.Fail();
      return true, false;
    }
    var localData, remoteData := j.local[k].data, s.remote[target].data;
    if localData == remoteData {
      ProgressSkip(j, base, todo, s.remote, k);
      return;
    }
    var delta := j.copia.delta(localData, remoteData);
    if DeltaSize(delta) < |localData| {
      var output := Patch(remoteData, delta);
      ok := SendFile(s, j, before, base, todo, k, target, output.value, info.mode);
      return;
    }
    decided := false;
  }

  lemma NothingHappened(j: Job, before: Nodes, states: seq<Nodes>)
    ensures Extends(states, states) && AllUploading(j, before, states, |states|, |states|)
  {
  }

  lemma UploadingJoin(j: Job, before: Nodes, earlier: seq<Nodes>, later: seq<Nodes>, from: nat, to: nat)
    requires Extends(earlier, later) && from <= |earlier| <= to <= |later|
    requires AllUploading(j, before, earlier, from, |earlier|) && AllUploading(j, before, later, |earlier|, to)
    requires |earlier| > 0 && Held(j, before, earlier[|earlier| - 1])
    ensures AllUploading(j, before, later, from, to)
  {
    hide Uploading;
    forall i | from <= i < to ensures Uploading(j, before, later[i], i + 1 < |later|) {
      if i + 1 == |earlier| {
        HeldIsUploading(j, before, later[i], i + 1 < |later|);
      } else if i < |earlier| {
        assert later[i] == earlier[i];
      }
    }
  }

  ghost predicate NoUploads(j: Job, base: Nodes) {
    forall q :: !IsUpload(j, base, q)
  }

  ghost predicate SomeBlocked(j: Job, base: Nodes) {
    exists q :: IsUpload(j, base, q) && Blocked(j, base, q)
  }

  ghost predicate ParentsThere(j: Job, base: Nodes, todo: set<string>) {
    forall q :: IsUpload(j, base, q) && Source(j, q) !in todo ==> HasParent(base, q)
  }

  /** Every upload has a directory to go to, and no directory is in its place. */
  ghost predicate UploadsFit(j: Job, base: Nodes) {
    forall q :: IsUpload(j, base, q) ==> HasParent(base, q) && !IsDir(base, q)
  }

  /** No temp of an upload can meet a name that is taken. */
  ghost predicate TempsFree(j: Job, base: Nodes) {
    forall q, suffix :: IsUpload(j, base, q) && IsSuffix(suffix) ==>
      TempName(q, suffix) !in base && !Planned(j, TempName(q, suffix))
  }

  lemma UploadsHaveFit(j: Job, base: Nodes, now: Nodes)
    requires Progress(j, base, {}, now) && ParentsThere(j, base, {})
    ensures UploadsFit(j, base)
  {
    forall q | IsUpload(j, base, q) ensures HasParent(base, q) && !IsDir(base, q) {
      assert ProgressAt(j, base, {}, now, q);
    }
  }

  /** With free temps, an upload is blocked only by a parent that is missing or a directory in its place. */
  lemma BlockedDoesNotFit(j: Job, base: Nodes)
    requires WellFormedJob(j) && SomeBlocked(j, base) && TempsFree(j, base)
    ensures !UploadsFit(j, base)
  {
    hide IsUpload, Planned, WellFormedJob;
    var q :| IsUpload(j, base, q) && Blocked(j, base, q);
    UploadIsPath(j, base, q);
    assert forall suffix :: IsSuffix(suffix) ==> TempName(q, suffix) !in base && !Planned(j, TempName(q, suffix));
  }

  lemma UploadIsPath(j: Job, base: Nodes, q: string)
    requires WellFormedJob(j) && IsUpload(j, base, q)
    ensures q != [] && Canonical(q)
  {
    hide Decide, RelPath;
    var k := Source(j, q);
    RelUnder(j.lroot, k);
    RelUnder(j.rroot, q);
    SourceIsRelative(j, q);
    assert Canonical(k) && Under(j.lroot, k);
    assert k[|k| - 1] == q[|q| - 1];
  }

  lemma SourceIsRelative(j: Job, q: string)
    requires Under(j.rroot, q)
    ensures Source(j, q) == j.lroot + "/" + q[|j.rroot| + 1..]
  {
    RelUnder(j.rroot, q);
  }

  lemma OneMoreParent(j: Job, base: Nodes, todo: set<string>, k: string)
    requires WellFormedJob(j) && ParentsThere(j, base, todo) && k in LocalFiles(j)
    requires Sends(Decide(j, base, k)) ==> HasParent(base, Target(j, k))
    ensures ParentsThere(j, base, todo - {k})
  {
    forall q | IsUpload(j, base, q) && Source(j, q) == k ensures HasParent(base, q) {
      SourceInverse(j, q);
    }
  }

  /** The loop's invariant; `states0` is the history at its start. */
  ghost predicate UploadLoop(j: Job, before: Nodes, base: Nodes, todo: set<string>, now: Nodes, states0: seq<Nodes>,
                             states: seq<Nodes>) {
    && Extends(states0, states)
    && Progress(j, base, todo, now)
    && AllUploading(j, before, states, |states0|, |states|)
    && (NoUploads(j, base) ==> now == base && states == states0)
    && ParentsThere(j, base, todo)
  }

  lemma UploadTurn(j: Job, before: Nodes, base: Nodes, todo: set<string>, k: string,
                   now: Nodes, now': Nodes, states0: seq<Nodes>, states: seq<Nodes>, states': seq<Nodes>)
    requires WellFormedJob(j) && k in todo && k in LocalFiles(j)
    requires UploadLoop(j, before, base, todo, now, states0, states)
    requires Extends(states, states') && AllUploading(j, before, states', |states|, |states'|)
    requires !Sends(Decide(j, base, k)) ==> now' == now && states' == states
    requires Progress(j, base, todo - {k}, now')
    requires Sends(Decide(j, base, k)) ==> HasParent(base, Target(j, k))
    requires |states| > 0 && states[|states| - 1] == now && RootAdded(j, before, base)
    ensures UploadLoop(j, before, base, todo - {k}, now', states0, states')
  {
    UploadOf(j, base, k);
    ProgressHeld(j, before, base, todo, now);
    UploadingJoin(j, before, states, states', |states0|, |states'|);
    OneMoreParent(j, base, todo, k);
  }

  lemma LoopHas(j: Job, before: Nodes, base: Nodes, todo: set<string>, now: Nodes, states0: seq<Nodes>,
                states: seq<Nodes>)
    requires UploadLoop(j, before, base, todo, now, states0, states)
    ensures Extends(states0, states) && Progress(j, base, todo, now)
    ensures AllUploading(j, before, states, |states0|, |states|)
    ensures NoUploads(j, base) ==> now == base && states == states0
  {
    hide Progress, AllUploading, NoUploads, ParentsThere;
  }

  /** What a turn that fails leaves. */
  lemma UploadFailed(j: Job, before: Nodes, base: Nodes, todo: set<string>, k: string,
                     now: Nodes, now': Nodes, states0: seq<Nodes>, states: seq<Nodes>, states': seq<Nodes>)
    requires WellFormedJob(j) && k in LocalFiles(j) && RootAdded(j, before, base)
    requires UploadLoop(j, before, base, todo, now, states0, states) && |states| > 0 && states[|states| - 1] == now
    requires Extends(states, states') && AllUploading(j, before, states', |states|, |states'|)
    requires !Sends(Decide(j, base, k)) ==> now' == now && states' == states
    ensures Extends(states0, states') && AllUploading(j, before, states', |states0|, |states'|)
    ensures NoUploads(j, base) ==> now' == base && states' == states0
    ensures Sends(Decide(j, base, k)) && Blocked(j, base, Target(j, k)) ==> SomeBlocked(j, base)
  {
    hide AllUploading, Progress, RootAdded, WellFormedJob, ParentsThere, Blocked, LocalFiles, Decide, Sends, IsUpload;
    UploadOf(j, base, k);
    ProgressHeld(j, before, base, todo, now);
    UploadingJoin(j, before, states, states', |states0|, |states'|);
  }

  /** The upload loop, over the local files in any order. */
  method UploadAll(s: Session, j: Job, ghost before: Nodes, ghost base: Nodes, localFiles: Files, remoteFiles: Files)
      returns (ok: bool)
    requires s.Valid() && WellFormedJob(j) && Sound(j.copia) && s.remote == base
    requires RootAdded(j, before, base)
    requires localFiles == LocalFiles(j) && remoteFiles == RemoteFiles(j, base)
    modifies s`remote, s`trace, s`faults
    ensures s.Valid() && s.faults >= old(s.faults) && Extends(old(s.trace), s.trace)
    ensures AllUploading(j, before, s.trace, |old(s.trace)|, |s.trace|)
    ensures NoUploads(j, base) ==> s.remote == base && s.trace == old(s.trace)
    ensures ok ==> UploadLoop(j, before, base, {}, s.remote, old(s.trace), s.trace)
    ensures ok && s.faults == old(s.faults) ==> ModesSent(j, base, {}, s.remote)
    ensures !ok ==> s.faults > old(s.faults) || SomeBlocked(j, base)
    ensures !ok && s.faults == old(s.faults) ==> Stopped(j, before, s.remote)
  {
    hide UploadLoop, Extends, AllUploading, NoUploads, SomeBlocked, Stopped, ModesSent, Progress, Blocked, RootAdded;
    hide WellFormedJob, Sound, Sends, Target, Sent, WellFormed, LocalFiles, RemoteFiles, Decide, IsUpload;
    var todo := localFiles.Keys;
    ProgressStart(j, base);
    LoopStart(j, before, base, todo, s.trace);
    ModesStart(j, base);
    while todo != {}
      invariant s.Valid() && s.faults >= old(s.faults)
      invariant todo <= LocalFiles(j).Keys
      invariant UploadLoop(j, before, base, todo, s.remote, old(s.trace), s.trace)
      invariant s.faults == old(s.faults) ==> ModesSent(j, base, todo, s.remote)
      decreases todo
    {
      var k :| k in todo;
      ghost var now, states := s.remote, s.trace;
      LoopHas(j, before, base, todo, now, old(s.trace), states);
      ok := UploadOne(s, j, before, base, todo, k, localFiles, remoteFiles);
      if !ok {
        UploadFailed(j, before, base, todo, k, now, s.remote, old(s.trace), states, s.trace);
        return;
      }
      UploadTurn(j, before, base, todo, k, now, s.remote, old(s.trace), states, s.trace);
      if s.faults == old(s.faults) {
        ModesTurn(j, base, todo, k, now, s.remote);
      }
      todo := todo - {k};
    }
    LoopHas(j, before, base, todo, s.remote, old(s.trace), s.trace);
    ok := true;
  }

  lemma ModesStart(j: Job, base: Nodes)
    ensures ModesSent(j, base, LocalFiles(j).Keys, base)
  {
    forall q ensures ModeSentAt(j, base, LocalFiles(j).Keys, base, q) {}
  }

  // ----- the deletion loop -----

  /** All uploads are done; the doomed files not in `todo` are gone, or their removal failed. */
  ghost predicate Deleted(j: Job, base: Nodes, todo: set<string>, refused: set<string>, now: Nodes) {
    forall q :: DeletedAt(j, base, todo, refused, now, q)
  }

  ghost predicate DeletedAt(j: Job, base: Nodes, todo: set<string>, refused: set<string>, now: Nodes, q: string) {
    if IsUpload(j, base, q) then HasData(now, q, j.local[Source(j, q)].data)
    else if IsDoomed(j, base, q) && q !in todo && q !in refused then q !in now
    else SameAt(base, now, q)
  }

  lemma DeleteOne(j: Job, base: Nodes, todo: set<string>, refused: set<string>, now: Nodes, q: string, now': Nodes)
    requires WellFormedJob(j) && Deleted(j, base, todo, refused, now)
    requires q in todo && q !in refused && IsDoomed(j, base, q)
    requires AgreeOutside(now, now', {q}) && (q !in now' || SameAt(now, now', q))
    ensures q !in now' ==> Deleted(j, base, todo - {q}, refused, now')
    ensures q in now' ==> Deleted(j, base, todo - {q}, refused + {q}, now')
    ensures Deleting(j, base, now')
  {
    forall p ensures q !in now' ==> DeletedAt(j, base, todo - {q}, refused, now', p)
             ensures q in now' ==> DeletedAt(j, base, todo - {q}, refused + {q}, now', p)
             ensures DeletingAt(j, base, now', p)
    {
      assert DeletedAt(j, base, todo, refused, now, p);
      if IsUpload(j, base, p) {
        UploadsSurvive(j, base, p);
      }
    }
  }

  lemma DeleteNone(j: Job, base: Nodes, todo: set<string>, refused: set<string>, now: Nodes, q: string)
    requires Deleted(j, base, todo, refused, now) && !IsDoomed(j, base, q)
    ensures Deleted(j, base, todo - {q}, refused, now)
  {
    forall p ensures DeletedAt(j, base, todo - {q}, refused, now, p) {
      assert DeletedAt(j, base, todo, refused, now, p);
    }
  }

  ghost predicate NothingDoomed(j: Job, base: Nodes) {
    forall q :: !IsDoomed(j, base, q)
  }

  ghost predicate AllDeleting(j: Job, base: Nodes, states: seq<Nodes>, from: nat) {
    forall i :: from <= i < |states| ==> Deleting(j, base, states[i])
  }

  /** The loop's invariant; `now0` and `states0` are the tree and its history at its start. */
  ghost predicate DeleteLoop(j: Job, base: Nodes, todo: set<string>, refused: set<string>,
                             now0: Nodes, now: Nodes, states0: seq<Nodes>, states: seq<Nodes>) {
    && Extends(states0, states)
    && Deleted(j, base, todo, refused, now)
    && AllDeleting(j, base, states, |states0|)
    && (NothingDoomed(j, base) ==> now == now0 && states == states0)
  }

  lemma DeleteTurn(j: Job, base: Nodes, todo: set<string>, refused: set<string>, q: string,
                   now0: Nodes, now: Nodes, now': Nodes, states0: seq<Nodes>, states: seq<Nodes>)
    requires WellFormedJob(j) && DeleteLoop(j, base, todo, refused, now0, now, states0, states)
    requires q in todo && q !in refused && IsDoomed(j, base, q)
    requires AgreeOutside(now, now', {q}) && (q !in now' || SameAt(now, now', q))
    ensures DeleteLoop(j, base, todo - {q}, if q in now' then refused + {q} else refused,
                       now0, now', states0, states + [now'])
  {
    DeleteOne(j, base, todo, refused, now, q, now');
  }

  /** Remove what was listed and has no local counterpart; `refused` are the files whose removal failed silently. */
  method DeleteExtra(s: Session, ghost j: Job, ghost base: Nodes, remoteFiles: Files, localFiles: Files,
                     lroot: string, rroot: string, dryRun: bool) returns (refused: set<string>)
    requires s.Valid() && WellFormedJob(j) && Progress(j, base, {}, s.remote)
    requires remoteFiles == RemoteFiles(j, base) && localFiles == LocalFiles(j)
    requires lroot == j.lroot && rroot == j.rroot && dryRun == j.o.dryRun && j.o.deleteExtra
    modifies s`remote, s`trace, s`faults
    ensures s.Valid() && s.faults >= old(s.faults) && Extends(old(s.trace), s.trace)
    ensures AllDeleting(j, base, s.trace, |old(s.trace)|)
    ensures Synced(j, base, refused, s.remote)
    ensures refused != {} ==> s.faults > old(s.faults)
    ensures UploadsSame(j, base, old(s.remote), s.remote)
    ensures NothingDoomed(j, base) ==> s.remote == old(s.remote) && s.trace == old(s.trace)
  {
    assert UploadsSame(j, base, s.remote, s.remote);
    hide UploadsSame, WellFormedJob, IsUpload;
    refused := {};
    var todo := remoteFiles.Keys;
    DeleteStart(j, base, s.remote);
    while todo != {}
      invariant s.Valid() && s.faults >= old(s.faults)
      invariant todo <= remoteFiles.Keys && refused !! todo
      invariant DeleteLoop(j, base, todo, refused, old(s.remote), s.remote, old(s.trace), s.trace)
      invariant refused != {} ==> s.faults > old(s.faults)
      invariant UploadsSame(j, base, old(s.remote), s.remote)
      decreases todo
    {
      var q :| q in todo;
      if lroot + "/" + RelPath(rroot, q) in localFiles || dryRun {
        DeleteNone(j, base, todo, refused, s.remote, q);
      } else {
        ghost var now, states := s.remote, s.trace;
        assert DeletedAt(j, base, todo, refused, now, q);
        var removed := s.Unlink(q);
        UploadsStay(j, base, old(s.remote), now, s.remote, q);
        DeleteTurn(j, base, todo, refused, q, old(s.remote), now, s.remote, old(s.trace), states);
        if q in s.remote {
          refused := refused + {q};
        }
      }
      todo := todo - {q};
    }
    DeleteEnd(j, base, refused, s.remote);
  }

  /** A removal leaves the uploads alone. */
  lemma UploadsStay(j: Job, base: Nodes, now0: Nodes, now: Nodes, now': Nodes, q: string)
    requires WellFormedJob(j) && IsDoomed(j, base, q) && UploadsSame(j, base, now0, now) && AgreeOutside(now, now', {q})
    ensures UploadsSame(j, base, now0, now')
  {
    if IsUpload(j, base, q) {
      UploadsSurvive(j, base, q);
    }
  }

  lemma DeleteStart(j: Job, base: Nodes, now: Nodes)
    requires Progress(j, base, {}, now)
    ensures Deleted(j, base, RemoteFiles(j, base).Keys, {}, now)
  {
    forall q ensures DeletedAt(j, base, RemoteFiles(j, base).Keys, {}, now, q) {
      assert ProgressAt(j, base, {}, now, q);
    }
  }

  lemma DeleteEnd(j: Job, base: Nodes, refused: set<string>, now: Nodes)
    requires Deleted(j, base, {}, refused, now)
    ensures Synced(j, base, refused, now)
  {
    forall q ensures GoalAt(j, base, refused, now, q) {
      assert DeletedAt(j, base, {}, refused, now, q);
    }
  }

  // ----- the whole run -----

  /** The run as the command line gives it. */
  ghost function JobOf(s: Session, localRoot: string, remoteRoot: string, opts: seq<string>, copia: Copia): Job
    reads s
  {
    Job(OptionsOf(opts), s.local, TrimSlashes(localRoot), TrimSlashes(remoteRoot), copia, s.reportsSize)
  }

  /** From `from` to `cut` uploads are in progress; from `cut` on every upload is complete and only doomed files go. */
  ghost predicate SafeThroughout(j: Job, before: Nodes, base: Nodes, states: seq<Nodes>, from: nat, cut: nat) {
    && from <= cut <= |states|
    && AllUploading(j, before, states, from, cut)
    && AllDeleting(j, base, states, cut)
  }

  ghost predicate NothingToDo(j: Job, base: Nodes) {
    NoUploads(j, base) && NothingDoomed(j, base)
  }

  /** The two loops, once both trees are listed. */
  method RunListed(s: Session, j: Job, ghost before: Nodes, ghost base: Nodes, localFiles: Files, remoteFiles: Files)
      returns (ok: bool, refused: set<string>, ghost cut: nat)
    requires s.Valid() && WellFormedJob(j) && Sound(j.copia) && s.remote == base
    requires RootAdded(j, before, base)
    requires localFiles == LocalFiles(j) && remoteFiles == RemoteFiles(j, base)
    modifies s`remote, s`trace, s`faults
    ensures s.Valid() && s.faults >= old(s.faults) && Extends(old(s.trace), s.trace)
    ensures SafeThroughout(j, before, base, s.trace, |old(s.trace)|, cut)
    ensures ok ==> Synced(j, base, refused, s.remote) && UploadsFit(j, base)
    ensures ok && refused != {} ==> s.faults > old(s.faults)
    ensures ok && s.faults == old(s.faults) ==> ModesSent(j, base, {}, s.remote)
    ensures !ok ==> s.faults > old(s.faults) || SomeBlocked(j, base)
    ensures !ok && s.faults == old(s.faults) ==> Stopped(j, before, s.remote)
    ensures NothingToDo(j, base) ==> s.remote == base && s.trace == old(s.trace)
  {
    hide Stopped, AllUploading, Held, UploadsFit, RootAdded, WellFormedJob, Progress, ParentsThere, AllDeleting;
    hide ModesSent, WellFormed, LocalFiles, RemoteFiles, Sound, SomeBlocked, Synced, NoUploads, NothingDoomed;
    refused := {};
    ok := UploadAll(s, j, before, base, localFiles, remoteFiles);
    cut := |s.trace|;
    if ok {
      UploadsHaveFit(j, base, s.remote);
    }
    if ok && j.o.deleteExtra {
      ghost var uploaded, sent := s.trace, s.remote;
      ProgressHeld(j, before, base, {}, sent);
      refused := DeleteExtra(s, j, base, remoteFiles, localFiles, j.lroot, j.rroot, j.o.dryRun);
      NoStates(j, before, base, s.trace, cut);
      UploadingJoin(j, before, uploaded, s.trace, |old(s.trace)|, cut);
      if s.faults == old(s.faults) {
        ModesStay(j, base, sent, s.remote);
      }
    } else {
      NoStates(j, before, base, s.trace, cut);
      if ok {
        AllSynced(j, base, s.remote);
      }
    }
  }

  lemma NoStates(j: Job, before: Nodes, base: Nodes, states: seq<Nodes>, n: nat)
    requires n <= |states|
    ensures AllUploading(j, before, states, n, n) && AllDeleting(j, base, states, |states|)
  {
  }

  lemma AllSynced(j: Job, base: Nodes, now: Nodes)
    requires Progress(j, base, {}, now) && !j.o.deleteExtra
    ensures Synced(j, base, {}, now)
  {
    forall q ensures GoalAt(j, base, {}, now, q) {
      assert ProgressAt(j, base, {}, now, q);
    }
  }

  /** After an Ok run on a server that reports sizes, whose removals all worked, a second run has nothing to do. */
  lemma SecondRunHasNothingToDo(j: Job, base: Nodes, now: Nodes)
    requires WellFormedJob(j) && Synced(j, base, {}, now) && IsDir(base, j.rroot) && j.reportsSize
    ensures NothingToDo(j, now) && IsDir(now, j.rroot)
  {
    SecondRunIsIdle(j, base, now);
    forall q ensures !IsDoomed(j, now, q) {
      SecondRunRemovesNothing(j, base, now, q);
    }
    assert GoalAt(j, base, {}, now, j.rroot);
  }

  /** List both trees, then run the loops. */
  method ListAndRun(s: Session, j: Job, localRoot: string, remoteRoot: string, ghost before: Nodes, ghost base: Nodes)
      returns (ok: bool, refused: set<string>, ghost cut: nat)
    requires s.Valid() && s.local == j.local && s.reportsSize == j.reportsSize && Sound(j.copia) && s.remote == base
    requires j.lroot == TrimSlashes(localRoot) && j.rroot == TrimSlashes(remoteRoot) && RootAdded(j, before, base)
    modifies s`remote, s`trace, s`faults
    ensures s.Valid() && s.faults >= old(s.faults) && Extends(old(s.trace), s.trace)
    ensures SafeThroughout(j, before, base, s.trace, |old(s.trace)|, cut)
    ensures cut < |s.trace| || ok ==> IsDir(base, j.rroot)
    ensures ok ==> Synced(j, base, refused, s.remote) && UploadsFit(j, base)
    ensures ok && refused != {} ==> s.faults > old(s.faults)
    ensures ok && s.faults == old(s.faults) ==> ModesSent(j, base, {}, s.remote)
    ensures !ok ==>
              || s.faults > old(s.faults) || !IsDir(s.local, j.lroot) || !IsDir(base, j.rroot)
              || (IsDir(base, j.rroot) && SomeBlocked(j, base))
    ensures !ok && s.faults == old(s.faults) ==> Stopped(j, before, s.remote)
    ensures NothingToDo(j, base) ==> s.remote == base && s.trace == old(s.trace)
  {
    hide Stopped, SomeBlocked, Synced, UploadsFit, ModesSent, WellFormed, FileMap, RootAdded, NothingToDo;
    ok, refused, cut := false, {}, |s.trace|;
    RootIsStopped(j, before, base);
    var localFault, remoteFault: bool := *, *;
    if localFault || remoteFault {
      s.Fail();
    }
    var localFiles := ListLocalFiles(s.local, localRoot, localFault);
    if localFiles.None? { return; }
    var remoteFiles := ListRemoteFiles(s.remote, remoteRoot, s.reportsSize, remoteFault);
    if remoteFiles.None? { return; }
    ok, refused, cut := RunListed(s, j, before, base, localFiles.value, remoteFiles.value);
  }

  lemma RootIsStopped(j: Job, before: Nodes, base: Nodes)
    requires RootAdded(j, before, base)
    ensures Stopped(j, before, base)
  {
  }

  lemma SafeFromRoot(j: Job, before: Nodes, base: Nodes, earlier: seq<Nodes>, later: seq<Nodes>, from: nat, cut: nat)
    requires Extends(earlier, later) && from + 1 == |earlier| && earlier[from] == base && RootAdded(j, before, base)
    requires SafeThroughout(j, before, base, later, |earlier|, cut)
    ensures SafeThroughout(j, before, base, later, from, cut)
  {
    assert Held(j, before, base);
    UploadingJoin(j, before, earlier, later, from, cut);
  }

  /**
   `rsync_upload`.  The job's base tree is the remote one with its root directory in place.  `cut` is where the
   deletion loop begins in the history of remote states.
   */
  method RsyncUpload(s: Session, localRoot: string, remoteRoot: string, opts: seq<string>, copia: Copia)
      returns (ok: bool, refused: set<string>, ghost base: Nodes, ghost cut: nat)
    requires s.Valid() && Sound(copia)
    modifies s`remote, s`trace, s`faults
    ensures s.Valid() && s.faults >= old(s.faults) && Extends(old(s.trace), s.trace)
    ensures base == old(s.remote) ||
              (TrimSlashes(remoteRoot) !in old(s.remote) && base == old(s.remote)[TrimSlashes(remoteRoot) := Dir])
    ensures SafeThroughout(JobOf(s, localRoot, remoteRoot, opts, copia), old(s.remote), base, s.trace,
              |old(s.trace)|, cut)
    ensures ok ==> var j := JobOf(s, localRoot, remoteRoot, opts, copia);
            IsDir(base, j.rroot) && Synced(j, base, refused, s.remote) && UploadsFit(j, base)
    ensures ok && refused != {} ==> s.faults > old(s.faults)
    ensures ok ==> RunMeans(opts, TrimSlashes(localRoot), TrimSlashes(remoteRoot), s.local, s.reportsSize, base,
              refused, s.remote, s.faults == old(s.faults))
    ensures !ok ==> var j := JobOf(s, localRoot, remoteRoot, opts, copia);
            s.faults > old(s.faults) || !IsDir(s.local, j.lroot) || !IsDir(base, j.rroot) || SomeBlocked(j, base)
    ensures !ok && s.faults == old(s.faults) ==>
              Stopped(JobOf(s, localRoot, remoteRoot, opts, copia), old(s.remote), s.remote)
    ensures s.faults == old(s.faults) ==> var j := JobOf(s, localRoot, remoteRoot, opts, copia);
            IsDir(s.local, j.lroot) && IsDir(base, j.rroot) && TempsFree(j, base) ==> (ok <==> UploadsFit(j, base))
    ensures IsDir(base, TrimSlashes(remoteRoot)) || s.faults > old(s.faults)
            || TrimSlashes(remoteRoot) in old(s.remote) || !Creatable(old(s.remote), TrimSlashes(remoteRoot))
    ensures ok && OptionsOf(opts).dryRun ==> var j := JobOf(s, localRoot, remoteRoot, opts, copia);
            (forall q :: SameAt(old(s.remote), s.remote, q)) <==>
              IsDir(old(s.remote), j.rroot) && forall k :: k in LocalFiles(j) ==> !DeltaPays(j, old(s.remote), k)
    ensures var j := JobOf(s, localRoot, remoteRoot, opts, copia);
            IsDir(old(s.remote), j.rroot) && NothingToDo(j, base) ==>
              forall i :: |old(s.trace)| <= i < |s.trace| ==> s.trace[i] == old(s.remote)
  {
    hide ParentsThere, SomeBlocked, DeltaPays, LocalFiles, UploadsFit, TempsFree, ModesSent, RunMeans, SafeThroughout;
    hide Synced, NothingToDo, TrimSlashes, Stopped, WellFormed;
    var o := ParseOptions(opts);
    var j := Job(o, s.local, TrimSlashes(localRoot), TrimSlashes(remoteRoot), copia, s.reportsSize);
    ghost var before := s.remote;
    s.Mkdir(remoteRoot);
    base := s.remote;
    ghost var start := s.trace;
    assert RootAdded(j, before, base);
    ok, refused, cut := ListAndRun(s, j, localRoot, remoteRoot, before, base);
    SafeFromRoot(j, before, base, start, s.trace, |old(s.trace)|, cut);
    if SomeBlocked(j, base) && TempsFree(j, base) {
      BlockedDoesNotFit(j, base);
    }
    if ok {
      SyncedIsRunMeans(j, opts, base, refused, s.remote, s.faults == old(s.faults));
    }
    if ok && o.dryRun {
      DryRunIsDryIff(j, before, base, refused, s.remote);
    }
  }

  /** A dry run for a remote root that is not there creates it, and that is all it does. */
  method DryRunOnMissingRoot(s: Session, copia: Copia) returns (ok: bool)
    requires s.Valid() && Sound(copia) && s.local == map["l" := Dir] && s.remote == map[]
    modifies s`remote, s`trace, s`faults
    ensures ok ==> s.remote == map["r" := Dir]
    ensures s.faults == old(s.faults) ==> ok
  {
    hide SafeThroughout, SomeBlocked, UploadsFit, TempsFree, RunMeans, NothingToDo, Synced, DeltaPays, LocalFiles;
    hide OptionsOf;
    ghost var before, j := s.remote, JobOf(s, "l", "r", ["dry-run"], copia);
    var refused;
    ghost var base, cut;
    ok, refused, base, cut := RsyncUpload(s, "l", "r", ["dry-run"], copia);
    NothingToSend(j, base);
    if ok {
      DryRunMakesRoot(j, before, base, refused, s.remote);
      assert s.remote == map["r" := Dir] by {
        assert "r" in s.remote;
        forall q | q in s.remote ensures q == "r" { assert q != "r" ==> SameAt(before, s.remote, q); }
      }
    }
  }

  lemma NothingToSend(j: Job, base: Nodes)
    requires j.local == map["l" := Dir] && j.o == OptionsOf(["dry-run"]) && j.rroot == TrimSlashes("r")
    ensures !SomeBlocked(j, base) && j.o.dryRun && j.rroot == "r" && Creatable(map[], "r")
  {
    assert LocalFiles(j) == map[];
  }

  /** Only the root is created: a file in a subdirectory that the server does not have makes the run fail, always. */
  method NestedTargetFails(s: Session, data: Bytes, copia: Copia) returns (ok: bool)
    requires s.Valid() && Sound(copia) && s.remote == map["r" := Dir]
    requires s.local == map["l" := Dir, "l/d" := Dir, "l/d/a" := File(data, None, None)]
    modifies s`remote, s`trace, s`faults
    ensures !ok
  {
    hide SafeThroughout, SomeBlocked, TempsFree, RunMeans, NothingToDo, Synced, DeltaPays, LocalFiles, OptionsOf;
    hide IsUpload, HasParent;
    ghost var j := JobOf(s, "l", "r", [], copia);
    var refused;
    ghost var base, cut;
    ok, refused, base, cut := RsyncUpload(s, "l", "r", [], copia);
    NestedUpload(j, data);
  }

  lemma NestedUpload(j: Job, data: Bytes)
    requires j.local == map["l" := Dir, "l/d" := Dir, "l/d/a" := File(data, None, None)]
    requires j.lroot == TrimSlashes("l") && j.rroot == TrimSlashes("r") && j.o == OptionsOf([])
    ensures j.rroot == "r" && IsUpload(j, map["r" := Dir], "r/d/a") && !HasParent(map["r" := Dir], "r/d/a")
  {
    hide IsUpload, HasParent, LocalFiles, RemoteFiles, Under;
    var base: Nodes := map["r" := Dir];
    assert "l/d/a" == j.lroot + "/" + "d/a" && "r/d/a" == j.rroot + "/" + "d/a";
    InLocalFiles(j, "d/a");
    NotInRemoteFiles(j, base, "r/d/a");
    NewFileIsUpload(j, base, "d/a");
    NoParent("r/d", "a", base);
    assert "r/d/a" == "r/d" + "/" + "a";
  }

  lemma InLocalFiles(j: Job, rel: string)
    requires Canonical(j.lroot) && j.lroot + "/" + rel in j.local && j.local[j.lroot + "/" + rel].File?
    ensures j.lroot + "/" + rel in LocalFiles(j)
  {
    assert (j.lroot + "/" + rel)[|j.lroot|] == '/';
  }

  lemma NotInRemoteFiles(j: Job, base: Nodes, q: string)
    requires q !in base
    ensures q !in RemoteFiles(j, base)
  {
  }

  lemma NoParent(dir: string, name: string, base: Nodes)
    requires dir !in base && '/' !in name
    ensures !HasParent(base, dir + "/" + name)
  {
    SplitLast(dir, name, dir + "/" + name);
    assert (dir + "/" + name)[|dir|] == '/';
  }

  /** A file that the server does not have is sent. */
  lemma NewFileIsUpload(j: Job, base: Nodes, rel: string)
    requires j.lroot + "/" + rel in LocalFiles(j) && j.rroot + "/" + rel !in RemoteFiles(j, base)
    requires j.o.excludes == [] && !j.o.dryRun
    ensures IsUpload(j, base, j.rroot + "/" + rel)
  {
    var k, q := j.lroot + "/" + rel, j.rroot + "/" + rel;
    assert k[|j.lroot|] == '/' && q[|j.rroot|] == '/' && k[|j.lroot| + 1..] == rel && q[|j.rroot| + 1..] == rel;
    RelUnder(j.lroot, k);
    RelUnder(j.rroot, q);
  }
}

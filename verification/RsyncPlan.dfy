/**
 The decisions of `rsync_upload` in src/sftp.rs, as functions of the two trees, and what
 follows from them for every pair of trees.
 */
module RsyncPlan {
  import opened Basics
  import opened Tree
  import opened Listing
  import opened Session

  // ----- options -----

  datatype Options = Options(deleteExtra: bool, dryRun: bool, checksum: bool, excludes: seq<string>)

  const EXCLUDE := "exclude="

  function ApplyOption(o: Options, opt: string): Options {
    if opt == "delete" then o.(deleteExtra := true)
    else if opt == "dry-run" || opt == "dry_run" then o.(dryRun := true)
    else if opt == "checksum" then o.(checksum := true)
    else if EXCLUDE <= opt then o.(excludes := o.excludes + [opt[|EXCLUDE|..]])
    else o
  }

  /** The options in force after all of `opts`: a flag is set when it occurs anywhere. */
  function OptionsOf(opts: seq<string>): (o: Options)
    ensures o.deleteExtra <==> "delete" in opts
    ensures o.dryRun <==> "dry-run" in opts || "dry_run" in opts
    ensures o.checksum <==> "checksum" in opts
    ensures forall pat :: pat in o.excludes <==> EXCLUDE + pat in opts
  {
    if opts == [] then Options(false, false, false, [])
    else
      var last := opts[|opts| - 1];
      assert opts == opts[..|opts| - 1] + [last];
      assert EXCLUDE <= last ==> last[0] == 'e' && last == EXCLUDE + last[|EXCLUDE|..];
      assert forall pat :: (EXCLUDE + pat)[|EXCLUDE|..] == pat;
      ApplyOption(OptionsOf(opts[..|opts| - 1]), last)
  }

  method ParseOptions(opts: seq<string>) returns (o: Options)
    ensures o == OptionsOf(opts)
  {
    o := Options(false, false, false, []);
    for i := 0 to |opts|
      invariant o == OptionsOf(opts[..i])
    {
      assert opts[..i + 1][..i] == opts[..i];
      o := ApplyOption(o, opts[i]);
    }
    assert opts[..|opts|] == opts;
  }

  // ----- copia, by its contract -----

  datatype DeltaOp = Literal(data: Bytes) | Copy(offset: nat, len: nat)

  /** Apply a delta to the old bytes; a copy beyond their end is an error. */
  function Patch(old_: Bytes, ops: seq<DeltaOp>): Option<Bytes> {
    if ops == [] then Some([])
    else
      var rest := Patch(old_, ops[1..]);
      match ops[0]
      case Literal(data) => if rest.Some? then Some(data + rest.value) else None
      case Copy(offset, len) =>
        if rest.Some? && offset + len <= |old_| then Some(old_[offset..offset + len] + rest.value) else None
  }

  /** Two copies, side by side up to the end, give the old bytes. */
  lemma PatchRestores(a: Bytes, b: Bytes)
    ensures Patch(a + b, [Copy(0, |a|), Copy(|a|, |b|)]) == Some(a + b)
  {
    var ops := [Copy(0, |a|), Copy(|a|, |b|)];
    assert ops[1..] == [Copy(|a|, |b|)] && ops[1..][1..] == [];
    assert Patch(a + b, []) == Some([]);
    assert (a + b)[|a|..|a| + |b|] + [] == b && (a + b)[0..|a|] == a;
    assert Patch(a + b, ops[1..]) == Some(b);
  }

  function DeltaSize(ops: seq<DeltaOp>): nat {
    if ops == [] then 0
    else (match ops[0] case Literal(data) => |data| case Copy(_, _) => 13) + DeltaSize(ops[1..])
  }

  /** What the delta spells out, and how often it copies. */
  function Spelled(ops: seq<DeltaOp>): Bytes {
    if ops == [] then [] else (match ops[0] case Literal(data) => data case Copy(_, _) => []) + Spelled(ops[1..])
  }

  function Copies(ops: seq<DeltaOp>): seq<(nat, nat)> {
    if ops == [] then []
    else (match ops[0] case Literal(_) => [] case Copy(offset, len) => [(offset, len)]) + Copies(ops[1..])
  }

  /** A copy counts 13 bytes, however much it copies. */
  lemma {:induction false} DeltaSizeIs(ops: seq<DeltaOp>)
    ensures DeltaSize(ops) == |Spelled(ops)| + 13 * |Copies(ops)|
  {
    if ops != [] {
      DeltaSizeIs(ops[1..]);
    }
  }

  /** The delta library: `delta(new, old)` describes the new bytes in terms of the old. */
  datatype Copia = Copia(delta: (Bytes, Bytes) -> seq<DeltaOp>)

  ghost predicate Sound(c: Copia) {
    forall new_: Bytes, old_: Bytes :: Patch(old_, c.delta(new_, old_)) == Some(new_)
  }

  // ----- one run -----

  /** Everything a run is given; the two roots are already stripped of trailing slashes. */
  datatype Job = Job(o: Options, local: Nodes, lroot: string, rroot: string, copia: Copia, reportsSize: bool)

  function StripPrefix(s: string, prefix: string): string {
    if |prefix| <= |s| && s[..|prefix|] == prefix then s[|prefix|..] else s
  }

  /** The path relative to a root: two `strip_prefix` calls, each keeping the string when it does not apply. */
  function RelPath(root: string, k: string): string {
    StripPrefix(StripPrefix(k, root), "/")
  }

  /** Where a local file goes. */
  function Target(j: Job, k: string): string {
    j.rroot + "/" + RelPath(j.lroot, k)
  }

  /** The local path a remote file is compared with. */
  function Source(j: Job, q: string): string {
    j.lroot + "/" + RelPath(j.rroot, q)
  }

  predicate OccursAt(s: string, i: nat, p: string) {
    i + |p| <= |s| && s[i..i + |p|] == p
  }

  predicate Contains(s: string, p: string) {
    exists i :: 0 <= i <= |s| && OccursAt(s, i, p)
  }

  predicate EndsWith(s: string, p: string) {
    |p| <= |s| && s[|s| - |p|..] == p
  }

  predicate Excluded(j: Job, k: string) {
    exists i :: 0 <= i < |j.o.excludes| &&
      var pat := j.o.excludes[i];
      (Contains(RelPath(j.lroot, k), pat) || EndsWith(RelPath(j.lroot, k), pat) || Contains(k, pat))
  }

  function LocalFiles(j: Job): Files {
    FileMap(j.local, j.lroot, true)
  }

  function RemoteFiles(j: Job, t: Nodes): Files {
    FileMap(t, j.rroot, j.reportsSize)
  }

  datatype Verdict = Skip | SendDelta | SendFull | Preview

  /** What the upload loop does with one local file.  The delta branch comes before the dry-run check. */
  function Decide(j: Job, t: Nodes, k: string): Verdict
    requires k in LocalFiles(j)
  {
    var q := Target(j, k);
    var info := LocalFiles(j)[k];
    var there := RemoteFiles(j, t);
    if Excluded(j, k) then Skip
    else if q in there && there[q].size == info.size && !j.o.checksum && there[q].mtime == info.mtime then Skip
    else if q in there && there[q].size == info.size && j.local[k].data == t[q].data then Skip
    else if q in there && there[q].size == info.size &&
            DeltaSize(j.copia.delta(j.local[k].data, t[q].data)) < |j.local[k].data| then SendDelta
    else if j.o.dryRun then Preview
    else SendFull
  }

  predicate Sends(v: Verdict) {
    v.SendDelta? || v.SendFull?
  }

  /** `q` is the target of a local file that is not excluded. */
  predicate Planned(j: Job, q: string) {
    Under(j.rroot, q) && Source(j, q) in LocalFiles(j) && !Excluded(j, Source(j, q))
  }

  /** `q` is the target of a file the run sends. */
  predicate IsUpload(j: Job, t: Nodes, q: string) {
    Under(j.rroot, q) && Source(j, q) in LocalFiles(j) && Sends(Decide(j, t, Source(j, q)))
  }

  /** `q` was listed and has no local counterpart; an excluded local file is a counterpart. */
  predicate IsOrphan(j: Job, t: Nodes, q: string) {
    q in RemoteFiles(j, t) && Source(j, q) !in LocalFiles(j)
  }

  /** `q` is to be removed. */
  predicate IsDoomed(j: Job, t: Nodes, q: string) {
    j.o.deleteExtra && !j.o.dryRun && IsOrphan(j, t, q)
  }

  /** What a run that returns Ok leaves at `q`, `t` being the tree it listed; removals in `refused` failed silently. */
  ghost predicate GoalAt(j: Job, t: Nodes, refused: set<string>, now: Nodes, q: string) {
    if IsUpload(j, t, q) then HasData(now, q, j.local[Source(j, q)].data)
    else if IsDoomed(j, t, q) && q !in refused then q !in now
    else SameAt(t, now, q)
  }

  ghost predicate Synced(j: Job, t: Nodes, refused: set<string>, now: Nodes) {
    forall q :: GoalAt(j, t, refused, now, q)
  }

  ghost predicate WellFormedJob(j: Job) {
    WellFormed(j.local) && Canonical(j.lroot) && Canonical(j.rroot)
  }

  // ----- the two mappings are inverse -----

  lemma RelUnder(root: string, k: string)
    requires Under(root, k)
    ensures RelPath(root, k) == k[|root| + 1..] && k == root + "/" + RelPath(root, k)
  {
    var s := k[|root|..];
    assert s[0] == '/' && s[..1] == "/";
    assert s[1..] == k[|root| + 1..];
  }

  lemma TargetInverse(j: Job, k: string)
    requires Under(j.lroot, k)
    ensures Under(j.rroot, Target(j, k)) && Source(j, Target(j, k)) == k
  {
    RelUnder(j.lroot, k);
    var q := Target(j, k);
    assert q[|j.rroot|] == '/' && q[..|j.rroot|] == j.rroot;
    RelUnder(j.rroot, q);
    assert q[|j.rroot| + 1..] == RelPath(j.lroot, k);
  }

  lemma SourceInverse(j: Job, q: string)
    requires Under(j.rroot, q)
    ensures Under(j.lroot, Source(j, q)) && Target(j, Source(j, q)) == q
  {
    TargetInverse(j.(lroot := j.rroot, rroot := j.lroot), q);
    RelUnder(j.rroot, q);
    RelUnder(j.lroot, Source(j, q));
    assert Source(j, q)[|j.lroot| + 1..] == RelPath(j.rroot, q);
  }

  // ----- what the plan means -----

  /** A local file is sent exactly when its target is an upload; targets determine their sources. */
  lemma UploadOf(j: Job, t: Nodes, k: string)
    requires WellFormedJob(j) && k in LocalFiles(j)
    ensures IsUpload(j, t, Target(j, k)) <==> Sends(Decide(j, t, k))
    ensures Planned(j, Target(j, k)) <==> !Excluded(j, k)
    ensures Source(j, Target(j, k)) == k && Under(j.rroot, Target(j, k))
  {
    TargetInverse(j, k);
  }

  /** Uploads are planned, and are never removed. */
  lemma UploadsSurvive(j: Job, t: Nodes, q: string)
    requires WellFormedJob(j) && IsUpload(j, t, q)
    ensures Planned(j, q) && !IsDoomed(j, t, q) && q != j.rroot
  {
    SourceInverse(j, q);
  }

  /**
   What an Ok run without dry-run means for a local file that is not excluded: the remote file has
   its bytes, unless checksums are off and the listing showed the same size and mtime, and then it is as it was.
   */
  lemma SyncedMeans(j: Job, t: Nodes, refused: set<string>, now: Nodes, k: string)
    requires WellFormedJob(j) && Synced(j, t, refused, now) && !j.o.dryRun
    requires k in LocalFiles(j) && !Excluded(j, k)
    ensures || HasData(now, Target(j, k), j.local[k].data)
            || (!j.o.checksum && SameAt(t, now, Target(j, k)) && Target(j, k) in RemoteFiles(j, t) &&
                RemoteFiles(j, t)[Target(j, k)].size == |j.local[k].data| &&
                RemoteFiles(j, t)[Target(j, k)].mtime == LocalFiles(j)[k].mtime)
    ensures j.o.checksum ==> HasData(now, Target(j, k), j.local[k].data)
  {
    UploadOf(j, t, k);
    assert GoalAt(j, t, refused, now, Target(j, k));
  }

  /** Which files an Ok run leaves absent: exactly the listed files without a counterpart, when deletion was
      asked for. */
  lemma RemovedExactly(j: Job, t: Nodes, refused: set<string>, now: Nodes, q: string)
    requires WellFormedJob(j) && Synced(j, t, refused, now)
    ensures q in t && q !in now <==> IsDoomed(j, t, q) && q !in refused
  {
    assert GoalAt(j, t, refused, now, q);
    if IsUpload(j, t, q) {
      UploadsSurvive(j, t, q);
    }
  }

  /** Whatever order the two maps were walked in, the contents are the same. */
  lemma OrderDoesNotMatter(j: Job, t: Nodes, refused: set<string>, now1: Nodes, now2: Nodes, q: string)
    requires Synced(j, t, refused, now1) && Synced(j, t, refused, now2)
    ensures q in now1 <==> q in now2
    ensures q in now1 && now1[q].File? ==> now2[q].File? && now1[q].data == now2[q].data
  {
    assert GoalAt(j, t, refused, now1, q) && GoalAt(j, t, refused, now2, q);
  }

  // ----- running twice -----

  /** The second run decides to send a file exactly when the server does not report sizes, the run is not dry, and the
      file has bytes. */
  lemma SecondDecision(j: Job, t: Nodes, now: Nodes, k: string)
    requires WellFormedJob(j) && Synced(j, t, {}, now)
    requires k in LocalFiles(j)
    ensures Sends(Decide(j, now, k)) <==> !j.reportsSize && !j.o.dryRun && !Excluded(j, k) && j.local[k].data != []
  {
    hide Excluded, Source, Target;
    var q := Target(j, k);
    UploadOf(j, t, k);
    assert GoalAt(j, t, {}, now, q);
    assert Below(j.rroot, q);
    assert !IsDoomed(j, t, q);
    if IsUpload(j, t, q) {
      assert q in RemoteFiles(j, now);
    } else {
      assert SameAt(t, now, q);
      assert q in RemoteFiles(j, t) <==> q in RemoteFiles(j, now);
      assert Decide(j, now, k) == Decide(j, t, k);
    }
  }

  /** After an Ok run whose removals all worked there is nothing left to remove. */
  lemma SecondRunRemovesNothing(j: Job, t: Nodes, now: Nodes, q: string)
    requires WellFormedJob(j) && Synced(j, t, {}, now)
    ensures !IsDoomed(j, now, q)
  {
    assert GoalAt(j, t, {}, now, q);
    if IsUpload(j, t, q) {
      UploadsSurvive(j, t, q);
    }
  }

  /** An immediate second run sends nothing if and only if the server reports sizes, the run is dry,
      or every file taking part is empty. */
  lemma SecondRunIsIdle(j: Job, t: Nodes, now: Nodes)
    requires WellFormedJob(j) && Synced(j, t, {}, now)
    ensures (forall q :: !IsUpload(j, now, q)) <==>
              || j.reportsSize || j.o.dryRun
              || (forall k :: k in LocalFiles(j) && !Excluded(j, k) ==> j.local[k].data == [])
  {
    forall k | k in LocalFiles(j)
      ensures IsUpload(j, now, Target(j, k)) <==>
                !j.reportsSize && !j.o.dryRun && !Excluded(j, k) && j.local[k].data != []
    {
      UploadOf(j, now, k);
      SecondDecision(j, t, now, k);
    }
    forall q | IsUpload(j, now, q) ensures Source(j, q) in LocalFiles(j) && Target(j, Source(j, q)) == q {
      SourceInverse(j, q);
    }
  }

  // ----- the dry run -----

  /** A file the dry run overwrites: same reported size, not skipped, different bytes, and a delta that saves
      something. */
  predicate DeltaPays(j: Job, t: Nodes, k: string)
    requires k in LocalFiles(j)
  {
    var q := Target(j, k);
    && !Excluded(j, k) && q in RemoteFiles(j, t)
    && RemoteFiles(j, t)[q].size == |j.local[k].data|
    && (j.o.checksum || RemoteFiles(j, t)[q].mtime != LocalFiles(j)[k].mtime)
    && t[q].data != j.local[k].data
    && DeltaSize(j.copia.delta(j.local[k].data, t[q].data)) < |j.local[k].data|
  }

  /** The tree a run lists: its root directory has been created when it was missing. */
  ghost predicate WithRoot(j: Job, before: Nodes, base: Nodes) {
    IsDir(base, j.rroot) && (base == before || (j.rroot !in before && base == before[j.rroot := Dir]))
  }

  /** A dry run leaves the remote tree as it was, before it created the root, if and only if the root was there and no
      file takes the delta branch. */
  lemma DryRunIsDryIff(j: Job, before: Nodes, base: Nodes, refused: set<string>, now: Nodes)
    requires WellFormedJob(j) && WithRoot(j, before, base) && Synced(j, base, refused, now) && j.o.dryRun
    ensures (forall q :: SameAt(before, now, q)) <==>
              IsDir(before, j.rroot) && forall k :: k in LocalFiles(j) ==> !DeltaPays(j, before, k)
  {
    DryRunDelta(j, base, refused, now);
    if base != before {
      assert GoalAt(j, base, refused, now, j.rroot);
      RootIsNoUpload(j, base);
      assert !SameAt(before, now, j.rroot);
    }
  }

  lemma RootIsNoUpload(j: Job, t: Nodes)
    requires WellFormedJob(j)
    ensures !IsUpload(j, t, j.rroot)
  {
  }

  /** What the loops of a dry run do to the tree they listed. */
  lemma DryRunDelta(j: Job, t: Nodes, refused: set<string>, now: Nodes)
    requires WellFormedJob(j) && Synced(j, t, refused, now) && j.o.dryRun
    ensures (forall q :: SameAt(t, now, q)) <==> (forall k :: k in LocalFiles(j) ==> !DeltaPays(j, t, k))
  {
    forall k | k in LocalFiles(j) ensures IsUpload(j, t, Target(j, k)) <==> DeltaPays(j, t, k) {
      UploadOf(j, t, k);
    }
    if k :| k in LocalFiles(j) && DeltaPays(j, t, k) {
      UploadOf(j, t, k);
      assert GoalAt(j, t, refused, now, Target(j, k));
      assert !SameAt(t, now, Target(j, k));
    } else {
      forall q ensures SameAt(t, now, q) {
        assert GoalAt(j, t, refused, now, q);
        if IsUpload(j, t, q) {
          SourceInverse(j, q);
        }
      }
    }
  }

  /** A dry run whose root was missing has no file to take the delta branch, and changes the tree all the same: by the
      root. */
  lemma DryRunMakesRoot(j: Job, before: Nodes, base: Nodes, refused: set<string>, now: Nodes)
    requires WellFormedJob(j) && WellFormed(before) && WithRoot(j, before, base) && j.rroot !in before
    requires Synced(j, base, refused, now) && j.o.dryRun
    ensures forall k :: k in LocalFiles(j) ==> !DeltaPays(j, base, k)
    ensures IsDir(now, j.rroot) && forall q :: q != j.rroot ==> SameAt(before, now, q)
  {
    forall q | q in RemoteFiles(j, base) ensures false {
      AncestorIsDir(before, j.rroot, q);
    }
    DryRunDelta(j, base, refused, now);
    assert SameAt(base, now, j.rroot);
    forall q | q != j.rroot ensures SameAt(before, now, q) {
      assert SameAt(base, now, q);
    }
  }

  lemma PatchLiteral(old_: Bytes, data: Bytes)
    ensures Patch(old_, [Literal(data)]) == Some(data)
  {
    assert [Literal(data)][1..] == [] && data + [] == data;
  }

  /** One block kept, one byte replaced. */
  lemma SampleDelta(new_: Bytes, old_: Bytes, block: Bytes) returns (copia: Copia)
    requires |block| == 4096 && new_ == block + [1] && old_ == block + [2]
    ensures Sound(copia) && DeltaSize(copia.delta(new_, old_)) == 14
  {
    var ops := [Copy(0, 4096), Literal([1])];
    copia := Copia((n: Bytes, o: Bytes) => if n == new_ && o == old_ then ops else [Literal(n)]);
    assert ops[1..] == [Literal([1])] && [Literal([1])][1..] == [] && old_[0..4096] == block;
    PatchLiteral(old_, [1]);
    forall n: Bytes, o: Bytes ensures Patch(o, copia.delta(n, o)) == Some(n) {
      PatchLiteral(o, n);
    }
  }

  /** Such files exist: a dry run that overwrites. */
  lemma DryRunCanOverwrite()
    ensures exists j, t, k :: WellFormedJob(j) && WellFormed(t) && Sound(j.copia) && j.o.dryRun &&
              k in LocalFiles(j) && DeltaPays(j, t, k)
  {
    hide WellFormed, Sound, DeltaPays, DeltaSize, FileMap;
    var block: Bytes := seq(4096, i => 0);
    var new_, old_: Bytes := block + [1], block + [2];
    var copia := SampleDelta(new_, old_, block);
    var l: Nodes := map["l" := Dir, "l" + "/" + "a" := File(new_, Some(5), None)];
    var t: Nodes := map["r" := Dir, "r" + "/" + "a" := File(old_, Some(6), None)];
    var j := Job(Options(false, true, false, []), l, "l", "r", copia, true);
    assert new_[4096] != old_[4096];
    OneFile("l", "a", File(new_, Some(5), None));
    OneFile("r", "a", File(old_, Some(6), None));
    OneFileEach(j, t, "a", new_, old_);
  }

  lemma OneFile(root: string, name: string, node: Node)
    requires root != [] && '/' !in root && IsName(name) && node.File?
    ensures var k := root + "/" + name;
            var t := map[root := Dir, k := node];
            WellFormed(t) && FileMap(t, root, true) == map[k := InfoOf(node, true)] && RelPath(root, k) == name
  {
    var k := root + "/" + name;
    var t := map[root := Dir, k := node];
    SplitLast(root, name, k);
    assert k[|root|] == '/' && k[|root| + 1..] == name;
    assert k[|k| - 1] == name[|name| - 1] && name[|name| - 1] in name;
    RelUnder(root, k);
    forall q | q in t ensures q in FilesBelow(t, root) <==> q == k {}
  }

  /** A file on each side, of one size and with different bytes and times, and a short delta between them. */
  lemma OneFileEach(j: Job, t: Nodes, name: string, new_: Bytes, old_: Bytes)
    requires j.o == Options(false, true, false, []) && j.reportsSize
    requires var k, q := j.lroot + "/" + name, j.rroot + "/" + name;
             && RelPath(j.lroot, k) == name
             && LocalFiles(j) == map[k := FileInfo(|new_|, 5, None)]
             && RemoteFiles(j, t) == map[q := FileInfo(|old_|, 6, None)]
             && HasData(j.local, k, new_) && HasData(t, q, old_)
    requires new_ != old_ && |new_| == |old_| && DeltaSize(j.copia.delta(new_, old_)) < |new_|
    ensures j.lroot + "/" + name in LocalFiles(j) && DeltaPays(j, t, j.lroot + "/" + name)
  {
    hide DeltaSize, LocalFiles, RemoteFiles, RelPath;
  }
}

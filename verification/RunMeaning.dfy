/** What a sync run that returned Ok has done, in terms of its arguments and the two trees alone. */
module RunMeaning {
  import opened Basics
  import opened Tree
  import opened Listing
  import opened Session
  import opened RsyncPlan

  /** The files sent so far have the permission bits of their sources. */
  ghost predicate ModesSent(j: Job, base: Nodes, todo: set<string>, now: Nodes) {
    forall q :: ModeSentAt(j, base, todo, now, q)
  }

  ghost predicate ModeSentAt(j: Job, base: Nodes, todo: set<string>, now: Nodes, q: string) {
    IsUpload(j, base, q) && Source(j, q) !in todo ==>
      q in now && now[q].File? && ModeMatches(j.local[Source(j, q)].mode, now[q].mode)
  }

  /** Some `exclude=` option names a part of the path. */
  ghost predicate Matches(opts: seq<string>, k: string) {
    exists pat :: "exclude=" + pat in opts && Occurs(pat, k)
  }

  ghost predicate Occurs(pat: string, k: string) {
    exists a: string, b: string :: k == a + pat + b
  }

  predicate WantsDry(opts: seq<string>) {
    "dry-run" in opts || "dry_run" in opts
  }

  predicate IsFileAt(t: Nodes, k: string) {
    k in t && t[k].File?
  }

  function Time(n: Node): nat
    requires n.File?
  {
    if n.mtime.Some? then n.mtime.value else 0
  }

  /** The server reports for `there` the size and the time of `here`; a missing time counts as 0, and so does a size
      that it does not report. */
  predicate LooksSame(here: Node, there: Node, reportsSize: bool)
    requires here.File? && there.File?
  {
    (if reportsSize then |there.data| else 0) == |here.data| && Time(there) == Time(here)
  }

  /** A local file that no option excludes has its bytes at its place below the remote root, and without a failed call
      the permission bits if the bytes are new there; it is left alone when it looks the same and checksum was not asked
      for. */
  ghost predicate LocalMeans(opts: seq<string>, here: Node, k: string, q: string, reportsSize: bool,
                             t: Nodes, now: Nodes, calm: bool)
    requires here.File?
  {
    if Matches(opts, k) then SameAt(t, now, q)
    else if "checksum" !in opts && IsFileAt(t, q) && LooksSame(here, t[q], reportsSize) then SameAt(t, now, q)
    else if WantsDry(opts) then SameAt(t, now, q) || HasData(now, q, here.data)
    else
      && HasData(now, q, here.data)
      && (calm && !HasData(t, q, here.data) ==> ModeMatches(here.mode, now[q].mode))
  }

  /** A remote file with no local one in its place goes when delete was asked for, and not in a dry run. */
  ghost predicate RemoteMeans(opts: seq<string>, q: string, t: Nodes, refused: set<string>, now: Nodes) {
    if IsFileAt(t, q) && "delete" in opts && !WantsDry(opts) && q !in refused then q !in now
    else SameAt(t, now, q)
  }

  ghost predicate RunMeansAt(opts: seq<string>, l: string, r: string, local: Nodes, reportsSize: bool,
                             t: Nodes, refused: set<string>, now: Nodes, calm: bool, rel: string) {
    var k, q := l + "/" + rel, r + "/" + rel;
    if IsFileAt(local, k) then LocalMeans(opts, local[k], k, q, reportsSize, t, now, calm)
    else RemoteMeans(opts, q, t, refused, now)
  }

  /** What a run that returned Ok has made of the tree `t`, relative path by relative path; nothing else differs. */
  ghost predicate RunMeans(opts: seq<string>, l: string, r: string, local: Nodes, reportsSize: bool,
                           t: Nodes, refused: set<string>, now: Nodes, calm: bool) {
    && (forall rel: string :: RunMeansAt(opts, l, r, local, reportsSize, t, refused, now, calm, rel))
    && (forall q :: !Under(r, q) ==> SameAt(t, now, q))
  }

  lemma ContainsIff(s: string, pat: string)
    ensures Contains(s, pat) <==> Occurs(pat, s)
  {
    if i :| 0 <= i <= |s| && OccursAt(s, i, pat) {
      assert s == s[..i] + pat + s[i + |pat|..];
    }
    if a: string, b: string :| s == a + pat + b {
      assert OccursAt(s, |a|, pat);
    }
  }

  /** What occurs in a relative path, at its end or elsewhere, occurs in the whole path. */
  lemma OccursBelow(root: string, rel: string, pat: string)
    ensures Contains(rel, pat) || EndsWith(rel, pat) ==> Occurs(pat, root + "/" + rel)
  {
    if EndsWith(rel, pat) {
      assert OccursAt(rel, |rel| - |pat|, pat);
    }
    ContainsIff(rel, pat);
    if Occurs(pat, rel) {
      OccursBehind(root + "/", rel, pat);
    }
  }

  lemma OccursBehind(front: string, s: string, pat: string)
    requires Occurs(pat, s)
    ensures Occurs(pat, front + s)
  {
    var a: string, b: string :| s == a + pat + b;
    Joined(front, a + pat, b);
    Joined(front, a, pat);
  }

  /** A file is excluded exactly when a pattern occurs anywhere in its path. */
  lemma ExcludedIff(j: Job, opts: seq<string>, k: string)
    requires j.o == OptionsOf(opts) && Under(j.lroot, k)
    ensures Excluded(j, k) <==> Matches(opts, k)
  {
    RelUnder(j.lroot, k);
    var rel := RelPath(j.lroot, k);
    forall pat ensures Contains(rel, pat) || EndsWith(rel, pat) || Contains(k, pat) <==> Occurs(pat, k) {
      ContainsIff(k, pat);
      OccursBelow(j.lroot, rel, pat);
    }
    hide Occurs, Contains, EndsWith, RelPath;
    if Excluded(j, k) {
      var i :| 0 <= i < |j.o.excludes| &&
        var pat := j.o.excludes[i];
        Contains(rel, pat) || EndsWith(rel, pat) || Contains(k, pat);
      assert j.o.excludes[i] in j.o.excludes && "exclude=" + j.o.excludes[i] in opts;
    }
    if pat :| "exclude=" + pat in opts && Occurs(pat, k) {
      assert pat in j.o.excludes;
      var i :| 0 <= i < |j.o.excludes| && j.o.excludes[i] == pat;
    }
  }

  lemma SyncedIsRunMeans(j: Job, opts: seq<string>, t: Nodes, refused: set<string>, now: Nodes, calm: bool)
    requires WellFormedJob(j) && j.o == OptionsOf(opts) && Synced(j, t, refused, now)
    requires calm ==> ModesSent(j, t, {}, now)
    ensures RunMeans(opts, j.lroot, j.rroot, j.local, j.reportsSize, t, refused, now, calm)
  {
    forall rel: string ensures RunMeansAt(opts, j.lroot, j.rroot, j.local, j.reportsSize, t, refused, now, calm, rel) {
      RelativeMeans(j, opts, t, refused, now, calm, rel);
    }
    forall q | !Under(j.rroot, q) ensures SameAt(t, now, q) {
      assert GoalAt(j, t, refused, now, q);
    }
  }

  lemma RelativeMeans(j: Job, opts: seq<string>, t: Nodes, refused: set<string>, now: Nodes, calm: bool, rel: string)
    requires WellFormedJob(j) && j.o == OptionsOf(opts) && Synced(j, t, refused, now)
    requires calm ==> ModesSent(j, t, {}, now)
    ensures RunMeansAt(opts, j.lroot, j.rroot, j.local, j.reportsSize, t, refused, now, calm, rel)
  {
    hide WellFormedJob, Excluded, Matches, Source, Target, Decide, LocalFiles, RemoteFiles, Synced, ModesSent;
    var k, q := j.lroot + "/" + rel, j.rroot + "/" + rel;
    RelativePaths(j, rel);
    ListedIff(j, t, k, q);
    if IsFileAt(j.local, k) {
      LocalFileMeans(j, opts, t, refused, now, calm, k, q);
    } else {
      GoalIs(j, t, refused, now, q);
    }
  }

  lemma GoalIs(j: Job, t: Nodes, refused: set<string>, now: Nodes, q: string)
    requires Synced(j, t, refused, now)
    ensures GoalAt(j, t, refused, now, q)
  {
  }

  lemma ListedIff(j: Job, t: Nodes, k: string, q: string)
    requires WellFormedJob(j) && Under(j.lroot, k) && Under(j.rroot, q)
    ensures IsFileAt(j.local, k) <==> k in LocalFiles(j)
    ensures IsFileAt(t, q) <==> q in RemoteFiles(j, t)
    ensures IsFileAt(j.local, k) ==> LocalFiles(j)[k] == FileInfo(|j.local[k].data|, Time(j.local[k]), j.local[k].mode)
    ensures IsFileAt(t, q) ==>
              RemoteFiles(j, t)[q] == FileInfo(if j.reportsSize then |t[q].data| else 0, Time(t[q]), t[q].mode)
  {
  }

  lemma LocalFileMeans(j: Job, opts: seq<string>, t: Nodes, refused: set<string>, now: Nodes, calm: bool,
                       k: string, q: string)
    requires WellFormedJob(j) && j.o == OptionsOf(opts) && Synced(j, t, refused, now)
    requires calm ==> ModesSent(j, t, {}, now)
    requires Under(j.lroot, k) && Under(j.rroot, q) && Source(j, q) == k && Target(j, k) == q && IsFileAt(j.local, k)
    ensures LocalMeans(opts, j.local[k], k, q, j.reportsSize, t, now, calm)
  {
    GoalIs(j, t, refused, now, q);
    assert calm ==> ModeSentAt(j, t, {}, now, q);
    ListedIff(j, t, k, q);
    ExcludedIff(j, opts, k);
    hide WellFormedJob, Excluded, Matches, Source, Target, LocalFiles, RemoteFiles, Synced, ModesSent, DeltaSize;
  }

  lemma RelativePaths(j: Job, rel: string)
    ensures var k, q := j.lroot + "/" + rel, j.rroot + "/" + rel;
            Under(j.lroot, k) && Under(j.rroot, q) && Source(j, q) == k && Target(j, k) == q
  {
    var k, q := j.lroot + "/" + rel, j.rroot + "/" + rel;
    assert k[|j.lroot|] == '/' && q[|j.rroot|] == '/' && k[|j.lroot| + 1..] == rel && q[|j.rroot| + 1..] == rel;
    RelUnder(j.lroot, k);
    RelUnder(j.rroot, q);
  }
}

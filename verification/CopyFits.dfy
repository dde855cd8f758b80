/** When a push or a pull in which no call fails returns Ok: conditions on the two trees as they were before it. */
module CopyFits {
  import opened Basics
  import opened Tree
  import opened Listing
  import opened Session
  import opened Copy
  import opened PushResult

  /** `k` can be the temp of a write to `p`. */
  predicate IsTempOf(p: string, k: string) {
    |k| == |p| + 11 && k[..|p| + 5] == p + ".tmp." && IsSuffix(k[|p| + 5..])
  }

  predicate IsFileTarget(src: Nodes, p: string, q: string, k: string) {
    Within(q, k) && IsFile(src, SourceKey(p, q, k))
  }

  predicate IsDirTarget(src: Nodes, p: string, q: string, k: string) {
    Within(q, k) && IsDir(src, SourceKey(p, q, k))
  }

  /** No temp of a write can meet a name that is taken, by what is there or by what is copied. */
  ghost predicate TempsClear(src: Nodes, p: string, before: Nodes, q: string) {
    forall k, t :: IsFileTarget(src, p, q, k) && IsTempOf(k, t) ==>
      t !in before && !(Within(q, t) && SourceKey(p, q, t) in src)
  }

  // ----- push -----

  /** A file can be put at `k`: no directory is there, the topmost target is a directory or can be made one, and no file
      is on the way. */
  ghost predicate FileFits(before: Nodes, q: string, k: string) {
    && !IsDir(before, k)
    && (k == q ==> Creatable(before, q))
    && (k != q ==> (IsDir(before, q) || Creatable(before, q)) &&
                   forall m :: Within(q, m) && Under(m, k) ==> !IsFile(before, m))
  }

  ghost predicate FilesFit(src: Nodes, p: string, before: Nodes, remote: string) {
    && (IsFile(src, p) ==> Canonical(remote))
    && forall k :: IsFileTarget(src, p, TrimSlashes(remote), k) ==> FileFits(before, TrimSlashes(remote), k)
  }

  /** Below a directory every file lies behind a directory of the source. */
  lemma FileTargetBelow(src: Nodes, p: string, q: string, k: string)
    requires WellFormed(src) && IsDir(src, p) && IsFileTarget(src, p, q, k)
    ensures k != q && Under(q, k)
  {
    assert q[|q|..] == [] && p + [] == p;
  }

  /** With a file below it that fits, the topmost directory is there after the first `create_dir`. */
  lemma TopArrives(src: Nodes, p: string, q: string, names: set<string>, before: Nodes, mid: Nodes, k: string)
    requires WellFormed(src) && IsDir(src, p) && Tried(src, p, q, names, before, mid, true)
    requires IsFileTarget(src, p, q, k) && FileFits(before, q, k)
    ensures IsDir(mid, q)
  {
    FileTargetBelow(src, p, q, k);
    assert Within(q, q) && !IsFile(before, q);
    assert q[|q|..] == [] && p + [] == p;
    assert TriedAt(src, p, q, names, before, mid, q, true);
    if q !in before && '/' in q {
      ParentNotBelow(q);
      assert TriedAt(src, p, q, names, before, mid, ParentOf(q), true);
    }
  }

  lemma EntryCanBeMade(mid: Nodes, q: string, n: string)
    requires IsDir(mid, q) && IsName(n)
    ensures Creatable(mid, q + "/" + n) && Canonical(q + "/" + n)
  {
    var child := q + "/" + n;
    SplitLast(q, n, child);
    assert child[|child| - 1] == n[|n| - 1] && n[|n| - 1] in n;
  }

  /** The state in which one more entry of a directory is pushed. */
  ghost predicate Entering(src: Nodes, dir: string, q: string, done: set<string>, n: string, before: Nodes,
                           mid: Nodes) {
    && WellFormed(src) && IsDir(src, TrimSlashes(dir)) && Canonical(q)
    && done <= Children(src, dir) && n in Children(src, dir) && n !in done
    && forall k :: IsCopy(src, TrimSlashes(dir), q, done, k) || SameAt(before, mid, k)
  }

  /** Within the entry nothing has changed yet, and the keys are the same seen from the entry or from the directory. */
  lemma EntrySame(src: Nodes, dir: string, q: string, done: set<string>, n: string, before: Nodes, mid: Nodes,
                  k: string)
    requires Entering(src, dir, q, done, n, before, mid) && Within(q + "/" + n, k)
    ensures SameAt(before, mid, k) && Within(q, k)
    ensures SourceKey(Join(dir, n), q + "/" + n, k) == SourceKey(TrimSlashes(dir), q, k)
  {
    TriedBelow(src, dir, q, done, n, k);
  }

  lemma EntryTempsClear(src: Nodes, dir: string, q: string, done: set<string>, n: string, before: Nodes, mid: Nodes)
    requires Entering(src, dir, q, done, n, before, mid) && TempsClear(src, TrimSlashes(dir), before, q)
    ensures TempsClear(src, Join(dir, n), mid, q + "/" + n)
  {
    var p, c := TrimSlashes(dir), q + "/" + n;
    forall k, t | IsFileTarget(src, Join(dir, n), c, k) && IsTempOf(k, t)
      ensures t !in mid && !(Within(c, t) && SourceKey(Join(dir, n), c, t) in src)
    {
      EntrySame(src, dir, q, done, n, before, mid, k);
      assert IsFileTarget(src, p, q, k);
      assert IsCopy(src, p, q, done, t) || SameAt(before, mid, t);
      if Within(c, t) {
        EntrySame(src, dir, q, done, n, before, mid, t);
      }
    }
  }

  lemma EntryFileFits(src: Nodes, dir: string, q: string, done: set<string>, n: string, before: Nodes, mid: Nodes,
                      k: string)
    requires Entering(src, dir, q, done, n, before, mid)
    requires Tried(src, TrimSlashes(dir), q, done, before, mid, true)
    requires IsFileTarget(src, Join(dir, n), q + "/" + n, k) && FileFits(before, q, k)
    ensures FileFits(mid, q + "/" + n, k)
  {
    var p, c := TrimSlashes(dir), q + "/" + n;
    EntrySame(src, dir, q, done, n, before, mid, k);
    FileTargetBelow(src, p, q, k);
    TopArrives(src, p, q, done, before, mid, k);
    ChildKey(src, dir, n);
    EntryCanBeMade(mid, q, n);
    forall m | Within(c, m) && Under(m, k) ensures !IsFile(mid, m) {
      EntrySame(src, dir, q, done, n, before, mid, m);
    }
  }

  lemma EntryFits(src: Nodes, dir: string, remote: string, done: set<string>, n: string, before: Nodes, mid: Nodes)
    requires Entering(src, dir, TrimSlashes(remote), done, n, before, mid)
    requires Tried(src, TrimSlashes(dir), TrimSlashes(remote), done, before, mid, true)
    requires FilesFit(src, TrimSlashes(dir), before, remote)
    ensures FilesFit(src, Join(dir, n), mid, Join(remote, n))
  {
    hide FileFits;
    var p, q, c := TrimSlashes(dir), TrimSlashes(remote), Join(remote, n);
    ChildKey(src, dir, n);
    assert c[|c| - 1] == n[|n| - 1] && n[|n| - 1] in n;
    forall k | IsFileTarget(src, Join(dir, n), c, k) ensures FileFits(mid, c, k) {
      EntrySame(src, dir, q, done, n, before, mid, k);
      assert IsFileTarget(src, p, q, k);
      EntryFileFits(src, dir, q, done, n, before, mid, k);
    }
  }

  /** Where a push without a failed call has succeeded, the files fitted. */
  lemma PushedFits(src: Nodes, p: string, before: Nodes, after: Nodes, remote: string)
    requires WellFormed(src) && WellFormed(after) && p in src && (IsFile(src, p) ==> Canonical(remote))
    requires TriedAll(src, p, TrimSlashes(remote), before, after, true)
    ensures FilesFit(src, p, before, remote)
  {
    var q := TrimSlashes(remote);
    forall k | IsFileTarget(src, p, q, k) ensures FileFits(before, q, k) {
      PushedFileFits(src, p, before, after, q, k);
    }
  }

  lemma PushedFileFits(src: Nodes, p: string, before: Nodes, after: Nodes, q: string, k: string)
    requires WellFormed(src) && WellFormed(after) && p in src && Canonical(q)
    requires TriedAll(src, p, q, before, after, true) && IsFileTarget(src, p, q, k)
    ensures FileFits(before, q, k)
  {
    assert TriedAllAt(src, p, q, before, after, k, true);
    assert q[|q|..] == [] && p + [] == p;
    if '/' in q {
      ParentNotBelow(q);
      assert TriedAllAt(src, p, q, before, after, ParentOf(q), true);
    }
    if k != q {
      var s := SourceKey(p, q, k);
      assert s[|p|] == '/' && s[..|p|] == p;
      AncestorIsDir(src, p, s);
      AncestorIsDir(after, q, k);
      assert TriedAllAt(src, p, q, before, after, q, true);
      forall m | Within(q, m) && Under(m, k) ensures !IsFile(before, m) {
        AncestorIsDir(after, m, k);
        AboveSource(src, p, q, m, k);
        assert TriedAllAt(src, p, q, before, after, m, true);
      }
    }
  }

  /** What lies between the target and a file's place comes from a directory of the source. */
  lemma AboveSource(src: Nodes, p: string, q: string, m: string, k: string)
    requires WellFormed(src) && Within(q, k) && Within(q, m) && Under(m, k) && SourceKey(p, q, k) in src
    ensures IsDir(src, SourceKey(p, q, m))
  {
    var s, d := SourceKey(p, q, k), SourceKey(p, q, m);
    assert k[..|m|] == m;
    assert s[..|d|] == d by {
      assert k[|q|..][..|m| - |q|] == m[|q|..];
    }
    assert s[|d|] == k[|q|..][|m| - |q|] == k[|m|] == '/';
    AncestorIsDir(src, d, s);
  }

  /** A tree of directories fits anywhere. */
  lemma OnlyDirsFit(src: Nodes, p: string, before: Nodes, remote: string)
    requires forall k :: k in src && Within(p, k) ==> src[k].Dir?
    ensures TempsClear(src, p, before, TrimSlashes(remote)) && FilesFit(src, p, before, remote)
  {
    var q := TrimSlashes(remote);
    forall k | Within(q, k) ensures Within(p, SourceKey(p, q, k)) {
      SourceWithin(p, q, k);
    }
    assert Within(p, p);
  }

  lemma SourceWithin(p: string, q: string, k: string)
    requires Within(q, k)
    ensures Within(p, SourceKey(p, q, k))
  {
    if k == q {
      assert k[|q|..] == [] && p + [] == p;
    } else {
      assert SourceKey(p, q, k)[|p|] == '/' && SourceKey(p, q, k)[..|p|] == p;
    }
  }

  // ----- pull -----

  /** `create_dir_all` can make `k` a directory. */
  predicate Makeable(t: Nodes, k: string)
    decreases |k|
  {
    if k in t then t[k].Dir?
    else k != [] && Canonical(k) && ('/' in k ==> Makeable(t, ParentOf(k)))
  }

  /** Files go where no directory is, and directories where no file is. */
  ghost predicate KindsFit(src: Nodes, p: string, before: Nodes, q: string) {
    && (forall k :: IsFileTarget(src, p, q, k) ==> !IsDir(before, k))
    && (forall k :: IsDirTarget(src, p, q, k) ==> !IsFile(before, k))
  }

  /** The kinds fit, and what is missing above can be made. */
  ghost predicate PullFits(src: Nodes, p: string, before: Nodes, local: string) {
    && KindsFit(src, p, before, TrimSlashes(local))
    && (IsDir(src, p) ==> Makeable(before, TrimSlashes(local)))
    && (IsFile(src, p) ==> local != [] && Canonical(local) && ('/' in local ==> Makeable(before, ParentOf(local))))
  }

  /** The directory being pulled into is there; its entries fit if the whole does. */
  lemma EntryPullFits(src: Nodes, dir: string, local: string, done: set<string>, n: string, before: Nodes, mid: Nodes)
    requires Entering(src, dir, TrimSlashes(local), done, n, before, mid) && IsDir(mid, TrimSlashes(local))
    requires KindsFit(src, TrimSlashes(dir), before, TrimSlashes(local))
    ensures PullFits(src, Join(dir, n), mid, Join(local, n))
  {
    var p, q, c := TrimSlashes(dir), TrimSlashes(local), Join(local, n);
    ChildKey(src, dir, n);
    EntryCanBeMade(mid, q, n);
    SplitLast(q, n, c);
    forall k | IsFileTarget(src, Join(dir, n), c, k) ensures !IsDir(mid, k) {
      EntrySame(src, dir, q, done, n, before, mid, k);
      assert IsFileTarget(src, p, q, k);
    }
    forall k | IsDirTarget(src, Join(dir, n), c, k) ensures !IsFile(mid, k) {
      EntrySame(src, dir, q, done, n, before, mid, k);
      assert IsDirTarget(src, p, q, k);
    }
    assert c[|c|..] == [] && Join(dir, n) + [] == Join(dir, n);
    assert Within(c, c);
    assert IsDir(src, Join(dir, n)) ==> IsDirTarget(src, Join(dir, n), c, c);
  }
}

/** What a push that returns Ok leaves behind.  `create_dir` and the update of the mode are best effort: directories
    can be missing, and modes as well when a call has failed; the run is then not `calm`. */
module PushResult {
  import opened Tree
  import opened Listing
  import opened Session
  import opened Copy

  predicate IsFile(t: Nodes, k: string) {
    k in t && t[k].File?
  }

  /** What a `create_dir` whose result is ignored makes of `k`: what was there stays, and in a calm run a directory is
      made where one can be. */
  predicate DirTried(before: Nodes, after: Nodes, k: string, calm: bool) {
    if k in before then SameAt(before, after, k)
    else if !calm then k in after ==> IsDir(after, k)
    else if Creatable(after, k) then IsDir(after, k)
    else k !in after
  }

  predicate NodeTried(n: Node, before: Nodes, after: Nodes, k: string, calm: bool) {
    match n
    case Dir => DirTried(before, after, k, calm)
    case File(_, _, _) => k in after && SameKind(n, after[k], calm) && !IsDir(before, k) && Creatable(after, k)
  }

  ghost predicate TriedAt(src: Nodes, p: string, q: string, names: set<string>, before: Nodes, after: Nodes,
                          k: string, calm: bool) {
    if IsCopy(src, p, q, names, k) then NodeTried(src[SourceKey(p, q, k)], before, after, k, calm)
    else SameAt(before, after, k)
  }

  /** The directory `p` and its entries `names` have been pushed to `q`, and nothing else has changed. */
  ghost predicate Tried(src: Nodes, p: string, q: string, names: set<string>, before: Nodes, after: Nodes, calm: bool) {
    forall k :: TriedAt(src, p, q, names, before, after, k, calm)
  }

  ghost predicate TriedAllAt(src: Nodes, p: string, q: string, before: Nodes, after: Nodes, k: string, calm: bool) {
    if Within(q, k) && SourceKey(p, q, k) in src then NodeTried(src[SourceKey(p, q, k)], before, after, k, calm)
    else SameAt(before, after, k)
  }

  /** Everything at and below `p` has been pushed to `q`, and nothing else has changed. */
  ghost predicate TriedAll(src: Nodes, p: string, q: string, before: Nodes, after: Nodes, calm: bool) {
    forall k :: TriedAllAt(src, p, q, before, after, k, calm)
  }

  /** No directory is to go where a file is, and the topmost one is there or can be made. */
  ghost predicate Fits(src: Nodes, p: string, before: Nodes, q: string) {
    && (forall k :: Within(q, k) && IsDir(src, SourceKey(p, q, k)) ==> !IsFile(before, k))
    && (IsDir(src, p) ==> IsDir(before, q) || Creatable(before, q))
  }

  /** A push that returned Ok has brought the bytes of every file, whatever calls have failed; what is outside the
      target is as before, and so is what was there inside it and is no file's target. */
  lemma PushedFilesArrive(src: Nodes, p: string, q: string, before: Nodes, after: Nodes, calm: bool)
    requires TriedAll(src, p, q, before, after, calm)
    ensures FilesAt(src, p, after, q)
    ensures forall k :: !Within(q, k) || SourceKey(p, q, k) !in src ==> SameAt(before, after, k)
    ensures forall k :: Within(q, k) && IsDir(src, SourceKey(p, q, k)) && k in before ==> SameAt(before, after, k)
  {
    forall rest: string ensures FileAt(src, p, after, q, rest) {
      if rest == [] || rest[0] == '/' {
        WithinRest(q, rest);
        assert TriedAllAt(src, p, q, before, after, q + rest, calm);
      }
    }
    forall k ensures !Within(q, k) || SourceKey(p, q, k) !in src ==> SameAt(before, after, k) {
      assert TriedAllAt(src, p, q, before, after, k, calm);
    }
    forall k | Within(q, k) && IsDir(src, SourceKey(p, q, k)) && k in before ensures SameAt(before, after, k) {
      assert TriedAllAt(src, p, q, before, after, k, calm);
    }
  }

  // ----- one entry after another -----

  /** What lies above a key within `c` does so too, or is shorter than `c`. */
  lemma ParentNotWithin(c: string, k: string)
    requires !Within(c, k) && '/' in k
    ensures !Within(c, ParentOf(k))
  {
  }

  lemma StillTried(n: Node, before: Nodes, mid: Nodes, after: Nodes, k: string, calm: bool, calm': bool)
    requires NodeTried(n, before, mid, k, calm) && SameAt(mid, after, k) && (Creatable(mid, k) <==> Creatable(after, k))
    ensures NodeTried(n, before, after, k, calm && calm')
  {
  }

  lemma NowTried(n: Node, before: Nodes, mid: Nodes, after: Nodes, k: string, calm: bool, calm': bool)
    requires SameAt(before, mid, k) && NodeTried(n, mid, after, k, calm')
    ensures NodeTried(n, before, after, k, calm && calm')
  {
  }

  lemma TriedStepAt(src: Nodes, dir: string, q: string, names: set<string>, n: string,
                    before: Nodes, mid: Nodes, after: Nodes, k: string, calm: bool, calm': bool)
    requires WellFormed(src) && Canonical(q)
    requires names <= Children(src, dir) && n in Children(src, dir) && n !in names
    requires Tried(src, TrimSlashes(dir), q, names, before, mid, calm)
    requires TriedAll(src, Join(dir, n), Join(q, n), mid, after, calm')
    ensures TriedAt(src, TrimSlashes(dir), q, names + {n}, before, after, k, calm && calm')
  {
    hide NodeTried, Children;
    var p, c := TrimSlashes(dir), q + "/" + n;
    assert Join(dir, n) == p + "/" + n && Join(q, n) == c;
    assert TriedAt(src, p, q, names, before, mid, k, calm);
    assert TriedAllAt(src, p + "/" + n, c, mid, after, k, calm');
    if Within(c, k) {
      TriedBelow(src, dir, q, names, n, k);
      if SourceKey(p, q, k) in src {
        NowTried(src[SourceKey(p, q, k)], before, mid, after, k, calm, calm');
      }
    } else {
      if Within(q, k) {
        InEntriesGrow(p, names, n, SourceKey(p, q, k));
        if Within(p + "/" + n, SourceKey(p, q, k)) {
          EntryOfSource(p, q, n, k);
        }
      }
      if '/' in k {
        ParentNotWithin(c, k);
        assert TriedAllAt(src, p + "/" + n, c, mid, after, ParentOf(k), calm');
      }
      if IsCopy(src, p, q, names, k) {
        StillTried(src[SourceKey(p, q, k)], before, mid, after, k, calm, calm');
      }
    }
  }

  /** A key within the new entry has not been dealt with before. */
  lemma TriedBelow(src: Nodes, dir: string, q: string, names: set<string>, n: string, k: string)
    requires WellFormed(src) && Within(q + "/" + n, k)
    requires names <= Children(src, dir) && n in Children(src, dir) && n !in names
    ensures Within(q, k) && !IsCopy(src, TrimSlashes(dir), q, names, k)
    ensures SourceKey(TrimSlashes(dir) + "/" + n, q + "/" + n, k) == SourceKey(TrimSlashes(dir), q, k)
    ensures IsCopy(src, TrimSlashes(dir), q, names + {n}, k) <==> SourceKey(TrimSlashes(dir), q, k) in src
  {
    var p := TrimSlashes(dir);
    SourceOfEntry(p, q, n, k);
    var s := SourceKey(p, q, k);
    InEntriesGrow(p, names, n, s);
    if s in src && InEntries(p, names, s) {
      var m :| m in names && Within(Join(p, m), s);
      ChildKey(src, dir, m);
      ChildKey(src, dir, n);
      SubtreesDisjoint(src, dir, n, m, s);
    }
  }

  lemma TriedStep(src: Nodes, dir: string, q: string, names: set<string>, n: string, before: Nodes, mid: Nodes,
                  after: Nodes, calm: bool, calm': bool)
    requires WellFormed(src) && Canonical(q)
    requires names <= Children(src, dir) && n in Children(src, dir) && n !in names
    requires Tried(src, TrimSlashes(dir), q, names, before, mid, calm)
    requires TriedAll(src, Join(dir, n), Join(q, n), mid, after, calm')
    ensures Tried(src, TrimSlashes(dir), q, names + {n}, before, after, calm && calm')
  {
    var both := calm && calm';
    forall k ensures TriedAt(src, TrimSlashes(dir), q, names + {n}, before, after, k, both) {
      TriedStepAt(src, dir, q, names, n, before, mid, after, k, calm, calm');
    }
  }

  lemma TriedDone(src: Nodes, dir: string, q: string, before: Nodes, after: Nodes, calm: bool)
    requires WellFormed(src) && Tried(src, TrimSlashes(dir), q, Children(src, dir), before, after, calm)
    ensures TriedAll(src, TrimSlashes(dir), q, before, after, calm)
  {
    var p := TrimSlashes(dir);
    forall k ensures TriedAllAt(src, p, q, before, after, k, calm) {
      assert TriedAt(src, p, q, Children(src, dir), before, after, k, calm);
      if Within(q, k) && SourceKey(p, q, k) in src && k != q {
        var s := SourceKey(p, q, k);
        assert s[|p|] == '/' && s[..|p|] == p;
        var n := BelowSplits(src, dir, s);
        assert InEntries(p, Children(src, dir), s);
      }
    }
  }

  /** A pushed file is a copied file. */
  lemma FileTried(src: Nodes, p: string, q: string, before: Nodes, after: Nodes, calm: bool)
    requires WellFormed(src) && p in src && src[p].File? && CopiedAll(src, p, q, before, after, calm)
    requires Creatable(after, q)
    ensures TriedAll(src, p, q, before, after, calm)
  {
    forall k ensures TriedAllAt(src, p, q, before, after, k, calm) {
      assert CopiedAllAt(src, p, q, before, after, k, calm);
      if Within(q, k) && SourceKey(p, q, k) in src {
        NothingBelowFile(src, p, q, k);
      }
    }
  }

  lemma NothingBelowFile(src: Nodes, p: string, q: string, k: string)
    requires WellFormed(src) && p in src && src[p].File? && Within(q, k) && SourceKey(p, q, k) in src
    ensures SourceKey(p, q, k) == p && k == q
  {
    var s := SourceKey(p, q, k);
    if k != q {
      assert s[|p|] == '/' && s[..|p|] == p;
      AncestorIsDir(src, p, s);
    } else {
      assert k[|q|..] == [] && p + [] == p;
    }
  }

  lemma DirMade(src: Nodes, p: string, q: string, before: Nodes, after: Nodes, calm: bool)
    requires IsDir(src, p) && DirTried(before, after, q, calm) && AgreeOutside(before, after, {q})
    ensures Tried(src, p, q, {}, before, after, calm)
  {
    assert q[|q|..] == [] && p + [] == p;
  }

  // ----- when all directories get there -----

  /** With every directory fitting, each target of a directory is one afterwards. */
  lemma {:induction false} DirArrives(src: Nodes, p: string, q: string, before: Nodes, after: Nodes, k: string)
    requires WellFormed(src) && Canonical(p) && Canonical(q)
    requires TriedAll(src, p, q, before, after, true) && Fits(src, p, before, q)
    requires Within(q, k) && IsDir(src, SourceKey(p, q, k))
    ensures IsDir(after, k)
    decreases |k|
  {
    assert TriedAllAt(src, p, q, before, after, k, true);
    if k == q {
      assert k[|q|..] == [] && p + [] == p;
      if k !in before && '/' in k {
        ParentNotBelow(q);
        assert TriedAllAt(src, p, q, before, after, ParentOf(k), true);
      }
    } else {
      ParentOfSource(src, p, q, k);
      DirArrives(src, p, q, before, after, ParentOf(k));
    }
  }

  lemma ParentNotBelow(q: string)
    requires '/' in q
    ensures !Within(q, ParentOf(q))
  {
  }

  /** The target of a directory's entry lies in the target of the directory. */
  lemma ParentOfSource(src: Nodes, p: string, q: string, k: string)
    requires WellFormed(src) && Under(q, k) && SourceKey(p, q, k) in src
    ensures '/' in k && Within(q, ParentOf(k)) && IsDir(src, SourceKey(p, q, ParentOf(k))) && k != [] && Canonical(k)
  {
    var m, n, s := ParentOf(k), NameOf(k), SourceKey(p, q, k);
    assert |m| >= |q|;
    assert m[..|q|] == k[..|m|][..|q|] == q;
    assert m != q ==> m[|q|] == '/';
    assert s == p + m[|q|..] + "/" + n by { assert k == m + "/" + n; }
    forall c | c in n ensures c != '/' {
      var i :| 0 <= i < |n| && n[i] == c;
      assert n[i] == k[|m| + 1 + i];
    }
    SplitLast(p + m[|q|..], n, s);
    assert s[|s| - 1] == k[|k| - 1];
  }

  /** A push without a failed call copies everything if and only if the directories fit. */
  lemma CopiedIffFits(src: Nodes, p: string, q: string, before: Nodes, after: Nodes)
    requires WellFormed(src) && p in src && Canonical(q) && TriedAll(src, p, q, before, after, true)
    ensures CopiedAll(src, p, q, before, after, true) <==> Fits(src, p, before, q)
  {
    if CopiedAll(src, p, q, before, after, true) {
      forall k | Within(q, k) && IsDir(src, SourceKey(p, q, k)) ensures !IsFile(before, k) {
        assert CopiedAllAt(src, p, q, before, after, k, true) && TriedAllAt(src, p, q, before, after, k, true);
      }
      if IsDir(src, p) {
        TopFits(src, p, q, before, after);
      }
    }
    if Fits(src, p, before, q) {
      forall k ensures CopiedAllAt(src, p, q, before, after, k, true) {
        assert TriedAllAt(src, p, q, before, after, k, true);
        if Within(q, k) && IsDir(src, SourceKey(p, q, k)) {
          DirArrives(src, p, q, before, after, k);
        }
      }
    }
  }

  lemma TopFits(src: Nodes, p: string, q: string, before: Nodes, after: Nodes)
    requires IsDir(src, p) && TriedAll(src, p, q, before, after, true) && CopiedAll(src, p, q, before, after, true)
    ensures IsDir(before, q) || Creatable(before, q)
  {
    assert q[|q|..] == [] && p + [] == p;
    assert CopiedAllAt(src, p, q, before, after, q, true) && TriedAllAt(src, p, q, before, after, q, true);
    if q !in before && '/' in q {
      ParentNotBelow(q);
      assert TriedAllAt(src, p, q, before, after, ParentOf(q), true);
    }
  }
}

/** What it means that a subtree has been copied to another place, and that two copies make a round trip. */
module Copy {
  import opened Basics
  import opened Tree
  import opened Listing
  import opened Session

  /** A copy has the source's bytes; it has its permission bits as well when the run was `calm`: an update of the mode
      that fails is only reported. */
  predicate SameKind(source: Node, copy: Node, calm: bool) {
    match source
    case Dir => copy.Dir?
    case File(data, _, mode) => copy.File? && copy.data == data && (calm ==> ModeMatches(mode, copy.mode))
  }

  /** The key that `k`, within `q`, is a copy of when `p` is copied to `q`. */
  function SourceKey(p: string, q: string, k: string): string
    requires Within(q, k)
  {
    p + k[|q|..]
  }

  /** `k` is the copy of something that has been copied: of `p` itself or of an entry in `names`. */
  ghost predicate IsCopy(src: Nodes, p: string, q: string, names: set<string>, k: string) {
    Within(q, k) && SourceKey(p, q, k) in src && (k == q || InEntries(p, names, SourceKey(p, q, k)))
  }

  /** The copy is there, and took no place of a node of the other kind. */
  predicate NodeCopied(n: Node, before: Nodes, after: Nodes, k: string, calm: bool) {
    k in after && SameKind(n, after[k], calm) && (k in before ==> before[k].Dir? == n.Dir?)
  }

  ghost predicate CopiedAt(src: Nodes, p: string, q: string, names: set<string>, before: Nodes, after: Nodes,
                           k: string, calm: bool) {
    if IsCopy(src, p, q, names, k) then NodeCopied(src[SourceKey(p, q, k)], before, after, k, calm)
    else SameAt(before, after, k)
  }

  /** The directory `p` and its entries `names` have been copied to `q`, and nothing else has changed. */
  ghost predicate Copied(src: Nodes, p: string, q: string, names: set<string>, before: Nodes, after: Nodes,
                         calm: bool) {
    forall k :: CopiedAt(src, p, q, names, before, after, k, calm)
  }

  ghost predicate CopiedAllAt(src: Nodes, p: string, q: string, before: Nodes, after: Nodes, k: string, calm: bool) {
    if Within(q, k) && SourceKey(p, q, k) in src then NodeCopied(src[SourceKey(p, q, k)], before, after, k, calm)
    else SameAt(before, after, k)
  }

  /** Everything at and below `p` has been copied to `q`, and nothing else has changed. */
  ghost predicate CopiedAll(src: Nodes, p: string, q: string, before: Nodes, after: Nodes, calm: bool) {
    forall k :: CopiedAllAt(src, p, q, before, after, k, calm)
  }

  /** The subtrees at `p` and `q` have the same names, contents and permission bits. */
  ghost predicate SameTree(a: Nodes, p: string, b: Nodes, q: string) {
    forall rest: string :: SameTreeAt(a, p, b, q, rest)
  }

  ghost predicate SameTreeAt(a: Nodes, p: string, b: Nodes, q: string, rest: string) {
    rest == [] || rest[0] == '/' ==>
      (p + rest in a <==> q + rest in b) && (p + rest in a ==> SameKind(a[p + rest], b[q + rest], true))
  }

  ghost predicate NothingWithin(t: Nodes, p: string) {
    forall k :: k in t ==> !Within(p, k)
  }

  lemma WithinRest(p: string, rest: string)
    requires rest == [] || rest[0] == '/'
    ensures Within(p, p + rest) && (p + rest)[|p|..] == rest
  {
    if rest == [] {
      assert p + rest == p;
    } else {
      assert (p + rest)[|p|] == '/';
    }
  }

  /** Every file below `p`, and `p` itself if it is one, has its bytes at the corresponding place below `q`. */
  ghost predicate FilesAt(src: Nodes, p: string, after: Nodes, q: string) {
    forall rest: string :: FileAt(src, p, after, q, rest)
  }

  ghost predicate FileAt(src: Nodes, p: string, after: Nodes, q: string, rest: string) {
    (rest == [] || rest[0] == '/') && p + rest in src && src[p + rest].File? ==>
      HasData(after, q + rest, src[p + rest].data)
  }

  lemma FilesAtTransitive(a: Nodes, p: string, b: Nodes, q: string, c: Nodes, r: string)
    requires FilesAt(a, p, b, q) && FilesAt(b, q, c, r)
    ensures FilesAt(a, p, c, r)
  {
    forall rest: string ensures FileAt(a, p, c, r, rest) {
      assert FileAt(a, p, b, q, rest) && FileAt(b, q, c, r, rest);
    }
  }

  /** A copy that returned Ok has the bytes of every file, also when a call failed that is only reported. */
  lemma CopiedFilesArrive(src: Nodes, p: string, q: string, before: Nodes, after: Nodes, calm: bool)
    requires CopiedAll(src, p, q, before, after, calm)
    ensures FilesAt(src, p, after, q)
  {
    forall rest: string ensures FileAt(src, p, after, q, rest) {
      if rest == [] || rest[0] == '/' {
        WithinRest(q, rest);
        assert CopiedAllAt(src, p, q, before, after, q + rest, calm);
      }
    }
  }

  /** A full copy to a place where nothing was makes the two places alike. */
  lemma FreshCopyIsSame(src: Nodes, p: string, q: string, before: Nodes, after: Nodes)
    requires CopiedAll(src, p, q, before, after, true) && NothingWithin(before, q)
    ensures SameTree(src, p, after, q)
  {
    forall rest: string ensures SameTreeAt(src, p, after, q, rest) {
      if rest == [] || rest[0] == '/' {
        WithinRest(q, rest);
        assert CopiedAllAt(src, p, q, before, after, q + rest, true);
      }
    }
  }

  lemma SameTreeTransitive(a: Nodes, p: string, b: Nodes, q: string, c: Nodes, r: string)
    requires SameTree(a, p, b, q) && SameTree(b, q, c, r)
    ensures SameTree(a, p, c, r)
  {
    forall rest: string ensures SameTreeAt(a, p, c, r, rest) {
      assert SameTreeAt(a, p, b, q, rest) && SameTreeAt(b, q, c, r, rest);
    }
  }

  /** Copy out to a fresh place and back to a fresh place: the same tree. */
  lemma RoundTripIsIdentity(a: Nodes, p: string, r0: Nodes, r1: Nodes, q: string, l0: Nodes, l1: Nodes, p2: string)
    requires CopiedAll(a, p, q, r0, r1, true) && NothingWithin(r0, q)
    requires CopiedAll(r1, q, p2, l0, l1, true) && NothingWithin(l0, p2)
    ensures SameTree(a, p, l1, p2)
    ensures forall k :: !Within(q, k) ==> SameAt(r0, r1, k)
    ensures forall k :: !Within(p2, k) ==> SameAt(l0, l1, k)
  {
    FreshCopyIsSame(a, p, q, r0, r1);
    FreshCopyIsSame(r1, q, p2, l0, l1);
    SameTreeTransitive(a, p, r1, q, l1, p2);
    forall k | !Within(q, k) ensures SameAt(r0, r1, k) { assert CopiedAllAt(a, p, q, r0, r1, k, true); }
    forall k | !Within(p2, k) ensures SameAt(l0, l1, k) { assert CopiedAllAt(r1, q, p2, l0, l1, k, true); }
  }

  // ----- one entry after another -----

  /** Within an entry, the source key is the same seen from the entry or from the directory. */
  lemma SourceOfEntry(p: string, q: string, n: string, k: string)
    requires Within(q + "/" + n, k)
    ensures Within(q, k) && SourceKey(p + "/" + n, q + "/" + n, k) == SourceKey(p, q, k)
    ensures Within(p + "/" + n, SourceKey(p, q, k)) && k != q
  {
    var c := q + "/" + n;
    assert c[..|q|] == q && c[|q|] == '/';
    assert k[..|c|] == c;
    assert k[|q|..] == "/" + n + k[|c|..];
    var s := SourceKey(p, q, k);
    assert s == p + "/" + n + k[|c|..];
    assert s[..|p + "/" + n|] == p + "/" + n;
    if k != c {
      assert s[|p + "/" + n|] == '/';
    }
  }

  lemma EntryOfSource(p: string, q: string, n: string, k: string)
    requires Within(q, k) && Within(p + "/" + n, SourceKey(p, q, k))
    ensures Within(q + "/" + n, k)
  {
    var c, s := p + "/" + n, SourceKey(p, q, k);
    assert s[..|c|] == c;
    assert c[|p|..] == "/" + n;
    assert k[|q|..] == s[|p|..];
    assert k[|q|..][..1 + |n|] == s[|p|..|c|] == "/" + n;
    assert k == q + k[|q|..];
    assert k[..|q| + 1 + |n|] == q + k[|q|..][..1 + |n|];
    if s != c {
      assert s[|c|] == '/';
    }
  }

  lemma CopyStep(src: Nodes, p: string, q: string, names: set<string>, n: string, before: Nodes, mid: Nodes,
                 after: Nodes, calm: bool, calm': bool)
    requires Canonical(p) && Canonical(q)
    requires Copied(src, p, q, names, before, mid, calm) && CopiedAll(src, Join(p, n), Join(q, n), mid, after, calm')
    ensures Copied(src, p, q, names + {n}, before, after, calm && calm')
  {
    var both := calm && calm';
    forall k ensures CopiedAt(src, p, q, names + {n}, before, after, k, both) {
      CopyStepAt(src, p, q, names, n, before, mid, after, k, calm, calm');
    }
  }

  lemma CopyStepAt(src: Nodes, p: string, q: string, names: set<string>, n: string, before: Nodes, mid: Nodes,
                   after: Nodes, k: string, calm: bool, calm': bool)
    requires Canonical(p) && Canonical(q)
    requires CopiedAt(src, p, q, names, before, mid, k, calm)
    requires CopiedAllAt(src, Join(p, n), Join(q, n), mid, after, k, calm')
    ensures CopiedAt(src, p, q, names + {n}, before, after, k, calm && calm')
  {
    if Within(q + "/" + n, k) {
      SourceOfEntry(p, q, n, k);
      InEntriesGrow(p, names, n, SourceKey(p, q, k));
    } else if Within(q, k) {
      InEntriesGrow(p, names, n, SourceKey(p, q, k));
      if Within(p + "/" + n, SourceKey(p, q, k)) {
        EntryOfSource(p, q, n, k);
      }
    }
  }

  lemma CopyDone(src: Nodes, dir: string, q: string, before: Nodes, after: Nodes, calm: bool)
    requires WellFormed(src) && Copied(src, TrimSlashes(dir), q, Children(src, dir), before, after, calm)
    ensures CopiedAll(src, TrimSlashes(dir), q, before, after, calm)
  {
    var p := TrimSlashes(dir);
    forall k ensures CopiedAllAt(src, p, q, before, after, k, calm) {
      assert CopiedAt(src, p, q, Children(src, dir), before, after, k, calm);
      if Within(q, k) && SourceKey(p, q, k) in src && k != q {
        var s := SourceKey(p, q, k);
        assert s[|p|] == '/' && s[..|p|] == p;
        var n := BelowSplits(src, dir, s);
        assert InEntries(p, Children(src, dir), s);
      }
    }
  }

  /** A file has nothing below it, so copying it is copying all of it. */
  lemma FileCopied(src: Nodes, p: string, q: string, before: Nodes, after: Nodes, calm: bool)
    requires WellFormed(src) && p in src && src[p].File?
    requires q in after && SameKind(src[p], after[q], calm) && !IsDir(before, q) && AgreeOutside(before, after, {q})
    ensures CopiedAll(src, p, q, before, after, calm)
  {
    forall k ensures CopiedAllAt(src, p, q, before, after, k, calm) {
      if k == q {
        assert k[|q|..] == [] && p + [] == p;
      } else if Within(q, k) && SourceKey(p, q, k) in src {
        var s := SourceKey(p, q, k);
        assert s[|p|] == '/' && s[..|p|] == p;
        AncestorIsDir(src, p, s);
      }
    }
  }

  lemma DirCopied(src: Nodes, p: string, q: string, before: Nodes, after: Nodes, calm: bool)
    requires IsDir(src, p) && IsDir(after, q) && AgreeOutside(before, after, {q}) && (q in before ==> before[q].Dir?)
    ensures Copied(src, p, q, {}, before, after, calm)
  {
    assert q[|q|..] == [] && p + [] == p;
  }
}

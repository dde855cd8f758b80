/**
 Path strings and the file trees they name.  A tree maps canonical paths (no trailing
 slash; "" is the root directory) to nodes.
 */
module Tree {
  import opened Basics
  import opened Text

  // ----- path strings -----

  /** `trim_end_matches('/')` */
  function TrimSlashes(s: string): (t: string)
    ensures |t| <= |s| && t == s[..|t|] && Canonical(t)
    ensures Canonical(s) <==> t == s
    ensures t != s ==> s[|t|] == '/'
  {
    if s != [] && s[|s| - 1] == '/' then TrimSlashes(s[..|s| - 1]) else s
  }

  predicate Canonical(k: string) {
    k == [] || k[|k| - 1] != '/'
  }

  /** `format!("{}/{}", dir.trim_end_matches('/'), name)` */
  function Join(dir: string, name: string): string {
    TrimSlashes(dir) + "/" + name
  }

  predicate IsName(n: string) {
    n != [] && '/' !in n
  }

  /** `k` continues `p` with a slash. */
  predicate Under(p: string, k: string) {
    |p| < |k| && k[|p|] == '/' && k[..|p|] == p
  }

  predicate Within(p: string, k: string) {
    k == p || Under(p, k)
  }

  /** `k` lies strictly below the directory named by `root`. */
  predicate Below(root: string, k: string) {
    Under(TrimSlashes(root), k)
  }

  /** The part of a path before its last slash. */
  function ParentOf(k: string): (p: string)
    requires '/' in k
    ensures Under(p, k) && forall i :: |p| < i < |k| ==> k[i] != '/'
  {
    var m := |k| - 1;
    if k[m] == '/' then k[..m]
    else
      assert k == k[..m] + [k[m]];
      ParentOf(k[..m])
  }

  function NameOf(k: string): string
    requires '/' in k
  {
    k[|ParentOf(k)| + 1..]
  }

  /** Paths are read from the right in one way only. */
  lemma SplitLast(p: string, n: string, k: string)
    requires '/' !in n && k == p + "/" + n
    ensures ParentOf(k) == p && NameOf(k) == n
  {
    assert k[|p|] == '/';
    var q := ParentOf(k);
    assert forall i :: |p| < i < |k| ==> k[i] == n[i - |p| - 1];
    assert |q| == |p|;
  }

  // ----- nodes -----

  datatype Node =
    | Dir
    | File(data: Bytes, mtime: Option<nat>, mode: Option<bv32>)

  type Nodes = map<string, Node>

  predicate IsDir(t: Nodes, k: string) {
    k in t && t[k].Dir?
  }

  /** The directory that is to hold `k` exists; a path without a slash lies in the working directory. */
  predicate HasParent(t: Nodes, k: string) {
    '/' in k ==> IsDir(t, ParentOf(k))
  }

  ghost predicate WellFormed(t: Nodes) {
    forall k :: k in t ==> Canonical(k) && HasParent(t, k)
  }

  /** What a path string resolves to: a trailing slash insists on a directory. */
  function Lookup(t: Nodes, p: string): Option<Node> {
    var k := TrimSlashes(p);
    if k in t && (t[k].Dir? || Canonical(p)) then Some(t[k]) else None
  }

  /** The entry names of a directory. */
  function Children(t: Nodes, dir: string): set<string> {
    set k | k in t && '/' in k && ParentOf(k) == TrimSlashes(dir) :: NameOf(k)
  }

  /** The keys of the directory (or file) `p` and everything below it. */
  function Subtree(t: Nodes, p: string): set<string> {
    set k | k in t && Within(p, k)
  }

  function FilesBelow(t: Nodes, root: string): set<string> {
    set k | k in t && t[k].File? && Below(root, k)
  }

  lemma ChildKey(t: Nodes, dir: string, n: string)
    requires WellFormed(t)
    ensures n in Children(t, dir) <==> IsName(n) && Join(dir, n) in t
  {
    var d := TrimSlashes(dir);
    if n in Children(t, dir) {
      var k :| k in t && '/' in k && ParentOf(k) == d && NameOf(k) == n;
      assert k == Join(dir, n);
      assert n != [] by { assert Canonical(k); }
    }
    if IsName(n) && Join(dir, n) in t {
      SplitLast(d, n, Join(dir, n));
      assert Join(dir, n)[|d|] == '/';
    }
  }

  /** Every proper prefix of a key that ends just before a slash is a directory. */
  lemma {:induction false} AncestorIsDir(t: Nodes, p: string, k: string)
    requires WellFormed(t) && k in t && Under(p, k)
    ensures IsDir(t, p)
    decreases |k|
  {
    var q := ParentOf(k);
    if |p| < |q| {
      assert q[..|p|] == p;
      AncestorIsDir(t, p, q);
    }
  }

  /** A key below a directory is one of its entries, or lies below one of them. */
  lemma BelowSplits(t: Nodes, dir: string, k: string) returns (n: string)
    requires WellFormed(t) && k in t && Below(dir, k)
    ensures n in Children(t, dir) && k in Subtree(t, Join(dir, n))
  {
    hide ParentOf, NameOf, Children, Find;
    var d := TrimSlashes(dir);
    var rest := k[|d| + 1..];
    var cut := Find(rest, '/');
    n := rest[..cut];
    var child := k[..|d| + 1 + cut];
    assert child == Join(dir, n);
    if cut < |rest| {
      assert Under(child, k);
      AncestorIsDir(t, child, k);
    } else {
      assert child == k;
    }
    ChildKey(t, dir, n);
  }

  /** The first component of a key in the subtree of an entry is that entry. */
  lemma ComponentOf(dir: string, n: string, k: string)
    requires IsName(n) && Within(Join(dir, n), k)
    ensures Below(dir, k)
    ensures var rest := k[|TrimSlashes(dir)| + 1..]; Find(rest, '/') == |n| && rest[..|n|] == n
  {
    var d := TrimSlashes(dir);
    var c := Join(dir, n);
    assert |c| == |d| + 1 + |n| && c[|d|] == '/' && c[..|d|] == d && c[|d| + 1..] == n;
    assert k[..|c|] == c;
    assert forall i :: 0 <= i < |c| ==> k[i] == c[i];
    var rest := k[|d| + 1..];
    assert rest[..|n|] == n;
    assert forall i :: 0 <= i < |n| ==> rest[i] == n[i];
    assert forall i :: 0 <= i < |n| ==> n[i] in n;
  }

  lemma SubtreesDisjoint(t: Nodes, dir: string, n: string, m: string, k: string)
    requires IsName(n) && IsName(m)
    requires k in Subtree(t, Join(dir, n)) && k in Subtree(t, Join(dir, m))
    ensures n == m
  {
    ComponentOf(dir, n, k);
    ComponentOf(dir, m, k);
  }

  lemma ChildSubtree(t: Nodes, dir: string, n: string)
    requires WellFormed(t) && n in Children(t, dir)
    ensures IsName(n) && Join(dir, n) in t && Canonical(Join(dir, n))
    ensures Subtree(t, Join(dir, n)) < Subtree(t, TrimSlashes(dir))
    ensures forall k :: k in Subtree(t, Join(dir, n)) ==> Below(dir, k)
  {
    ChildKey(t, dir, n);
    forall k | k in Subtree(t, Join(dir, n)) ensures Below(dir, k) {
      ComponentOf(dir, n, k);
    }
    ComponentOf(dir, n, Join(dir, n));
    AncestorIsDir(t, TrimSlashes(dir), Join(dir, n));
    assert TrimSlashes(dir) in Subtree(t, TrimSlashes(dir));
    assert TrimSlashes(dir) !in Subtree(t, Join(dir, n));
  }
}

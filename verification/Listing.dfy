/**
 The two directory walks of src/sftp.rs: the local one keeps an explicit stack, the
 remote one recurses.  Both are proved to return the same map.
 */
module Listing {
  import opened Basics
  import opened Tree

  datatype FileInfo = FileInfo(size: nat, mtime: nat, mode: Option<bv32>)

  type Files = map<string, FileInfo>

  /** What a listing records of a file.  A server that reports no size is taken to mean 0, as is a missing mtime. */
  function InfoOf(n: Node, reportsSize: bool): FileInfo
    requires n.File?
  {
    FileInfo(if reportsSize then |n.data| else 0, if n.mtime.Some? then n.mtime.value else 0, n.mode)
  }

  /** Every file below `root`, keyed by its full path. */
  function FileMap(t: Nodes, root: string, reportsSize: bool): (m: Files) {
    map k | k in FilesBelow(t, root) :: InfoOf(t[k], reportsSize)
  }

  predicate IsEntry(dir: string, k: string) {
    '/' in k && ParentOf(k) == dir
  }

  /** The files directly in one of `dirs`. */
  function FilesIn(t: Nodes, dirs: set<string>, reportsSize: bool): Files {
    map k | k in t && t[k].File? && '/' in k && ParentOf(k) in dirs :: InfoOf(t[k], reportsSize)
  }

  function SubdirsOf(t: Nodes, dir: string): set<string> {
    set k | k in t && t[k].Dir? && IsEntry(dir, k)
  }

  // ----- the explicit-stack walk -----

  /** The entries of `d` whose names are not in `names` have been sorted into files and directories. */
  ghost predicate Sorted(t: Nodes, d: string, names: set<string>, found: Files, subdirs: seq<string>) {
    && (forall k :: k in found <==> k in t && t[k].File? && IsEntry(d, k) && NameOf(k) !in names)
    && (forall k :: k in found ==> found[k] == InfoOf(t[k], true))
    && Distinct(subdirs)
    && (forall k :: k in subdirs <==> k in t && t[k].Dir? && IsEntry(d, k) && NameOf(k) !in names)
  }

  lemma SortOne(t: Nodes, d: string, names: set<string>, found: Files, subdirs: seq<string>, full: string)
    requires Sorted(t, d, names, found, subdirs)
    requires full in t && IsEntry(d, full) && NameOf(full) in names
    requires forall k :: k in t && IsEntry(d, k) && NameOf(k) == NameOf(full) ==> k == full
    ensures t[full].Dir? ==> Sorted(t, d, names - {NameOf(full)}, found, subdirs + [full])
    ensures t[full].File? ==> Sorted(t, d, names - {NameOf(full)}, found[full := InfoOf(t[full], true)], subdirs)
  {
    assert full !in subdirs;
    forall k ensures k in subdirs + [full] <==> k in subdirs || k == full {}
  }

  lemma SortDone(t: Nodes, d: string, found: Files, subdirs: seq<string>)
    requires Sorted(t, d, {}, found, subdirs)
    ensures found == FilesIn(t, {d}, true) && forall k :: k in subdirs <==> k in SubdirsOf(t, d)
  {
  }

  /** One turn of the outer loop: the files and the subdirectories of one directory. */
  method ReadOneDir(t: Nodes, dir: string) returns (found: Files, subdirs: seq<string>)
    requires WellFormed(t)
    ensures found == FilesIn(t, {TrimSlashes(dir)}, true)
    ensures Distinct(subdirs) && forall k :: k in subdirs <==> k in SubdirsOf(t, TrimSlashes(dir))
  {
    ghost var d := TrimSlashes(dir);
    found := map[];
    subdirs := [];
    var names := Children(t, dir);
    while names != {}
      invariant names <= Children(t, dir)
      invariant Sorted(t, d, names, found, subdirs)
      decreases names
    {
      var name :| name in names;
      EntryNamed(t, dir, name);
      var full := Join(dir, name);
      SortOne(t, d, names, found, subdirs, full);
      if t[full].Dir? {
        subdirs := subdirs + [full];
      } else {
        found := found[full := InfoOf(t[full], true)];
      }
      names := names - {name};
    }
    SortDone(t, d, found, subdirs);
  }

  lemma EntryNamed(t: Nodes, dir: string, name: string)
    requires WellFormed(t) && name in Children(t, dir)
    ensures var full := Join(dir, name);
            full in t && IsEntry(TrimSlashes(dir), full) && NameOf(full) == name &&
            forall k :: k in t && IsEntry(TrimSlashes(dir), k) && NameOf(k) == name ==> k == full
  {
    hide TrimSlashes, Children;
    ChildKey(t, dir, name);
    var d, full := TrimSlashes(dir), Join(dir, name);
    assert full[|d|] == '/';
    SplitLast(d, name, full);
    forall k | k in t && IsEntry(d, k) && NameOf(k) == name ensures k == full {
      assert k == k[..|d|] + [k[|d|]] + k[|d| + 1..];
    }
  }

  /** The stack lists the directories of `pending`, each once. */
  ghost predicate Lists(stack: seq<string>, pending: set<string>) {
    && (forall i :: 0 <= i < |stack| ==> TrimSlashes(stack[i]) in pending)
    && (forall k :: k in pending ==> exists i :: 0 <= i < |stack| && TrimSlashes(stack[i]) == k)
    && (forall i, j :: 0 <= i < j < |stack| ==> TrimSlashes(stack[i]) != TrimSlashes(stack[j]))
  }

  lemma Popped(stack: seq<string>, pending: set<string>)
    requires Lists(stack, pending) && stack != []
    ensures TrimSlashes(stack[|stack| - 1]) in pending
    ensures Lists(stack[..|stack| - 1], pending - {TrimSlashes(stack[|stack| - 1])})
  {
    hide TrimSlashes;
    var rest := stack[..|stack| - 1];
    forall k | k in pending && k != TrimSlashes(stack[|stack| - 1])
      ensures exists i :: 0 <= i < |rest| && TrimSlashes(rest[i]) == k
    {
      var i :| 0 <= i < |stack| && TrimSlashes(stack[i]) == k;
      assert rest[i] == stack[i];
    }
  }

  lemma Pushed(stack: seq<string>, pending: set<string>, more: seq<string>, added: set<string>)
    requires Lists(stack, pending) && Distinct(more) && pending !! added
    requires forall k :: k in more <==> k in added
    requires forall k :: k in added ==> Canonical(k)
    ensures Lists(stack + more, pending + added)
  {
    var all := stack + more;
    forall i | |stack| <= i < |all| ensures TrimSlashes(all[i]) == more[i - |stack|] && all[i] in added {
      assert all[i] == more[i - |stack|];
      assert all[i] in more;
    }
    forall k | k in pending + added ensures exists i :: 0 <= i < |all| && TrimSlashes(all[i]) == k {
      if k in pending {
        var i :| 0 <= i < |stack| && TrimSlashes(stack[i]) == k;
        assert all[i] == stack[i];
      } else {
        assert k in more;
        var i :| 0 <= i < |more| && more[i] == k;
        assert all[|stack| + i] == k;
      }
    }
  }

  /** `popped` are the directories already read, `pending` exactly those found but not yet read. */
  ghost predicate WalkInv(t: Nodes, root: string, files: Files, pending: set<string>, popped: set<string>) {
    && pending !! popped && root in pending + popped
    && (forall k :: k in pending + popped ==> IsDir(t, k) && Found(root, popped, k))
    && (forall k :: IsDir(t, k) && '/' in k && ParentOf(k) in popped ==> k in pending + popped)
    && files == FilesIn(t, popped, true)
  }

  ghost predicate Found(root: string, popped: set<string>, k: string) {
    k == root || (Under(root, k) && '/' in k && ParentOf(k) in popped)
  }

  lemma {:induction false} AllBelowRead(t: Nodes, root: string, popped: set<string>, k: string)
    requires WellFormed(t) && root in popped && k in t && Under(root, k)
    requires forall d :: IsDir(t, d) && '/' in d && ParentOf(d) in popped ==> d in popped
    ensures ParentOf(k) in popped
    decreases |k|
  {
    var p := ParentOf(k);
    if p != root {
      assert |root| < |p|;
      assert p[..|root|] == root;
      AllBelowRead(t, root, popped, p);
    }
  }

  lemma WalkDone(t: Nodes, root: string, files: Files, popped: set<string>)
    requires WellFormed(t) && Canonical(root) && WalkInv(t, root, files, {}, popped)
    ensures files == FileMap(t, root, true)
  {
    forall k | k in t && t[k].File? ensures k in files <==> Below(root, k) {
      if Under(root, k) {
        AllBelowRead(t, root, popped, k);
      } else if '/' in k && ParentOf(k) in popped {
        UnderEntry(root, ParentOf(k), k);
      }
    }
  }

  lemma UnderEntry(root: string, d: string, k: string)
    requires (d == root || Under(root, d)) && IsEntry(d, k)
    ensures Under(root, k)
  {
    assert k[..|d|] == d;
    assert k[..|root|] == d[..|root|];
  }

  lemma FreshSubdirs(t: Nodes, root: string, files: Files, pending: set<string>, popped: set<string>, d: string,
                     k: string)
    requires WalkInv(t, root, files, pending, popped) && d in pending && k in SubdirsOf(t, d)
    ensures k !in pending + popped && Found(root, popped + {d}, k)
  {
    assert Found(root, popped, d);
    UnderEntry(root, d, k);
    assert !Found(root, popped, k);
  }

  lemma WalkStep(t: Nodes, root: string, files: Files, pending: set<string>, popped: set<string>, d: string)
    requires WellFormed(t) && WalkInv(t, root, files, pending, popped) && d in pending
    ensures pending - {d} !! SubdirsOf(t, d)
    ensures WalkInv(t, root, files + FilesIn(t, {d}, true), pending - {d} + SubdirsOf(t, d), popped + {d})
  {
    hide FilesIn;
    var pending', popped' := pending - {d} + SubdirsOf(t, d), popped + {d};
    forall k | k in SubdirsOf(t, d) ensures k !in pending + popped && Found(root, popped', k) {
      FreshSubdirs(t, root, files, pending, popped, d, k);
    }
    forall k | k in pending' + popped' ensures IsDir(t, k) && Found(root, popped', k) {
      assert k in pending + popped ==> Found(root, popped, k);
    }
    FilesInGrow(t, popped, d);
  }

  lemma FilesInGrow(t: Nodes, dirs: set<string>, d: string)
    ensures FilesIn(t, dirs, true) + FilesIn(t, {d}, true) == FilesIn(t, dirs + {d}, true)
  {
  }

  /** `list_local_files`.  `fallible` lets any directory read fail. */
  method ListLocalFiles(t: Nodes, path: string, fallible: bool) returns (r: Option<Files>)
    requires WellFormed(t)
    ensures r.Some? ==> IsDir(t, TrimSlashes(path)) && r.value == FileMap(t, TrimSlashes(path), true)
    ensures !fallible && IsDir(t, TrimSlashes(path)) ==> r.Some?
  {
    if !IsDir(t, TrimSlashes(path)) { return None; }
    ghost var root := TrimSlashes(path);
    var files: Files := map[];
    var stack := [path];
    ghost var pending, popped: set<string> := {root}, {};
    assert stack[0] == path;
    while stack != []
      invariant WalkInv(t, root, files, pending, popped) && Lists(stack, pending)
      decreases t.Keys - popped
    {
      var dir := stack[|stack| - 1];
      ghost var d := TrimSlashes(dir);
      Popped(stack, pending);
      stack := stack[..|stack| - 1];
      var fault: bool := *;
      if fallible && fault { return None; }
      var found, subdirs := ReadOneDir(t, dir);
      WalkStep(t, root, files, pending, popped, d);
      Pushed(stack, pending - {d}, subdirs, SubdirsOf(t, d));
      files, stack := files + found, stack + subdirs;
      pending, popped := pending - {d} + SubdirsOf(t, d), popped + {d};
    }
    assert pending == {};
    WalkDone(t, root, files, popped);
    r := Some(files);
  }

  // ----- the recursive walk -----

  /** `list_remote_files`.  `fallible` lets any directory read or stat fail. */
  method ListRemoteFiles(t: Nodes, path: string, reportsSize: bool, fallible: bool) returns (r: Option<Files>)
    requires WellFormed(t)
    ensures r.Some? ==> IsDir(t, TrimSlashes(path)) && r.value == FileMap(t, TrimSlashes(path), reportsSize)
    ensures !fallible && IsDir(t, TrimSlashes(path)) ==> r.Some?
    decreases Subtree(t, TrimSlashes(path))
  {
    var fault: bool := *;
    if !IsDir(t, TrimSlashes(path)) || (fallible && fault) { return None; }
    var files: Files := map[];
    var names := Children(t, path);
    ghost var done: set<string> := {};
    while names != {}
      invariant names + done == Children(t, path)
      invariant files == EntriesMap(t, path, done, reportsSize)
      decreases names
    {
      var name :| name in names;
      names := names - {name};
      var full := Join(path, name);
      ChildSubtree(t, path, name);
      fault := *;
      if fallible && fault { return None; }
      if t[full].Dir? {
        var sub := ListRemoteFiles(t, full, reportsSize, fallible);
        if sub.None? { return None; }
        files := files + sub.value;
      } else {
        files := files + map[full := InfoOf(t[full], reportsSize)];
      }
      EntriesGrow(t, path, done, name, reportsSize);
      done := done + {name};
    }
    EntriesAll(t, path, reportsSize);
    r := Some(files);
  }

  /** `k` lies in the subtree of one of the entries `names`. */
  ghost predicate InEntries(dir: string, names: set<string>, k: string) {
    exists n :: n in names && Within(Join(dir, n), k)
  }

  ghost function EntriesMap(t: Nodes, dir: string, names: set<string>, reportsSize: bool): Files {
    map k | k in t && t[k].File? && InEntries(dir, names, k) :: InfoOf(t[k], reportsSize)
  }

  /** What one entry adds: the listing of a subdirectory, or the file itself. */
  ghost function EntryMap(t: Nodes, full: string, reportsSize: bool): Files
    requires full in t
  {
    if t[full].Dir? then FileMap(t, full, reportsSize) else map[full := InfoOf(t[full], reportsSize)]
  }

  lemma EntryMapKeys(t: Nodes, full: string, reportsSize: bool, k: string)
    requires WellFormed(t) && full in t
    ensures k in EntryMap(t, full, reportsSize) <==> k in t && Within(full, k) && t[k].File?
    ensures k in EntryMap(t, full, reportsSize) ==> EntryMap(t, full, reportsSize)[k] == InfoOf(t[k], reportsSize)
  {
    if k in t && Within(full, k) && k != full {
      AncestorIsDir(t, full, k);
    }
  }

  lemma InEntriesGrow(dir: string, names: set<string>, name: string, k: string)
    ensures InEntries(dir, names + {name}, k) <==> InEntries(dir, names, k) || Within(Join(dir, name), k)
  {
    if Within(Join(dir, name), k) {
      assert name in names + {name};
    }
  }

  lemma EntriesGrow(t: Nodes, dir: string, names: set<string>, name: string, reportsSize: bool)
    requires WellFormed(t) && name in Children(t, dir)
    ensures Join(dir, name) in t
    ensures EntriesMap(t, dir, names + {name}, reportsSize) ==
              EntriesMap(t, dir, names, reportsSize) + EntryMap(t, Join(dir, name), reportsSize)
  {
    hide EntryMap, Within, InEntries, Join;
    ChildKey(t, dir, name);
    var before, after := EntriesMap(t, dir, names, reportsSize), EntriesMap(t, dir, names + {name}, reportsSize);
    var entry := EntryMap(t, Join(dir, name), reportsSize);
    forall k | k in t ensures k in after <==> k in before + entry {
      EntryMapKeys(t, Join(dir, name), reportsSize, k);
      InEntriesGrow(dir, names, name, k);
    }
    forall k | k in entry ensures k in t && entry[k] == InfoOf(t[k], reportsSize) {
      EntryMapKeys(t, Join(dir, name), reportsSize, k);
    }
  }

  lemma EntriesAll(t: Nodes, dir: string, reportsSize: bool)
    requires WellFormed(t)
    ensures EntriesMap(t, dir, Children(t, dir), reportsSize) == FileMap(t, TrimSlashes(dir), reportsSize)
  {
    forall k | k in t && t[k].File?
      ensures Below(dir, k) <==> InEntries(dir, Children(t, dir), k)
    {
      if Below(dir, k) {
        var n := BelowSplits(t, dir, k);
      }
      forall n | n in Children(t, dir) && Within(Join(dir, n), k) ensures Below(dir, k) {
        ChildSubtree(t, dir, n);
        assert k in Subtree(t, Join(dir, n));
      }
    }
  }
}

/** What any moment of a push or a pull, finished or not, may look like. */
module CopyStates {
  import opened Basics
  import opened Tree
  import opened Session
  import opened Copy
  import opened PushResult
  import opened CopyFits

  datatype Way = Push | Pull

  /** `k` has its old node, is a directory that the copy has made, or has the bytes of its source.  A pull may also make
      the directories above its target `q`. */
  ghost predicate ArrivedAt(way: Way, src: Nodes, p: string, q: string, before: Nodes, now: Nodes, k: string) {
    || SameAt(before, now, k)
    || (k !in before && IsDir(now, k) && (IsDirTarget(src, p, q, k) || (way.Pull? && Under(k, q))))
    || (IsFileTarget(src, p, q, k) && !IsDir(before, k) && HasData(now, k, src[SourceKey(p, q, k)].data))
  }

  ghost predicate Arrived(way: Way, src: Nodes, p: string, q: string, before: Nodes, now: Nodes) {
    forall k :: ArrivedAt(way, src, p, q, before, now, k)
  }

  /** A file that the copy writes; `path` is the target as it was given. */
  predicate IsWritten(src: Nodes, p: string, path: string, w: string) {
    (IsFile(src, p) && w == path) || IsFileTarget(src, p, TrimSlashes(path), w)
  }

  /** The destination of the one write that is under way can be absent in a push.  As long as more is to come its temp
      then has all of the bytes. */
  ghost predicate AbsentAt(way: Way, src: Nodes, p: string, q: string, now: Nodes, w: string, suffix: string,
                           more: bool) {
    && way.Push? && IsFileTarget(src, p, q, w) && w !in now
    && (more ==> HasData(now, TempName(w, suffix), src[SourceKey(p, q, w)].data))
  }

  /** At most one write is under way: its temp may hold anything. */
  ghost predicate CopyingVia(way: Way, src: Nodes, p: string, q: string, before: Nodes, now: Nodes, w: string,
                             suffix: string, more: bool) {
    forall k :: k != TempName(w, suffix) ==>
      ArrivedAt(way, src, p, q, before, now, k) || (k == w && AbsentAt(way, src, p, q, now, w, suffix, more))
  }

  ghost predicate Copying(way: Way, src: Nodes, p: string, path: string, before: Nodes, now: Nodes, more: bool) {
    || Arrived(way, src, p, TrimSlashes(path), before, now)
    || exists w, suffix :: IsWritten(src, p, path, w) && IsSuffix(suffix) &&
                           CopyingVia(way, src, p, TrimSlashes(path), before, now, w, suffix, more)
  }

  ghost predicate AllCopying(way: Way, src: Nodes, p: string, path: string, before: Nodes, states: seq<Nodes>,
                             from: nat) {
    forall i :: from <= i < |states| ==> Copying(way, src, p, path, before, states[i], i + 1 < |states|)
  }

  ghost predicate IsTempName(src: Nodes, p: string, path: string, k: string) {
    exists w, suffix :: IsWritten(src, p, path, w) && IsSuffix(suffix) && k == TempName(w, suffix)
  }

  /** A copy that ended with an error and no failed call: nothing is absent but a file that had the name of a temp. */
  ghost predicate StoppedAt(way: Way, src: Nodes, p: string, path: string, before: Nodes, now: Nodes, k: string) {
    ArrivedAt(way, src, p, TrimSlashes(path), before, now, k) || (k !in now && IsTempName(src, p, path, k))
  }

  ghost predicate Stopped(way: Way, src: Nodes, p: string, path: string, before: Nodes, now: Nodes) {
    forall k :: StoppedAt(way, src, p, path, before, now, k)
  }

  // ----- one file -----

  /** Each state of one write is a state of a copy. */
  lemma WriteCopies(way: Way, src: Nodes, p: string, path: string, before: Nodes, st: Nodes, suffix: string, more: bool)
    requires IsFile(src, p) && IsSuffix(suffix)
    requires WriteWindow(before, st, path, TempName(path, suffix), src[p].data)
    requires more && way.Push? ==> NothingLost(before, st, path, TempName(path, suffix), src[p].data)
    requires way.Pull? ==> SameAt(before, st, path) || HasData(st, path, src[p].data)
    ensures Copying(way, src, p, path, before, st, more)
  {
    hide IsSuffix;
    var q := TrimSlashes(path);
    forall k | k != TempName(path, suffix)
      ensures ArrivedAt(way, src, p, q, before, st, k) ||
              (k == path && AbsentAt(way, src, p, q, st, path, suffix, more))
    {
      if k == path && !SameAt(before, st, k) {
        assert q == path && q[|q|..] == [] && p + [] == p;
      }
    }
    assert CopyingVia(way, src, p, q, before, st, path, suffix, more);
  }

  lemma WritesCopy(src: Nodes, p: string, path: string, before: Nodes, states: seq<Nodes>, from: nat, suffix: string)
    requires IsFile(src, p) && IsSuffix(suffix)
    requires Windows(before, states, from, path, TempName(path, suffix), src[p].data)
    requires forall i :: from <= i < |states| - 1 ==>
                           NothingLost(before, states[i], path, TempName(path, suffix), src[p].data)
    ensures AllCopying(Push, src, p, path, before, states, from)
  {
    hide IsSuffix, WriteWindow, NothingLost, Copying, TempName;
    forall i | from <= i < |states| ensures Copying(Push, src, p, path, before, states[i], i + 1 < |states|) {
      WriteCopies(Push, src, p, path, before, states[i], suffix, i + 1 < |states|);
    }
  }

  lemma LocalWritesCopy(src: Nodes, p: string, path: string, before: Nodes, states: seq<Nodes>, from: nat,
                        suffix: string)
    requires IsFile(src, p) && IsSuffix(suffix)
    requires LocalWindows(before, states, from, path, TempName(path, suffix), src[p].data)
    ensures AllCopying(Pull, src, p, path, before, states, from)
  {
    hide IsSuffix, Copying, TempName, AgreeOutside, Writable;
    forall i | from <= i < |states| ensures Copying(Pull, src, p, path, before, states[i], i + 1 < |states|) {
      assert LocalWindow(before, states[i], path, TempName(path, suffix), src[p].data);
      WriteCopies(Pull, src, p, path, before, states[i], suffix, i + 1 < |states|);
    }
  }

  /** A write that failed without a failed call has changed nothing but its temp's name. */
  lemma FailedWriteStops(way: Way, src: Nodes, p: string, path: string, before: Nodes, st: Nodes, suffix: string)
    requires IsFile(src, p) && IsSuffix(suffix)
    requires AgreeOutside(before, st, {path, TempName(path, suffix)}) && SameAt(before, st, path)
    requires TempName(path, suffix) in st ==> IsDir(before, TempName(path, suffix)) && IsDir(st, TempName(path, suffix))
    ensures Stopped(way, src, p, path, before, st)
  {
    hide IsSuffix, IsFileTarget, IsDirTarget;
    forall k ensures StoppedAt(way, src, p, path, before, st, k) {
      if k == TempName(path, suffix) {
        assert IsWritten(src, p, path, path);
      }
    }
  }

  /** A change of mode at a file that has arrived. */
  lemma ModeCopies(way: Way, src: Nodes, p: string, path: string, before: Nodes, sent: Nodes, st: Nodes)
    requires IsFile(src, p) && Canonical(path) && !IsDir(before, path) && HasData(sent, path, src[p].data)
    requires AgreeOutside(before, sent, {path}) && ModeOnly(sent, st, path)
    ensures Arrived(way, src, p, TrimSlashes(path), before, st)
  {
    assert path[|path|..] == [] && p + [] == p;
    forall k ensures ArrivedAt(way, src, p, path, before, st, k) {
      if k == path {
        assert IsFileTarget(src, p, path, k);
      }
    }
  }

  // ----- one entry after another -----

  lemma ArrivedEntry(way: Way, src: Nodes, dir: string, path: string, n: string, before: Nodes, mid: Nodes, now: Nodes,
                     k: string)
    requires '/' !in n && (IsDir(mid, TrimSlashes(path)) || way.Push?)
    requires ArrivedAt(way, src, TrimSlashes(dir), TrimSlashes(path), before, mid, k)
    requires ArrivedAt(way, src, Join(dir, n), Join(path, n), mid, now, k)
    ensures ArrivedAt(way, src, TrimSlashes(dir), TrimSlashes(path), before, now, k)
  {
    hide TrimSlashes;
    var p, q := TrimSlashes(dir), TrimSlashes(path);
    if Within(q + "/" + n, k) {
      SourceOfEntry(p, q, n, k);
    } else if way.Pull? && Under(k, q + "/" + n) {
      UnderEntryOrSelf(k, q, n);
    }
  }

  lemma UnderEntryOrSelf(k: string, q: string, n: string)
    requires Under(k, q + "/" + n) && '/' !in n
    ensures k == q || Under(k, q)
  {
    var c := q + "/" + n;
    forall i | |q| < i < |c| ensures c[i] != '/' {
      assert c[i] == n[i - |q| - 1] && n[i - |q| - 1] in n;
    }
    assert c[..|q|] == q;
    assert q[..|k|] == c[..|k|];
  }

  lemma WrittenEntry(src: Nodes, dir: string, path: string, n: string, w: string)
    requires IsName(n) && IsWritten(src, Join(dir, n), Join(path, n), w)
    ensures IsFileTarget(src, TrimSlashes(dir), TrimSlashes(path), w)
    ensures IsFileTarget(src, Join(dir, n), Join(path, n), w) ==>
              SourceKey(Join(dir, n), Join(path, n), w) == SourceKey(TrimSlashes(dir), TrimSlashes(path), w)
  {
    JoinTrims(path, n);
    TopSource(Join(dir, n), Join(path, n));
    hide TrimSlashes, SourceKey;
    SourceOfEntry(TrimSlashes(dir), TrimSlashes(path), n, w);
  }

  lemma TopSource(p: string, q: string)
    ensures SourceKey(p, q, q) == p
  {
    assert q[|q|..] == [] && p + [] == p;
  }

  /** What a state is for an entry, it is for the directory, once the entries before it have arrived. */
  lemma EntryCopies(way: Way, src: Nodes, dir: string, path: string, n: string, before: Nodes, mid: Nodes, now: Nodes,
                    more: bool)
    requires IsName(n) && (IsDir(mid, TrimSlashes(path)) || way.Push?)
    requires Arrived(way, src, TrimSlashes(dir), TrimSlashes(path), before, mid)
    requires Copying(way, src, Join(dir, n), Join(path, n), mid, now, more)
    ensures Copying(way, src, TrimSlashes(dir), path, before, now, more)
  {
    hide ArrivedAt, TrimSlashes, IsSuffix, IsFileTarget;
    var p, q, c := TrimSlashes(dir), TrimSlashes(path), Join(path, n);
    JoinTrims(path, n);
    forall k | ArrivedAt(way, src, Join(dir, n), c, mid, now, k) ensures ArrivedAt(way, src, p, q, before, now, k) {
      ArrivedEntry(way, src, dir, path, n, before, mid, now, k);
    }
    if !Arrived(way, src, Join(dir, n), c, mid, now) {
      var w, suffix :| IsWritten(src, Join(dir, n), c, w) && IsSuffix(suffix) &&
                       CopyingVia(way, src, Join(dir, n), c, mid, now, w, suffix, more);
      WrittenEntry(src, dir, path, n, w);
      assert CopyingVia(way, src, p, q, before, now, w, suffix, more);
    }
  }

  lemma JoinTrims(dir: string, n: string)
    requires IsName(n)
    ensures TrimSlashes(Join(dir, n)) == Join(dir, n)
  {
    assert Join(dir, n)[|Join(dir, n)| - 1] == n[|n| - 1] && n[|n| - 1] in n;
  }

  lemma EntryStops(way: Way, src: Nodes, dir: string, path: string, n: string, before: Nodes, mid: Nodes, now: Nodes)
    requires IsName(n) && (IsDir(mid, TrimSlashes(path)) || way.Push?)
    requires Arrived(way, src, TrimSlashes(dir), TrimSlashes(path), before, mid)
    requires Stopped(way, src, Join(dir, n), Join(path, n), mid, now)
    ensures Stopped(way, src, TrimSlashes(dir), path, before, now)
  {
    hide ArrivedAt, TrimSlashes, IsSuffix, IsFileTarget;
    JoinTrims(path, n);
    forall k ensures StoppedAt(way, src, TrimSlashes(dir), path, before, now, k) {
      assert StoppedAt(way, src, Join(dir, n), Join(path, n), mid, now, k);
      if ArrivedAt(way, src, Join(dir, n), Join(path, n), mid, now, k) {
        ArrivedEntry(way, src, dir, path, n, before, mid, now, k);
      } else {
        var w, suffix :|
          IsWritten(src, Join(dir, n), Join(path, n), w) && IsSuffix(suffix) && k == TempName(w, suffix);
        WrittenEntry(src, dir, path, n, w);
      }
    }
  }

  lemma EntriesCopy(way: Way, src: Nodes, dir: string, path: string, n: string, before: Nodes, mid: Nodes,
                    states: seq<Nodes>, from: nat)
    requires IsName(n) && (IsDir(mid, TrimSlashes(path)) || way.Push?)
    requires Arrived(way, src, TrimSlashes(dir), TrimSlashes(path), before, mid)
    requires AllCopying(way, src, Join(dir, n), Join(path, n), mid, states, from)
    ensures AllCopying(way, src, TrimSlashes(dir), path, before, states, from)
  {
    hide Copying, Arrived, TrimSlashes, Join;
    forall i | from <= i < |states|
      ensures Copying(way, src, TrimSlashes(dir), path, before, states[i], i + 1 < |states|)
    {
      EntryCopies(way, src, dir, path, n, before, mid, states[i], i + 1 < |states|);
    }
  }

  lemma ArrivedCopies(way: Way, src: Nodes, p: string, path: string, before: Nodes, now: Nodes, more: bool)
    requires Arrived(way, src, p, TrimSlashes(path), before, now)
    ensures Copying(way, src, p, path, before, now, more) && Stopped(way, src, p, path, before, now)
  {
    hide ArrivedAt, TrimSlashes, IsSuffix, IsFileTarget;
    forall k ensures StoppedAt(way, src, p, path, before, now, k) {
      assert ArrivedAt(way, src, p, TrimSlashes(path), before, now, k);
    }
  }

  lemma CopyingJoin(way: Way, src: Nodes, p: string, path: string, before: Nodes, earlier: seq<Nodes>,
                    later: seq<Nodes>, from: nat)
    requires Extends(earlier, later) && from <= |earlier|
    requires AllCopying(way, src, p, path, before, earlier, from)
    requires AllCopying(way, src, p, path, before, later, |earlier|)
    requires |earlier| > 0 && Arrived(way, src, p, TrimSlashes(path), before, earlier[|earlier| - 1])
    ensures AllCopying(way, src, p, path, before, later, from)
  {
    hide Copying, TrimSlashes, Arrived;
    forall i | from <= i < |later| ensures Copying(way, src, p, path, before, later[i], i + 1 < |later|) {
      if i + 1 == |earlier| {
        ArrivedCopies(way, src, p, path, before, later[i], i + 1 < |later|);
      } else if i < |earlier| {
        assert later[i] == earlier[i];
      }
    }
  }

  /** What has arrived since `mid` has arrived since `before`. */
  lemma SinceEarlier(way: Way, src: Nodes, p: string, path: string, before: Nodes, mid: Nodes, now: Nodes, more: bool)
    requires Arrived(way, src, p, TrimSlashes(path), before, mid)
    ensures Copying(way, src, p, path, mid, now, more) ==> Copying(way, src, p, path, before, now, more)
    ensures Stopped(way, src, p, path, mid, now) ==> Stopped(way, src, p, path, before, now)
  {
    hide TrimSlashes, IsSuffix, IsFileTarget, IsDirTarget, AbsentAt;
    var q := TrimSlashes(path);
    forall k | ArrivedAt(way, src, p, q, mid, now, k) ensures ArrivedAt(way, src, p, q, before, now, k) {
      assert ArrivedAt(way, src, p, q, before, mid, k);
    }
    hide ArrivedAt;
    if Stopped(way, src, p, path, mid, now) {
      forall k ensures StoppedAt(way, src, p, path, before, now, k) {
        assert StoppedAt(way, src, p, path, mid, now, k);
      }
    }
    if Copying(way, src, p, path, mid, now, more) && !Arrived(way, src, p, q, mid, now) {
      var w, suffix :| IsWritten(src, p, path, w) && IsSuffix(suffix) &&
                       CopyingVia(way, src, p, q, mid, now, w, suffix, more);
      assert CopyingVia(way, src, p, q, before, now, w, suffix, more);
    }
  }

  lemma AllSinceEarlier(way: Way, src: Nodes, p: string, path: string, before: Nodes, mid: Nodes, states: seq<Nodes>,
                        from: nat)
    requires Arrived(way, src, p, TrimSlashes(path), before, mid)
    requires AllCopying(way, src, p, path, mid, states, from)
    ensures AllCopying(way, src, p, path, before, states, from)
  {
    hide Copying, Arrived, TrimSlashes, Stopped;
    forall i | from <= i < |states| ensures Copying(way, src, p, path, before, states[i], i + 1 < |states|) {
      SinceEarlier(way, src, p, path, before, mid, states[i], i + 1 < |states|);
    }
  }

  // ----- what has been copied has arrived -----

  lemma TriedArrived(src: Nodes, p: string, q: string, names: set<string>, before: Nodes, now: Nodes, calm: bool)
    requires Tried(src, p, q, names, before, now, calm)
    ensures Arrived(Push, src, p, q, before, now)
  {
    forall k ensures ArrivedAt(Push, src, p, q, before, now, k) {
      assert TriedAt(src, p, q, names, before, now, k, calm);
    }
  }

  /** `base` is the tree with the directories above the target in place. */
  lemma CopiedArrived(src: Nodes, p: string, q: string, names: set<string>, before: Nodes, base: Nodes, now: Nodes,
                      calm: bool)
    requires Copied(src, p, q, names, base, now, calm)
    requires forall k :: SameAt(before, base, k) || (k !in before && IsDir(base, k) && Under(k, q))
    ensures Arrived(Pull, src, p, q, before, now)
  {
    forall k ensures ArrivedAt(Pull, src, p, q, before, now, k) {
      assert CopiedAt(src, p, q, names, base, now, k, calm);
    }
  }
}

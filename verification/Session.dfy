/**
 An SFTP session: the local and the remote file system, and the round trips src/sftp.rs
 makes on them.  Every call may fail, and a failed call may have taken effect.
 */
module Session {
  import opened Basics
  import opened Tree

  predicate SameAt(before: Nodes, now: Nodes, k: string) {
    (k in now <==> k in before) && (k in before ==> now[k] == before[k])
  }

  ghost predicate AgreeOutside(before: Nodes, now: Nodes, ks: set<string>) {
    forall k :: k !in ks ==> (k in now <==> k in before) && (k in before ==> now[k] == before[k])
  }

  predicate HasData(t: Nodes, k: string, data: Bytes) {
    k in t && t[k].File? && t[k].data == data
  }

  /** A new file can be put at `k`. */
  predicate Creatable(t: Nodes, k: string) {
    k != [] && Canonical(k) && HasParent(t, k)
  }

  /** `{path}.tmp.XXXXXX` */
  function TempName(path: string, suffix: string): string {
    path + ".tmp." + suffix
  }

  /** A file can be put at `k`, or replaced there. */
  predicate Writable(t: Nodes, k: string) {
    Creatable(t, k) && !IsDir(t, k)
  }

  /** The tree while `data` is being written to `path`: all else is untouched but the temp, and the
      destination is as before, or it can be written and is absent or complete. */
  ghost predicate WriteWindow(before: Nodes, now: Nodes, path: string, tmp: string, data: Bytes) {
    && AgreeOutside(before, now, {path, tmp})
    && (SameAt(before, now, path) || (Writable(before, path) && (path !in now || HasData(now, path, data))))
  }

  /** What was at `path` is still there, or all of the new bytes are on the server. */
  predicate NothingLost(before: Nodes, now: Nodes, path: string, tmp: string, data: Bytes) {
    SameAt(before, now, path) || HasData(now, path, data) || HasData(now, tmp, data)
  }

  /** Only the mode of the file at `path` may differ. */
  ghost predicate ModeOnly(before: Nodes, now: Nodes, path: string) {
    && AgreeOutside(before, now, {path})
    && (path in now <==> path in before)
    && (path in before ==>
          (now[path] == before[path] ||
           (before[path].File? && now[path].File? && now[path].data == before[path].data &&
               now[path].mtime == before[path].mtime)))
  }

  const TYPE_BITS: bv32 := 0xF000
  const PERM_BITS: bv32 := 0x0FFF

  /** The file type the server has, with the source's permission bits; a missing mode is taken for a regular file. */
  function MergedMode(current: Option<bv32>, source: bv32): bv32 {
    ((if current.Some? then current.value else 0x8000) & TYPE_BITS) | (source & PERM_BITS)
  }

  /** The low twelve bits are the source's, the next four the server's or else 8, and no other bit is set. */
  lemma MergedModeBits(current: Option<bv32>, source: bv32)
    ensures MergedMode(current, source) & 0x0FFF == source & 0x0FFF
    ensures MergedMode(current, source) & 0xF000 == (if current.Some? then current.value & 0xF000 else 0x8000)
    ensures MergedMode(current, source) & 0xFFFF_0000 == 0
  {
  }

  /** The permission bits agree; a source without a mode asks for nothing. */
  predicate ModeMatches(source: Option<bv32>, copy: Option<bv32>) {
    source.Some? ==> copy.Some? && copy.value & 0x0FFF == source.value & 0x0FFF
  }

  lemma MergedMatches(current: Option<bv32>, source: bv32)
    ensures ModeMatches(Some(source), Some(MergedMode(current, source)))
  {
    MergedModeBits(current, source);
  }

  /** `tmp` is neither the destination nor the directory that holds it. */
  ghost predicate TempFor(path: string, tmp: string) {
    tmp != path && ('/' in path ==> ParentOf(path) != tmp)
  }

  lemma TempSibling(t: Nodes, path: string, suffix: string)
    requires '/' !in suffix
    ensures TempFor(path, TempName(path, suffix))
    ensures Creatable(t, path) ==> Creatable(t, TempName(path, suffix))
  {
    var tmp := TempName(path, suffix);
    assert |tmp| > |path|;
    assert tmp[|tmp| - 1] in ".tmp." + suffix;
    if '/' in tmp {
      var i :| 0 <= i < |tmp| && tmp[i] == '/';
      TempSlash(path, suffix, i);
      var p, n := ParentOf(path), NameOf(path);
      assert forall j :: 0 <= j < |n| ==> n[j] == path[|p| + 1 + j];
      assert tmp == p + "/" + (n + ".tmp." + suffix);
      SplitLast(p, n + ".tmp." + suffix, tmp);
    }
  }

  lemma TempSlash(path: string, suffix: string, i: nat)
    requires '/' !in suffix && i < |TempName(path, suffix)| && TempName(path, suffix)[i] == '/'
    ensures i < |path| && path[i] == '/'
  {
    var tail := ".tmp." + suffix;
    assert TempName(path, suffix) == path + tail;
    forall j | 0 <= j < |tail| ensures tail[j] != '/' {
      assert tail[j] in tail;
    }
  }

  /** Writing to the temp and the destination leaves the destination's directory alone. */
  lemma CreatableStable(before: Nodes, now: Nodes, path: string, tmp: string)
    requires TempFor(path, tmp) && AgreeOutside(before, now, {path, tmp})
    ensures Creatable(before, path) <==> Creatable(now, path)
  {
    if '/' in path {
      assert ParentOf(path) !in {path, tmp};
    }
  }

  ghost predicate Extends(earlier: seq<Nodes>, later: seq<Nodes>) {
    |earlier| <= |later| && forall i :: 0 <= i < |earlier| ==> later[i] == earlier[i]
  }

  ghost predicate Windows(before: Nodes, states: seq<Nodes>, from: nat, path: string, tmp: string, data: Bytes) {
    forall i :: from <= i < |states| ==> WriteWindow(before, states[i], path, tmp, data)
  }

  lemma RenameWindow(before: Nodes, now: Nodes, after: Nodes, path: string, tmp: string, data: Bytes)
    requires WriteWindow(before, now, path, tmp, data) && HasData(now, tmp, data) &&
              AgreeOutside(now, after, {tmp, path})
    requires after == now || (path in after && after[path] == now[tmp] && Writable(before, path))
    ensures WriteWindow(before, after, path, tmp, data)
  {
  }

  lemma WithoutFile(t: Nodes, k: string)
    requires WellFormed(t) && !IsDir(t, k)
    ensures WellFormed(t - {k})
  {
    forall q | q in t - {k} ensures HasParent(t - {k}, q) {
      assert HasParent(t, q);
    }
  }

  lemma WithNode(t: Nodes, k: string, n: Node)
    requires WellFormed(t) && Creatable(t, k) && (k in t ==> t[k].Dir? == n.Dir?)
    ensures WellFormed(t[k := n])
  {
    forall q | q in t[k := n] ensures Canonical(q) && HasParent(t[k := n], q) {
      assert HasParent(t, q);
    }
  }

  lemma WithData(t: Nodes, k: string, data: Bytes)
    requires WellFormed(t) && k in t && t[k].File?
    ensures WellFormed(t[k := t[k].(data := data)])
  {
    var t' := t[k := t[k].(data := data)];
    forall q | q in t' ensures Canonical(q) && HasParent(t', q) {
      assert HasParent(t, q);
    }
  }

  /** As `WriteWindow`, but the destination is never absent when it was not before. */
  ghost predicate LocalWindow(before: Nodes, now: Nodes, path: string, tmp: string, data: Bytes) {
    && AgreeOutside(before, now, {path, tmp})
    && (SameAt(before, now, path) || (Writable(before, path) && HasData(now, path, data)))
  }

  ghost predicate LocalWindows(before: Nodes, states: seq<Nodes>, from: nat, path: string, tmp: string, data: Bytes) {
    forall i :: from <= i < |states| ==> LocalWindow(before, states[i], path, tmp, data)
  }

  class Session {
    var local: Nodes
    var remote: Nodes
    /** Whether the server's stat replies carry a size. */
    const reportsSize: bool
    /** Every state the remote tree has been in. */
    ghost var trace: seq<Nodes>
    /** Every state the local tree has been in. */
    ghost var localTrace: seq<Nodes>
    /** The calls that failed for no reason the model knows. */
    ghost var faults: nat

    ghost predicate Valid()
      reads this
    {
      && WellFormed(local) && WellFormed(remote)
      && |trace| > 0 && trace[|trace| - 1] == remote
      && |localTrace| > 0 && localTrace[|localTrace| - 1] == local
    }

    constructor (local: Nodes, remote: Nodes, reportsSize: bool)
      requires WellFormed(local) && WellFormed(remote)
      ensures Valid() && this.local == local && this.remote == remote && this.reportsSize == reportsSize
      ensures trace == [remote] && localTrace == [local] && faults == 0
    {
      this.local, this.remote, this.reportsSize := local, remote, reportsSize;
      trace, localTrace, faults := [remote], [local], 0;
    }

    /** The remote tree becomes `after`, or the call fails, with or without that effect. */
    method RoundTrip(possible: bool, after: Nodes) returns (ok: bool)
      requires Valid() && (possible ==> WellFormed(after))
      modifies this`remote, this`trace, this`faults
      ensures Valid()
      ensures trace == old(trace) + [remote]
      ensures remote == old(remote) || (possible && remote == after)
      ensures ok ==> possible && remote == after
      ensures faults == old(faults) + if possible && !ok then 1 else 0
    {
      var fault, applied: bool := *, *;
      ok := possible && !fault;
      if possible && (!fault || applied) {
        remote := after;
      }
      if possible && fault {
        faults := faults + 1;
      }
      trace := trace + [remote];
    }

    /** A read or stat that fails. */
    method Fail()
      requires Valid()
      modifies this`faults
      ensures Valid() && faults == old(faults) + 1
    {
      faults := faults + 1;
    }

    method Open(p: string) returns (ok: bool)
      requires Valid()
      modifies this`remote, this`trace, this`faults
      ensures Valid() && faults >= old(faults) && trace == old(trace) + [remote]
      ensures AgreeOutside(old(remote), remote, {p})
      ensures p in old(remote) ==> remote == old(remote)
      ensures p in remote && p !in old(remote) ==> HasData(remote, p, [])
      ensures ok ==> p !in old(remote) && Creatable(old(remote), p) && HasData(remote, p, [])
      ensures !ok ==> faults > old(faults) || p in old(remote) || !Creatable(old(remote), p)
    {
      var mode: Option<bv32> := *;
      var mtime: Option<nat> := *;
      var possible := p !in remote && Creatable(remote, p);
      if possible {
        WithNode(remote, p, File([], mtime, mode));
      }
      ok := RoundTrip(possible, remote[p := File([], mtime, mode)]);
    }

    /** `write_all`: the bytes reach the open temp in pieces of any size. */
    method WriteAll(p: string, data: Bytes) returns (ok: bool)
      requires Valid() && HasData(remote, p, [])
      modifies this`remote, this`trace, this`faults
      ensures Valid() && faults >= old(faults)
      ensures Extends(old(trace), trace)
      ensures forall i :: |old(trace)| <= i < |trace| ==> AgreeOutside(old(remote), trace[i], {p})
      ensures AgreeOutside(old(remote), remote, {p}) && p in remote && remote[p].File?
      ensures ok ==> HasData(remote, p, data)
      ensures !ok ==> faults > old(faults)
    {
      var sent := 0;
      ok := true;
      while ok && sent < |data|
        invariant 0 <= sent <= |data| && Valid() && faults >= old(faults)
        invariant Extends(old(trace), trace)
        invariant forall i :: |old(trace)| <= i < |trace| ==> AgreeOutside(old(remote), trace[i], {p})
        invariant AgreeOutside(old(remote), remote, {p}) && p in remote && remote[p].File?
        invariant ok ==> HasData(remote, p, data[..sent])
        invariant !ok ==> faults > old(faults)
        decreases ok, |data| - sent
      {
        var next :| sent < next <= |data|;
        var written := remote[p := remote[p].(data := data[..next])];
        WithData(remote, p, data[..next]);
        ok := RoundTrip(true, written);
        sent := next;
      }
      assert data[..|data|] == data;
    }

    /** The empty path names the root directory, which is no file. */
    method Unlink(p: string) returns (ok: bool)
      requires Valid()
      modifies this`remote, this`trace, this`faults
      ensures Valid() && faults >= old(faults) && trace == old(trace) + [remote]
      ensures AgreeOutside(old(remote), remote, {p})
      ensures SameAt(old(remote), remote, p) || (p !in remote && p in old(remote) && Writable(old(remote), p))
      ensures ok ==> p !in remote
      ensures !ok ==> faults > old(faults) || p !in old(remote) || old(remote)[p].Dir? || p == []
    {
      var possible := p != [] && p in remote && remote[p].File?;
      if possible {
        WithoutFile(remote, p);
      }
      ok := RoundTrip(possible, remote - {p});
    }

    /** A server may replace an existing target or refuse. */
    method Rename(a: string, b: string) returns (ok: bool)
      requires Valid() && a != b
      modifies this`remote, this`trace, this`faults
      ensures Valid() && faults >= old(faults) && trace == old(trace) + [remote]
      ensures AgreeOutside(old(remote), remote, {a, b})
      ensures remote == old(remote) ||
                (a in old(remote) && old(remote)[a].File? && a !in remote && b in remote && remote[b] == old(remote)[a])
      ensures ok ==> remote != old(remote)
      ensures remote != old(remote) ==> Writable(old(remote), b)
      ensures !ok ==>
                || faults > old(faults) || b in old(remote) || !Creatable(old(remote), b)
                || a !in old(remote) || old(remote)[a].Dir?
    {
      var overwrites: bool := *;
      var possible := && a in remote && remote[a].File? && Creatable(remote, b) && !IsDir(remote, b)
                      && (b in remote ==> overwrites);
      if possible {
        WithNode(remote, b, remote[a]);
        WithoutFile(remote[b := remote[a]], a);
      }
      ok := RoundTrip(possible, if possible then remote[b := remote[a]] - {a} else remote);
    }

    /** Unlink the destination, then rename the finished temp over it. */
    method SwapIn(path: string, tmp: string, ghost before: Nodes, ghost data: Bytes) returns (ok: bool)
      requires Valid() && TempFor(path, tmp) && AgreeOutside(before, remote, {tmp}) && HasData(remote, tmp, data)
      modifies this`remote, this`trace, this`faults
      ensures Valid() && faults >= old(faults) && Extends(old(trace), trace)
      ensures Windows(before, trace, |old(trace)|, path, tmp, data)
      ensures forall i :: |old(trace)| <= i < |trace| ==> NothingLost(before, trace[i], path, tmp, data)
      ensures ok ==> Writable(before, path) && HasData(remote, path, data) && tmp !in remote
      ensures !ok ==> faults > old(faults) || (!Writable(before, path) && SameAt(before, remote, path))
      ensures !IsDir(remote, tmp)
    {
      var unlinked := Unlink(path);
      ghost var now := remote;
      CreatableStable(before, now, path, tmp);
      assert WriteWindow(before, now, path, tmp, data);
      ok := Rename(tmp, path);
      RenameWindow(before, now, remote, path, tmp, data);
    }

    /** Open the temp exclusively and fill it. */
    method FillTemp(tmp: string, data: Bytes) returns (ok: bool)
      requires Valid()
      modifies this`remote, this`trace, this`faults
      ensures Valid() && faults >= old(faults) && Extends(old(trace), trace)
      ensures forall i :: |old(trace)| <= i < |trace| ==> AgreeOutside(old(remote), trace[i], {tmp})
      ensures AgreeOutside(old(remote), remote, {tmp})
      ensures ok ==> tmp !in old(remote) && HasData(remote, tmp, data)
      ensures !ok ==> faults > old(faults) || tmp in old(remote) || !Creatable(old(remote), tmp)
      ensures IsDir(remote, tmp) ==> IsDir(old(remote), tmp)
      ensures tmp in old(remote) ==> remote == old(remote)
    {
      ok := Open(tmp);
      if ok {
        ok := WriteAll(tmp, data);
      }
    }

    /** The body of the write: open, write, swap in.  What remains on failure is left to the caller. */
    method WriteAndSwap(path: string, tmp: string, data: Bytes) returns (ok: bool)
      requires Valid() && TempFor(path, tmp)
      modifies this`remote, this`trace, this`faults
      ensures Valid() && faults >= old(faults) && Extends(old(trace), trace)
      ensures Windows(old(remote), trace, |old(trace)|, path, tmp, data) &&
                WriteWindow(old(remote), remote, path, tmp, data)
      ensures forall i :: |old(trace)| <= i < |trace| ==> NothingLost(old(remote), trace[i], path, tmp, data)
      ensures ok ==> Writable(old(remote), path) && tmp !in old(remote)
      ensures ok ==> HasData(remote, path, data) && tmp !in remote
      ensures !ok ==> || faults > old(faults) || tmp in old(remote) || !Creatable(old(remote), tmp)
                      || !Writable(old(remote), path)
      ensures !ok && faults == old(faults) ==> SameAt(old(remote), remote, path)
      ensures IsDir(remote, tmp) ==> IsDir(old(remote), tmp)
      ensures tmp in old(remote) ==> remote == old(remote)
    {
      ok := FillTemp(tmp, data);
      assert Windows(old(remote), trace, |old(trace)|, path, tmp, data);
      if !ok { return; }
      ok := SwapIn(path, tmp, old(remote), data);
    }

    /** `atomic_write_remote`, its random suffix a parameter. */
    method AtomicWriteRemote(path: string, data: Bytes, suffix: string) returns (ok: bool)
      requires Valid() && '/' !in suffix
      modifies this`remote, this`trace, this`faults
      ensures Valid() && faults >= old(faults) && Extends(old(trace), trace)
      ensures Windows(old(remote), trace, |old(trace)|, path, TempName(path, suffix), data)
      ensures WriteWindow(old(remote), remote, path, TempName(path, suffix), data)
      ensures forall i :: |old(trace)| <= i < (if ok then |trace| else |trace| - 1) ==>
                NothingLost(old(remote), trace[i], path, TempName(path, suffix), data)
      ensures ok ==> Writable(old(remote), path)
      ensures ok ==> HasData(remote, path, data) && AgreeOutside(old(remote), remote, {path})
      ensures !ok ==> || faults > old(faults) || TempName(path, suffix) in old(remote)
                      || !Writable(old(remote), path)
      ensures !ok && faults == old(faults) ==>
                && SameAt(old(remote), remote, path)
                && (TempName(path, suffix) in remote ==>
                      IsDir(old(remote), TempName(path, suffix)) && IsDir(remote, TempName(path, suffix)))
    {
      var tmp := TempName(path, suffix);
      TempSibling(remote, path, suffix);
      ok := WriteAndSwap(path, tmp, data);
      if !ok {
        var cleaned := Unlink(tmp);
      }
    }

    /** `create_dir`, whose result every caller ignores. */
    method Mkdir(p: string)
      requires Valid()
      modifies this`remote, this`trace, this`faults
      ensures Valid() && faults >= old(faults) && trace == old(trace) + [remote]
      ensures remote == old(remote) || (TrimSlashes(p) !in old(remote) && remote == old(remote)[TrimSlashes(p) := Dir])
      ensures remote != old(remote) ==> Creatable(old(remote), TrimSlashes(p))
      ensures IsDir(remote, TrimSlashes(p)) || faults > old(faults)
              || TrimSlashes(p) in old(remote) || !HasParent(old(remote), TrimSlashes(p)) || TrimSlashes(p) == []
    {
      var k := TrimSlashes(p);
      var possible := k !in remote && Creatable(remote, k);
      if possible {
        WithNode(remote, k, Dir);
      }
      var ok := RoundTrip(possible, remote[k := Dir]);
    }

    /** `set_remote_mode`: stat the file, then set its mode; callers only warn when it fails. */
    method SetRemoteMode(path: string, mode: bv32) returns (ok: bool)
      requires Valid()
      modifies this`remote, this`trace, this`faults
      ensures Valid() && faults >= old(faults) && Extends(old(trace), trace)
      ensures forall i :: |old(trace)| <= i < |trace| ==> ModeOnly(old(remote), trace[i], path)
      ensures ModeOnly(old(remote), remote, path)
      ensures ok ==> path in remote && path in old(remote)
      ensures ok && old(remote)[path].File? ==>
                remote[path] == old(remote)[path].(mode := Some(MergedMode(old(remote)[path].mode, mode)))
      ensures !ok ==> faults > old(faults) || path !in old(remote)
    {
      var statFails: bool := *;
      if path !in remote {
        return false;
      }
      if statFails {
        faults := faults + 1;
        return false;
      }
      var node := remote[path];
      var after := if node.File? then remote[path := node.(mode := Some(MergedMode(node.mode, mode)))] else remote;
      assert WellFormed(after) by {
        forall q | q in after ensures Canonical(q) && HasParent(after, q) { assert HasParent(remote, q); }
      }
      ok := RoundTrip(true, after);
    }

    /** A local call takes effect, fails, or fails after taking effect. */
    method LocalStep(possible: bool, after: Nodes) returns (ok: bool)
      requires Valid() && (possible ==> WellFormed(after))
      modifies this`local, this`localTrace, this`faults
      ensures Valid() && localTrace == old(localTrace) + [local]
      ensures local == old(local) || (possible && local == after)
      ensures ok ==> possible && local == after
      ensures faults == old(faults) + if possible && !ok then 1 else 0
    {
      var fault, applied: bool := *, *;
      ok := possible && !fault;
      if possible && (!fault || applied) {
        local := after;
      }
      if possible && fault {
        faults := faults + 1;
      }
      localTrace := localTrace + [local];
    }

    /** `atomic_write_local`: as the remote write, but the temp is renamed over the destination with no unlink. */
    method AtomicWriteLocal(path: string, data: Bytes, suffix: string) returns (ok: bool)
      requires Valid() && '/' !in suffix
      modifies this`local, this`localTrace, this`faults
      ensures Valid() && faults >= old(faults) && Extends(old(localTrace), localTrace)
      ensures LocalWindows(old(local), localTrace, |old(localTrace)|, path, TempName(path, suffix), data)
      ensures LocalWindow(old(local), local, path, TempName(path, suffix), data)
      ensures ok ==> Writable(old(local), path)
      ensures ok ==> HasData(local, path, data) && AgreeOutside(old(local), local, {path})
      ensures !ok ==> || faults > old(faults) || TempName(path, suffix) in old(local)
                      || !Writable(old(local), path)
      ensures !ok && faults == old(faults) ==>
                && SameAt(old(local), local, path)
                && (TempName(path, suffix) in local ==>
                      IsDir(old(local), TempName(path, suffix)) && IsDir(local, TempName(path, suffix)))
    {
      var tmp := TempName(path, suffix);
      TempSibling(local, path, suffix);
      ok := FillAndRename(path, tmp, data);
      if !ok {
        var cleaned := LocalUnlink(tmp);
      }
    }

    /** The body of the local write. */
    method FillAndRename(path: string, tmp: string, data: Bytes) returns (ok: bool)
      requires Valid() && TempFor(path, tmp)
      modifies this`local, this`localTrace, this`faults
      ensures Valid() && faults >= old(faults) && Extends(old(localTrace), localTrace)
      ensures LocalWindows(old(local), localTrace, |old(localTrace)|, path, tmp, data)
      ensures LocalWindow(old(local), local, path, tmp, data)
      ensures ok ==> Writable(old(local), path) && tmp !in old(local)
      ensures ok ==> HasData(local, path, data) && tmp !in local
      ensures !ok ==> || faults > old(faults) || tmp in old(local) || !Creatable(old(local), tmp)
                      || !Writable(old(local), path)
      ensures !ok && faults == old(faults) ==> SameAt(old(local), local, path)
      ensures IsDir(local, tmp) ==> IsDir(old(local), tmp)
      ensures tmp in old(local) ==> local == old(local)
    {
      hide Creatable, WellFormed;
      ok := FillLocalTemp(tmp, data);
      assert LocalWindows(old(local), localTrace, |old(localTrace)|, path, tmp, data);
      if !ok { return; }
      CreatableStable(old(local), local, path, tmp);
      ok := LocalRename(tmp, path);
    }

    method LocalUnlink(p: string) returns (ok: bool)
      requires Valid()
      modifies this`local, this`localTrace, this`faults
      ensures Valid() && faults >= old(faults) && localTrace == old(localTrace) + [local]
      ensures AgreeOutside(old(local), local, {p})
      ensures p in local ==> faults > old(faults) || IsDir(old(local), p)
      ensures IsDir(old(local), p) ==> local == old(local)
    {
      var possible := p in local && local[p].File?;
      if possible {
        WithoutFile(local, p);
      }
      ok := LocalStep(possible, local - {p});
    }

    /** Create the temp, write to it in pieces of any size, and sync it. */
    method FillLocalTemp(tmp: string, data: Bytes) returns (ok: bool)
      requires Valid()
      modifies this`local, this`localTrace, this`faults
      ensures Valid() && faults >= old(faults) && Extends(old(localTrace), localTrace)
      ensures forall i :: |old(localTrace)| <= i < |localTrace| ==> AgreeOutside(old(local), localTrace[i], {tmp})
      ensures AgreeOutside(old(local), local, {tmp})
      ensures ok ==> tmp !in old(local) && HasData(local, tmp, data)
      ensures !ok ==> faults > old(faults) || tmp in old(local) || !Creatable(old(local), tmp)
      ensures IsDir(local, tmp) ==> IsDir(old(local), tmp)
      ensures tmp in old(local) ==> local == old(local)
    {
      var mode: Option<bv32> := *;
      var mtime: Option<nat> := *;
      var possible := tmp !in local && Creatable(local, tmp);
      if possible {
        WithNode(local, tmp, File([], mtime, mode));
      }
      ok := LocalStep(possible, local[tmp := File([], mtime, mode)]);
      if ok {
        ok := WriteLocal(tmp, data);
      }
      if ok {
        ok := LocalStep(true, local);
      }
    }

    method WriteLocal(p: string, data: Bytes) returns (ok: bool)
      requires Valid() && HasData(local, p, [])
      modifies this`local, this`localTrace, this`faults
      ensures Valid() && faults >= old(faults) && Extends(old(localTrace), localTrace)
      ensures forall i :: |old(localTrace)| <= i < |localTrace| ==> AgreeOutside(old(local), localTrace[i], {p})
      ensures AgreeOutside(old(local), local, {p}) && p in local && local[p].File?
      ensures ok ==> HasData(local, p, data)
      ensures !ok ==> faults > old(faults)
    {
      var sent := 0;
      ok := true;
      while ok && sent < |data|
        invariant 0 <= sent <= |data| && Valid() && faults >= old(faults)
        invariant Extends(old(localTrace), localTrace)
        invariant forall i :: |old(localTrace)| <= i < |localTrace| ==> AgreeOutside(old(local), localTrace[i], {p})
        invariant AgreeOutside(old(local), local, {p}) && p in local && local[p].File?
        invariant ok ==> HasData(local, p, data[..sent])
        invariant !ok ==> faults > old(faults)
        decreases ok, |data| - sent
      {
        var next :| sent < next <= |data|;
        var written := local[p := local[p].(data := data[..next])];
        WithData(local, p, data[..next]);
        ok := LocalStep(true, written);
        sent := next;
      }
      assert data[..|data|] == data;
    }

    method LocalRename(a: string, b: string) returns (ok: bool)
      requires Valid() && TempFor(b, a) && a in local && local[a].File?
      modifies this`local, this`localTrace, this`faults
      ensures Valid() && faults >= old(faults) && localTrace == old(localTrace) + [local]
      ensures local == old(local) || (Writable(old(local), b) && local == old(local)[b := old(local)[a]] - {a})
      ensures ok ==> Writable(old(local), b) && local == old(local)[b := old(local)[a]] - {a}
      ensures !ok ==> faults > old(faults) || (!Writable(old(local), b) && local == old(local))
    {
      var possible := Creatable(local, b) && !IsDir(local, b);
      if possible {
        WithNode(local, b, local[a]);
        WithoutFile(local[b := local[a]], a);
      }
      ok := LocalStep(possible, local[b := local[a]] - {a});
    }
  }

  predicate IsAlphanumeric(c: char) {
    'a' <= c <= 'z' || 'A' <= c <= 'Z' || '0' <= c <= '9'
  }

  /** The 62 characters a temp suffix is drawn from. */
  function AlphabetAt(i: nat): (c: char)
    requires i < 62
    ensures IsAlphanumeric(c)
  {
    if i < 26 then 'a' + i as char else if i < 52 then 'A' + (i - 26) as char else '0' + (i - 52) as char
  }

  /** What a temp suffix looks like: six letters or digits. */
  predicate IsSuffix(s: string) {
    |s| == 6 && forall i :: 0 <= i < |s| ==> IsAlphanumeric(s[i])
  }

  /** Characters drawn from the hash, ten bits of it for each. */
  function SuffixOf(hash: nat, n: nat): (s: string)
    ensures |s| == n && forall i :: 0 <= i < n ==> IsAlphanumeric(s[i])
  {
    if n == 0 then [] else [AlphabetAt(hash % 62)] + SuffixOf(hash / 1024, n - 1)
  }

  /** `random_tmp_suffix`, its hash an arbitrary number. */
  method RandomTmpSuffix() returns (s: string)
    ensures IsSuffix(s) && '/' !in s
    ensures exists hash: nat :: hash < 0x1_0000_0000_0000_0000 && s == SuffixOf(hash, 6)
  {
    var hash: nat :| hash < 0x1_0000_0000_0000_0000;
    ghost var all := SuffixOf(hash, 6);
    s := [];
    for i := 0 to 6
      invariant |s| == i && all == s + SuffixOf(hash, 6 - i)
    {
      ghost var rest := SuffixOf(hash / 1024, 5 - i);
      assert s + ([AlphabetAt(hash % 62)] + rest) == s + [AlphabetAt(hash % 62)] + rest;
      s := s + [AlphabetAt(hash % 62)];
      hash := hash / 1024;
    }
    assert s == all;
  }

  function AlphabetIndex(c: char): (i: nat)
    requires IsAlphanumeric(c)
    ensures i < 62 && AlphabetAt(i) == c
  {
    if 'a' <= c then c as int - 'a' as int
    else if 'A' <= c then 26 + (c as int - 'A' as int)
    else 52 + (c as int - '0' as int)
  }

  function Pow1024(n: nat): nat {
    if n == 0 then 1 else 1024 * Pow1024(n - 1)
  }

  lemma {:induction false} HashFor(s: string) returns (hash: nat)
    requires forall i :: 0 <= i < |s| ==> IsAlphanumeric(s[i])
    ensures hash < Pow1024(|s|) && SuffixOf(hash, |s|) == s
    decreases |s|
  {
    hide IsAlphanumeric, AlphabetAt, AlphabetIndex;
    if s == [] {
      hash := 0;
    } else {
      var more := HashFor(s[1..]);
      hash := DrawOne(more, AlphabetIndex(s[0]));
      assert s == [s[0]] + s[1..];
    }
  }

  /** Ten low bits can be chosen to give any character, whatever the others are. */
  lemma DrawOne(more: nat, i: nat) returns (hash: nat)
    requires i < 62
    ensures hash / 1024 == more && hash % 62 == i && hash < 1024 * (more + 1)
  {
    var d := i - 1024 * more;
    var q, low := d / 62, d % 62;
    assert d == 62 * q + low;
    hash := 1024 * more + low;
    Divided(more, low, 1024);
    Divided(-q, i, 62);
    assert hash == 62 * -q + i;
  }

  lemma Divided(q: int, r: nat, m: nat)
    requires r < m && (m == 62 || m == 1024)
    ensures (m * q + r) / m == q && (m * q + r) % m == r
  {
  }

  /** The suffixes that can be drawn are just those of six letters or digits. */
  lemma SuffixIff(s: string)
    ensures IsSuffix(s) <==> exists hash: nat :: hash < 0x1_0000_0000_0000_0000 && s == SuffixOf(hash, 6)
  {
    if IsSuffix(s) {
      var hash := HashFor(s);
      assert Pow1024(2) == 0x10_0000 && Pow1024(4) == 0x100_0000_0000;
      assert Pow1024(6) == 0x1000_0000_0000_0000;
    }
  }
}

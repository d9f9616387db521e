/** The FAT32 driver. */
module Fat32 {
  import opened Bytes
  import opened ShortName
  import opened FatVolume
  import opened FatSteps
  import opened FatLink
  import opened FatFile
  import opened FatTree
  import opened FatImage
  import opened FatScan
  import opened FatDevice
  import opened FatInsert
  import opened FatMove
  import opened FatWalk
  import opened FatWrite
  import opened FatDriver

  // ---- Paths ----

  /** The component loop of ReadFile and WriteFile. It descends through whatever a name finds, so the
      callers' paths must not pass through a file. */
  method WalkToParent(fs: Fat, path: CString) returns (ok: bool, dirCl: nat, finalName: CString)
    requires fs.Valid() && fs.vol.g.wide && NoDots(Components(path))
    requires ThroughDirs(fs.Names(), fs.root, Components(path))
    ensures ok <==> ParentDir(fs.Names(), fs.root, Components(path)).Some?
    ensures ok ==> ParentDir(fs.Names(), fs.root, Components(path)) == Some(dirCl)
    ensures ok ==> Components(path) != [] && finalName == FinalName(Components(path))
    ensures ok ==> dirCl in fs.lay.names && dirCl >= 2
  {
    hide Wf, FoundAs, View, GeometryOk, Mirrored, Sealed, Tree, Rooted, Walk, Components, Run, Rest, NoFiles;
    ghost var t := fs.Names();
    ghost var cs := Components(path);
    var p: CString := path;
    dirCl, ok, finalName := fs.root, false, [];
    WalkStart(t, fs.root, cs);
    while p != []
      invariant dirCl in fs.lay.names && dirCl >= 2
      invariant !ok && NoDots(Components(p)) && Onward(t, fs.root, cs, dirCl, Components(p))
      invariant ThroughDirs(t, dirCl, Components(p))
      decreases |p|
    {
      var comp, rest := NextComponent(p);
      if comp == [] {
        assert Components(p) == Components(rest);
        p := rest;
        continue;
      }
      var isLast := OnlySlashes(rest);
      OnwardHead(t, fs.root, cs, dirCl, comp, Components(rest));
      if isLast {
        return true, dirCl, comp;
      }
      var found, childCl, childSz, isDir := fs.FindShortNameInDirCluster(dirCl, comp);
      LookedUp(fs.vol.V(), fs.lay, Key(dirCl, comp), found, childCl, childSz, isDir);
      OnwardNext(t, fs.root, cs, dirCl, comp, Components(rest));
      if !found {
        return;
      }
      ThroughNext(t, dirCl, comp, Components(rest));
      dirCl := childCl;
      p := rest;
    }
    OnwardEnd(t, fs.root, cs, dirCl);
  }

  /** No proper prefix of the path names a file. */
  ghost predicate ThroughDirs(t: Namespace, d: nat, cs: seq<seq<byte>>) {
    cs != [] ==> NoFiles(t, d, cs[..|cs| - 1])
  }

  lemma ThroughNext(t: Namespace, d: nat, comp: seq<byte>, rest: seq<seq<byte>>)
    requires rest != [] && ThroughDirs(t, d, [comp] + rest) && Key(d, comp) in t
    ensures t[Key(d, comp)].Dir? && ThroughDirs(t, t[Key(d, comp)].head, rest)
  {
    var cs := [comp] + rest;
    var init := cs[..|cs| - 1];
    assert init[0] == comp && init[1..] == rest[..|rest| - 1];
  }

  /** Resolves a whole path to a directory. */
  method WalkToDir(fs: Fat, path: CString) returns (ok: bool, dirCl: nat)
    requires fs.Valid() && fs.vol.g.wide && NoDots(MkdirComponents(path))
    requires NoFiles(fs.Names(), fs.root, MkdirComponents(path))
    ensures ok <==> Walk(fs.Names(), fs.root, MkdirComponents(path)).Some?
    ensures ok ==>
          Walk(fs.Names(), fs.root, MkdirComponents(path)) == Some(dirCl) && dirCl in fs.lay.names
          && dirCl >= 2
  {
    hide Wf, FoundAs, View, GeometryOk, Mirrored, Sealed, Tree, Rooted, Walk, Components, Run, Rest, NoFiles;
    ghost var t := fs.Names();
    ghost var cs := MkdirComponents(path);
    var p: CString := if path != [] && path[0] == SLASH then path[1..] else path;
    dirCl := fs.root;
    while p != []
      invariant dirCl in fs.lay.names && dirCl >= 2 && NoDots(Components(p))
      invariant Walk(t, dirCl, Components(p)) == Walk(t, fs.root, cs) && NoFiles(t, dirCl, Components(p))
      decreases |p|
    {
      var comp, rest := NextComponent(p);
      if comp == [] {
        assert Components(p) == Components(rest);
        p := rest;
        continue;
      }
      WalkHead(t, dirCl, comp, Components(rest));
      var found, childCl, childSz, isDir := fs.FindShortNameInDirCluster(dirCl, comp);
      LookedUp(fs.vol.V(), fs.lay, Key(dirCl, comp), found, childCl, childSz, isDir);
      if !found {
        return false, 0;
      }
      dirCl := childCl;
      p := rest;
    }
    WalkEnd(t, dirCl);
    ok := true;
  }

  lemma WalkHead(t: Namespace, d: nat, comp: seq<byte>, rest: seq<seq<byte>>)
    requires NoFiles(t, d, [comp] + rest)
    ensures if Key(d, comp) in t
            then t[Key(d, comp)].Dir? && NoFiles(t, t[Key(d, comp)].head, rest)
                 && Walk(t, d, [comp] + rest) == Walk(t, t[Key(d, comp)].head, rest)
            else Walk(t, d, [comp] + rest) == None
    ensures NoDots([comp] + rest) ==> !IsDot(comp) && NoDots(rest)
  {
    assert ([comp] + rest)[0] == comp && ([comp] + rest)[1..] == rest;
    assert forall i | 0 <= i < |rest| :: rest[i] == ([comp] + rest)[i + 1];
  }

  lemma WalkEnd(t: Namespace, d: nat)
    ensures Walk(t, d, Components([])) == Some(d)
  {
  }

  // ---- Reading ----

  method ReadFile(fs: Fat, path: CString, maxLen: nat) returns (r: Option<seq<byte>>)
    requires fs.Valid() && fs.vol.g.wide && NoDots(PathComponents(path))
    requires ThroughDirs(fs.Names(), fs.root, PathComponents(path)) && maxLen + ClusterSize(fs.vol.g) < U32_LIMIT
    ensures !NamesDir(fs.Names(), fs.root, PathComponents(path)) ==>
              r == if fs.mounted then ReadPath(fs.Names(), fs.root, PathComponents(path), maxLen) else None
    ensures NamesDir(fs.Names(), fs.root, PathComponents(path)) ==> (r.Some? <==> fs.mounted)
  {
    hide Wf, FoundAs, View, GeometryOk, Mirrored, Sealed, Tree, Rooted, Walk, Components, ClusterSize, NoFiles;
    if !fs.mounted || path == [] || path[0] != SLASH {
      return None;
    }
    var ok, dirCl, comp := WalkToParent(fs, path[1..]);
    if !ok {
      return None;
    }
    FinalNotDot(Components(path[1..]));
    var found, startCl, fileSz, isDir := fs.FindShortNameInDirCluster(dirCl, comp);
    LookedUp(fs.vol.V(), fs.lay, Key(dirCl, comp), found, startCl, fileSz, isDir);
    if !found {
      return None;
    }
    if isDir { DirHasChain(fs.vol.V(), fs.lay, startCl); }
    var out := fs.ReadChain(startCl, fileSz, maxLen);
    return Some(out);
  }

  /** The path names a directory, which ReadFile does not tell from a file. */
  ghost predicate NamesDir(t: Namespace, root: nat, cs: seq<seq<byte>>) {
    ReadKey(t, root, cs).Some? && ReadKey(t, root, cs).value in t && t[ReadKey(t, root, cs).value].Dir?
  }

  // ---- Writing ----

  /** What an append of `data` makes of a file `a` that ends in its last cluster: the old contents and then `data`
      exactly when `a` did not end on a cluster boundary. If it did, `data` went over its last cluster, or, if it
      was empty and so had no start cluster, nowhere that a reader looks. */
  ghost predicate Joined(a: Node, b: Node, data: seq<byte>, n: nat)
    requires n > 0 && a.File? && b.File?
  {
    && (Contents(b) == Contents(a) + data <==> a.size % n != 0)
    && (a.size % n != 0 ==> Tight(b, n))
    && (a.size % n == 0 && a.store == [] ==> Contents(b) == [])
    && (a.size % n == 0 && a.store != [] ==> |a.store| >= n && a.store[..|a.store| - n] + data <= Contents(b))
  }

  /** Why a write fails: nothing to write, no such target, an entry without the archive bit, or no space left. */
  ghost predicate Refused(mounted: bool, data: seq<byte>, v0: Vol, lay0: Layout, target: Option<Key>, v: Vol) {
    || !mounted || data == [] || target == None
    || (EntryOk(v0, lay0, target.value) && !ArchiveBit(EntrySlot(v0, lay0, target.value)[11]))
    || NoneFree(v)
  }

  method WriteFile(fs: Fat, path: CString, data: seq<byte>) returns (r: Option<nat>)
    requires fs.Valid() && fs.vol.g.wide && NoDots(PathComponents(path)) && |data| < U32_LIMIT
             && ClusterSize(fs.vol.g) > 0
    requires ThroughDirs(fs.Names(), fs.root, PathComponents(path))
    modifies fs`lay, fs.vol.disk
    ensures fs.Valid() && fs.lay.names.Keys == old(fs.lay.names.Keys)
    ensures r.Some? ==>
          fs.mounted && r.value == |data|
          && WriteKey(old(fs.Names()), fs.root, PathComponents(path)).Some?
    ensures r.Some? ==> Stored(true, old(fs.Names()), fs.Names(),
                               WriteKey(old(fs.Names()), fs.root, PathComponents(path)).value, data,
                                   ClusterSize(fs.vol.g))
    ensures r.Some? && Startless(old(fs.Names()), WriteKey(old(fs.Names()), fs.root, PathComponents(path)).value) ==>
              2 <= fs.vol.V().fat[0] < Eoc(fs.vol.g)
    ensures r.None? ==> Unseen(true, old(fs.Names()), fs.Names(),
                               WriteKey(old(fs.Names()), fs.root, PathComponents(path)),
                               ClusterSize(fs.vol.g))
    ensures r.None? ==> Refused(fs.mounted, data, old(fs.vol.V()), old(fs.lay),
                                WriteKey(old(fs.Names()), fs.root, PathComponents(path)), fs.vol.V())
  {
    hide Wf, View, GeometryOk, Mirrored, Sealed, Tree, Rooted, Walk, Components, Entries, ChainBytes, StartOf, SizeOf,
         ClusterSize, NoFiles;
    hide Stored, Unseen, Refused, Startless, Hidden, Holds, Growing, Appended, Naming, HeadNode, NoneFree, Taken,
         IsSlot, Regular, Dotted, Pack, Accepted, ArchiveBit, DirBit, RefOk;
    ghost var t0, v0, lay0 := fs.Names(), fs.vol.V(), fs.lay;
    ghost var target := WriteKey(t0, fs.root, PathComponents(path));
    ghost var n := ClusterSize(fs.vol.g);
    SameUnseen(true, t0, target, n);
    if !fs.mounted || |data| == 0 || path == [] || path[0] != SLASH {
      RefusedEarly(fs.mounted, data, v0, lay0, target, fs.vol.V());
      return None;
    }
    var ok, dirCl, finalName := WalkToParent(fs, path[1..]);
    if !ok {
      RefusedEarly(fs.mounted, data, v0, lay0, target, fs.vol.V());
      return None;
    }
    var short11, ok83 := PackShortName11(finalName);
    if !ok83 {
      RefusedEarly(fs.mounted, data, v0, lay0, target, fs.vol.V());
      return None;
    }
    PackRegular(finalName);
    RegularNotDot(short11);
    ghost var k := Key(dirCl, Dotted(short11));
    assert target == Some(k);
    var exists_, entryCl, entryOff, startCl, fileSz,
        attr := fs.FindShortEntryInDir(dirCl, short11, v0, Dotted(short11));
    if !exists_ {
      NotStartless(v0, lay0, k);
      var done := CreateEntry(fs, dirCl, short11, data);
      return if done then Some(|data|) else None;
    }
    if !ArchiveBit(attr) {
      RefusedKind(fs.mounted, data, v0, lay0, k, startCl, fileSz, attr, fs.vol.V());
      return None;
    }
    ArchiveIsFile(v0, lay0, k, startCl, fileSz, attr);
    var done := AppendEntry(fs, k, entryCl, entryOff, startCl, fileSz, attr, data);
    return if done then Some(|data|) else None;
  }

  /** The branch of WriteFile for a name the directory does not hold yet. */
  method CreateEntry(fs: Fat, dirCl: nat, short11: seq<byte>, data: seq<byte>) returns (ok: bool)
    requires fs.Valid() && fs.vol.g.wide && |data| > 0 && |data| < U32_LIMIT && ClusterSize(fs.vol.g) > 0
    requires dirCl in fs.lay.names && dirCl >= 2
    requires Regular(short11) && short11[0] != 0xE5 && !Entry(fs.lay, Key(dirCl, Dotted(short11)))
    modifies fs`lay, fs.vol.disk
    ensures fs.Valid() && fs.lay.names.Keys == old(fs.lay.names.Keys)
    ensures ok ==> Stored(true, old(fs.Names()), fs.Names(), Key(dirCl, Dotted(short11)), data, ClusterSize(fs.vol.g))
    ensures !ok ==> fs.Names() == old(fs.Names()) && NoneFree(fs.vol.V())
    ensures !ok ==> Unseen(true, old(fs.Names()), fs.Names(), Some(Key(dirCl, Dotted(short11))), ClusterSize(fs.vol.g))
    ensures !ok ==> Refused(fs.mounted, data, old(fs.vol.V()), old(fs.lay), Some(Key(dirCl, Dotted(short11))),
                            fs.vol.V())
  {
    hide Wf, View, GeometryOk, Mirrored, Sealed, Tree, Rooted, Entries, ChainBytes, ClusterSize;
    hide Stored, Unseen, Refused, Hidden, Holds, Naming, HeadNode, NoneFree, Regular, Dotted;
    ghost var t0, v0, lay0 := fs.Names(), fs.vol.V(), fs.lay;
    ghost var n := ClusterSize(fs.vol.g);
    NameLength(short11);
    ghost var k := Key(dirCl, Dotted(short11));
    SameUnseen(true, t0, Some(k), n);
    NotYetInTree(v0, lay0, k);
    var newCl := fs.CreateChain(data);
    if newCl < 2 {
      RefusedFull(fs.mounted, data, v0, lay0, Some(k), fs.vol.V());
      return false;
    }
    ghost var v1, lay1 := fs.vol.V(), fs.lay;
    HiddenNaming(v1, lay1, newCl, dirCl, short11);
    HiddenWhole(v1, lay1, newCl, n);
    ok := fs.AddEntryToDir(dirCl, short11, 0x20, newCl, |data|);
    if ok {
      StoredNew(true, t0, fs.Names(), k, ChainBytes(v1, lay1, newCl), data, n, |lay1.chains[newCl]|);
    } else {
      RefusedFull(fs.mounted, data, v0, lay0, Some(k), fs.vol.V());
    }
  }

  /** The branch of WriteFile for a file that exists. */
  method AppendEntry(fs: Fat, ghost k: Key, entryCl: nat, entryOff: nat, startCl: nat, fileSz: nat, attr: byte,
                     data: seq<byte>)
    returns (ok: bool)
    requires fs.Valid() && fs.vol.g.wide && |data| > 0 && |data| < U32_LIMIT && ClusterSize(fs.vol.g) > 0
    requires EntryOk(fs.vol.V(), fs.lay, k) && At(fs.lay, k) == Pos(entryCl, entryOff) && entryCl >= 2
    requires IsSlot(fs.vol.V(), fs.lay, k, startCl, fileSz, attr) && !DirBit(attr)
    modifies fs`lay, fs.vol.disk
    ensures fs.Valid() && fs.lay.names.Keys == old(fs.lay.names.Keys)
    ensures ok ==> Stored(true, old(fs.Names()), fs.Names(), k, data, ClusterSize(fs.vol.g))
    ensures !ok ==> Unseen(true, old(fs.Names()), fs.Names(), Some(k), ClusterSize(fs.vol.g))
    ensures !ok ==> Refused(fs.mounted, data, old(fs.vol.V()), old(fs.lay), Some(k), fs.vol.V())
    ensures ok && Startless(old(fs.Names()), k) ==> 2 <= fs.vol.V().fat[0] < Eoc(fs.vol.g)
  {
    hide Wf, View, GeometryOk, Mirrored, Sealed, Tree, Rooted, Entries, ChainBytes, StartOf, SizeOf, ClusterSize;
    hide Stored, Unseen, Refused, Startless, Growing, Appended, NoneFree, Rewrites;
    ghost var t0, v0, lay0 := fs.Names(), fs.vol.V(), fs.lay;
    ghost var n := ClusterSize(fs.vol.g);
    FileHeads(v0, lay0, k, n);
    NoChain(v0, lay0);
    if startCl == 0 {
      ok := AppendStartless(fs, k, entryCl, entryOff, fileSz, data);
      return;
    }
    ghost var store := ChainBytes(v0, lay0, startCl);
    WholeClusters(v0, lay0, startCl, n);
    var fine, newSize := fs.AppendData(startCl, fileSz, data, k);
    ghost var v1, lay1 := fs.vol.V(), fs.lay;
    ghost var cb := ChainBytes(v1, lay1, startCl);
    GrowingFacts(v1, lay1, v0, lay0, startCl);
    GrowingTree(v1, lay1, v0, lay0, k);
    RootedFile(t0, k, File(fileSz, cb), fs.root);
    WholeClusters(v1, lay1, startCl, n);
    if !fine {
      UnseenAppend(true, t0, fs.Names(), k, cb, data, n, |lay0.chains[startCl]|);
      RefusedFull(fs.mounted, data, v0, lay0, Some(k), fs.vol.V());
      return false;
    }
    fs.StoreSizeInDir(entryCl, entryOff, newSize, k);
    StoredAppend(true, t0, fs.Names(), k, cb, data, n, |lay0.chains[startCl]|, |lay1.chains[startCl]|);
    ok := true;
  }

  /** ... and records no start cluster: the size grows, the contents do not, and entry 0 of the table is taken
      for a link. */
  method AppendStartless(fs: Fat, ghost k: Key, entryCl: nat, entryOff: nat, fileSz: nat, data: seq<byte>)
    returns (ok: bool)
    requires fs.Valid() && fs.vol.g.wide && 0 < |data| < U32_LIMIT && ClusterSize(fs.vol.g) > 0
    requires EntryOk(fs.vol.V(), fs.lay, k) && At(fs.lay, k) == Pos(entryCl, entryOff) && entryCl >= 2
    requires !DirBit(EntrySlot(fs.vol.V(), fs.lay, k)[11]) && fileSz == SizeOf(EntrySlot(fs.vol.V(), fs.lay, k))
    requires Head(fs.vol.V(), fs.lay, k) == 0 && k in fs.Names() && fs.Names()[k] == File(fileSz, [])
    modifies fs`lay, fs.vol.disk
    ensures fs.Valid() && fs.lay.names.Keys == old(fs.lay.names.Keys)
    ensures ok ==>
          Stored(true, old(fs.Names()), fs.Names(), k, data, ClusterSize(fs.vol.g))
          && 2 <= fs.vol.V().fat[0] < Eoc(fs.vol.g)
    ensures !ok ==> Unseen(true, old(fs.Names()), fs.Names(), Some(k), ClusterSize(fs.vol.g))
    ensures !ok ==> Refused(fs.mounted, data, old(fs.vol.V()), old(fs.lay), Some(k), fs.vol.V())
  {
    hide Wf, View, GeometryOk, Mirrored, Sealed, Tree, Rooted, Entries, ChainBytes, StartOf, SizeOf, ClusterSize,
         DirBit;
    hide Stored, Unseen, Refused, NoneFree, Holds;
    ghost var t0, v0, lay0 := fs.Names(), fs.vol.V(), fs.lay;
    ghost var n := ClusterSize(fs.vol.g);
    NoChain(v0, lay0);
    SameUnseen(true, t0, Some(k), n);
    var fine, newSize := fs.AppendLost(fileSz, data, k);
    if !fine {
      RefusedFull(fs.mounted, data, v0, lay0, Some(k), fs.vol.V());
      return false;
    }
    StillFile(v0, lay0, fs.vol.V(), fs.lay, k);
    fs.StoreSizeInDir(entryCl, entryOff, newSize, k);
    MediaReads(fs.vol.V(), fs.lay);
    StoredStartless(true, t0, fs.Names(), k, data, n);
    ok := true;
  }

  lemma RefusedEarly(mounted: bool, data: seq<byte>, v0: Vol, lay0: Layout, target: Option<Key>, v: Vol)
    requires !mounted || data == [] || target == None
    ensures Refused(mounted, data, v0, lay0, target, v)
  {
  }

  lemma RefusedKind(mounted: bool, data: seq<byte>, v0: Vol, lay0: Layout, k: Key, start: nat, size: nat, attr: byte,
                    v: Vol)
    requires IsSlot(v0, lay0, k, start, size, attr) && !ArchiveBit(attr)
    ensures Refused(mounted, data, v0, lay0, Some(k), v)
  {
    hide NoneFree;
  }

  lemma RefusedFull(mounted: bool, data: seq<byte>, v0: Vol, lay0: Layout, target: Option<Key>, v: Vol)
    requires NoneFree(v)
    ensures Refused(mounted, data, v0, lay0, target, v)
  {
    hide NoneFree;
  }

  lemma ArchiveIsFile(v: Vol, lay: Layout, k: Key, start: nat, size: nat, attr: byte)
    requires Wf(v, lay) && v.wide && IsSlot(v, lay, k, start, size, attr) && ArchiveBit(attr)
    ensures !DirBit(attr)
  {
    hide WfChains, WfDirs, Unique, StartOf, SizeOf;
    assert RefOk(v, lay, EntrySlot(v, lay, k));
  }

  /** The append proper: exact off a cluster boundary, over the last cluster on one. */
  lemma JoinedAppend(t0: Namespace, t: Namespace, k: Key, data: seq<byte>, n: nat)
    requires Stored(true, t0, t, k, data, n) && k in t0 && Tight(t0[k], n) && t0[k].size + |data| < U32_LIMIT
    ensures k in t && t[k].File? && Joined(t0[k], t[k], data, n)
  {
    hide AppendedStore, AppendsExactly;
    var a := t0[k];
    WholeAtLeast(|a.store|, n);
    LastOffset(|a.store| / n, n, a.size);
    StoredMeans(true, t0, t, k, data, n);
    if a.size % n != 0 {
      WideExactly(a, n);
    } else if a.store != [] {
      BoundaryAppend(a, data, n);
    } else {
      NothingReads(true, a, n);
    }
  }

  lemma WideExactly(a: Node, n: nat)
    requires n > 0 && Tight(a, n) && a.size % n != 0
    ensures AppendsExactly(true, a, n)
  {
  }

  lemma BoundaryAppend(a: Node, data: seq<byte>, n: nat)
    requires n > 0 && a.File? && |a.store| == a.size >= n && a.size % n == 0 && data != []
    ensures |AppendedStore(true, a, data, n)| < a.size + |data|
    ensures a.store[..a.size - n] + data <= AppendedStore(true, a, data, n)
  {
    var p := Placed(a.store, 0, n, true, data, |data|);
    var chunk := Min(|data|, n);
    assert data == data[..chunk] + data[chunk..];
    assert a.store[..a.size - n] + data <= p;
  }

  /** A file of one full cluster of `a`s starts with `b` after one byte `b` is appended. */
  lemma AppendOverwrites(t0: Namespace, t: Namespace, k: Key, a: byte, b: byte)
    requires k in t0 && t0[k] == File(512, seq(512, _ => a)) && Stored(true, t0, t, k, [b], 512)
    ensures Contents(t[k]) != [] && Contents(t[k])[0] == b
  {
    JoinedAppend(t0, t, k, [b], 512);
    assert t0[k].store[..0] + [b] == [b];
  }

  // ---- Directories ----

  /** Builds the cluster image in a 4096-byte buffer and writes it whole. */
  method InitDirCluster(fs: Fat, newDirCluster: nat, parentCluster: nat)
    requires fs.vol.Ok() && fs.vol.g.wide && 2 <= newDirCluster < Entries(fs.vol.g)
    requires 64 <= ClusterSize(fs.vol.g) <= 4096
    modifies fs.vol.disk
    ensures fs.vol.Ok()
    ensures fs.vol.V() == old(fs.vol.V()).(data := old(fs.vol.V()).data[newDirCluster :=
              DirImage(true, newDirCluster, parentCluster, ClusterSize(fs.vol.g))])
  {
    hide View, GeometryOk, Mirrored, Sealed, NewSlot, Entries;
    var cl := Zeros(ClusterSize(fs.vol.g));
    var dot := NewSlot(true, cl[0..32], DOT, 0x10, newDirCluster, 0);
    var dotDot := NewSlot(true, cl[32..64], DOT_DOT, 0x10, parentCluster, 0);
    DirImageSplice(newDirCluster, parentCluster, ClusterSize(fs.vol.g));
    fs.vol.WriteCluster(newDirCluster, Splice(Splice(cl, 0, dot), 32, dotDot));
  }

  lemma DirImageSplice(c: nat, parent: nat, n: nat)
    requires n >= 64
    ensures Zeros(n)[0..32] == Zeros(32) && Zeros(n)[32..64] == Zeros(32)
    ensures var dot := NewSlot(true, Zeros(n)[0..32], DOT, 0x10, c, 0);
            var dotDot := NewSlot(true, Zeros(n)[32..64], DOT_DOT, 0x10, parent, 0);
            Splice(Splice(Zeros(n), 0, dot), 32, dotDot) == DirImage(true, c, parent, n)
  {
    hide NewSlot;
    assert Zeros(n)[0..32] == Zeros(32) && Zeros(n)[32..64] == Zeros(32);
    var dot := NewSlot(true, Zeros(32), DOT, 0x10, c, 0);
    var dotDot := NewSlot(true, Zeros(32), DOT_DOT, 0x10, parent, 0);
    var r := Splice(Splice(Zeros(n), 0, dot), 32, dotDot);
    assert r[..32] == dot && r[32..64] == dotDot && r[64..] == Zeros(n - 64);
    assert r == r[..32] + r[32..64] + r[64..];
  }

  /** Creates directory `comp` under `curDir`; 0 when there is no room. */
  method MakeDirectory(fs: Fat, curDir: nat, comp: CString, short11: seq<byte>) returns (newCl: nat)
    requires fs.Valid() && fs.vol.g.wide && ClusterSize(fs.vol.g) <= 4096
    requires curDir in fs.lay.names && 2 <= curDir < U32_LIMIT
    requires Regular(short11) && short11[0] != 0xE5 && Dotted(short11) == comp && !Entry(fs.lay, Key(curDir, comp))
    modifies fs`lay, fs.vol.disk
    ensures fs.Valid() && old(fs.lay.names.Keys) <= fs.lay.names.Keys
    ensures newCl == 0 ==> fs.Names() == old(fs.Names()) && NoneFree(fs.vol.V())
    ensures newCl != 0 ==> 2 <= newCl < U32_LIMIT && newCl in fs.lay.names && newCl != fs.root
    ensures newCl != 0 ==> fs.Names() == old(fs.Names())[Key(curDir, comp) := Dir(newCl)]
    ensures newCl != 0 ==> Bare(fs.Names(), newCl)
  {
    hide Wf, View, GeometryOk, Mirrored, Sealed, Tree, Rooted, Entries, ClusterSize, ChainBytes, DirImage, WithHead,
         WithDir;
    hide Hidden, Naming, HeadNode, NoneFree, Regular, Dotted, Unreferenced, Bare;
    ghost var v0, lay0 := fs.vol.V(), fs.lay;
    ghost var n := ClusterSize(fs.vol.g);
    ClusterAligned(fs.vol.g, fs.vol.disk.Length);
    var cl := fs.AllocateCluster();
    if cl < 2 {
      return 0;
    }
    InitDirCluster(fs, cl, curDir);
    fs.lay := StartDir(v0, fs.vol.V(), lay0, cl, curDir, n, Mark(fs.vol.g));
    ghost var v1, lay1 := fs.vol.V(), fs.lay;
    BareNew(v0, lay0, cl);
    DirNaming(v1, lay1, lay0, cl, curDir, short11);
    var ok := fs.AddEntryToDir(curDir, short11, 0x10, cl, 0);
    if ok {
      BareAdd(Tree(v0, lay0), Key(curDir, comp), Dir(cl), cl);
    }
    newCl := if ok then cl else 0;
  }

  /** Directory `d` holds no entries. */
  ghost predicate Bare(t: Namespace, d: nat) {
    forall x: Key | x in t :: x.dir != d
  }

  lemma BareNew(v: Vol, lay: Layout, d: nat)
    requires d !in lay.names
    ensures Bare(Tree(v, lay), d)
  {
  }

  lemma BareAdd(t: Namespace, k: Key, n: Node, d: nat)
    requires Bare(t, d) && k.dir != d
    ensures Bare(t[k := n], d)
  {
  }

  lemma BareNoFiles(t: Namespace, d: nat, cs: seq<seq<byte>>)
    requires Bare(t, d)
    ensures NoFiles(t, d, cs)
  {
  }

  method Mkdir(fs: Fat, path: CString, parents: bool) returns (ok: bool)
    requires fs.Valid() && fs.vol.g.wide && ClusterSize(fs.vol.g) <= 4096
    requires NoDots(MkdirComponents(path)) && PacksFaithfully(MkdirComponents(path))
    requires NoFiles(fs.Names(), fs.root, MkdirComponents(path))
    modifies fs`lay, fs.vol.disk
    ensures fs.Valid() && MoreDirs(old(fs.Names()), fs.Names())
    ensures ok ==> fs.mounted && Walk(fs.Names(), fs.root, MkdirComponents(path)).Some?
    ensures !ok ==> !fs.mounted || Blocked(fs.Names(), fs.root, MkdirComponents(path), parents, NoneFree(fs.vol.V()))
    ensures !fs.mounted ==> !ok && fs.Names() == old(fs.Names())
  {
    hide Wf, View, GeometryOk, Mirrored, Sealed, Tree, Rooted, Entries, FoundAs, NoneFree, Blocked, Regular, Dotted,
         Pack, Accepted, Canonical;
    hide Walk, Components, MoreDirs, Run, Rest, ChainBytes, PacksFaithfully, NoDots, IsDot, UpperAll, NoFiles, Bare,
         ClusterSize;
    ghost var t0 := fs.Names();
    MoreSame(t0);
    if !fs.mounted {
      return false;
    }
    ghost var cs := MkdirComponents(path);
    var p: CString := if path != [] && path[0] == SLASH then path[1..] else path;
    var curDir := fs.root;
    ghost var done: seq<seq<byte>> := [];
    WalkNone(t0, fs.root);
    while p != []
      invariant fs.Valid() && MoreDirs(t0, fs.Names()) && fs.mounted
      invariant curDir in fs.lay.names && 2 <= curDir < U32_LIMIT
      invariant cs == done + Components(p) && Walk(fs.Names(), fs.root, done) == Some(curDir)
      invariant NoFiles(fs.Names(), curDir, Components(p))
      decreases |p|
    {
      var comp, rest := NextComponent(p);
      if comp == [] {
        assert Components(p) == Components(rest);
        p := rest;
        continue;
      }
      ghost var t := fs.Names();
      SplitStep(cs, done, comp, Components(rest));
      WalkSnoc(t, fs.root, done, comp);
      WalkHead(t, curDir, comp, Components(rest));
      var found, childCl, childSz, isDir := fs.FindShortNameInDirCluster(curDir, comp);
      LookedUp(fs.vol.V(), fs.lay, Key(curDir, comp), found, childCl, childSz, isDir);
      if found {
        StartInSpan(fs.vol.V(), fs.lay, Key(curDir, comp), childCl, childSz, isDir);
        curDir := childCl;
      } else {
        var final := OnlySlashes(rest);
        if !parents && !final {
          BlockedHere(t, fs.root, cs, done, comp, Components(rest), curDir, parents, NoneFree(fs.vol.V()));
          return false;
        }
        var short11, ok83 := PackShortName11(comp);
        if !ok83 {
          BlockedHere(t, fs.root, cs, done, comp, Components(rest), curDir, parents, NoneFree(fs.vol.V()));
          return false;
        }
        PackRegular(comp);
        PackedBack(path, |done|);
        var newCl := MakeDirectory(fs, curDir, comp, short11);
        if newCl < 2 {
          BlockedHere(t, fs.root, cs, done, comp, Components(rest), curDir, parents, NoneFree(fs.vol.V()));
          return false;
        }
        MoreAdd(t0, t, fs.Names(), Key(curDir, comp), newCl);
        WalkMore(t, fs.Names(), fs.root, done);
        WalkSnoc(fs.Names(), fs.root, done, comp);
        BareNoFiles(fs.Names(), newCl, Components(rest));
        curDir := newCl;
      }
      done := done + [comp];
      p := rest;
    }
    AllDone(cs, done);
    ok := true;
  }

  lemma StartInSpan(v: Vol, lay: Layout, k: Key, start: nat, size: nat, isDir: bool)
    requires FoundAs(v, lay, k, start, size, isDir)
    ensures start < U32_LIMIT
  {
  }

  // ---- Renaming ----

  const PARENT_CAP: nat := 160
  const BASE_CAP: nat := 32

  function LastSlash(path: seq<byte>): (r: int)
    ensures -1 <= r < |path| && (r >= 0 ==> path[r] == SLASH) && (forall i | r < i < |path| :: path[i] != SLASH)
  {
    if path == [] then -1
    else if path[|path| - 1] == SLASH then |path| - 1
    else LastSlash(path[..|path| - 1])
  }

  function Piece(s: CString, lo: nat, hi: nat): (r: CString)
    requires lo <= hi <= |s|
    ensures r == s[lo..hi]
  {
    assert forall i | 0 <= i < hi - lo :: s[lo..hi][i] == s[lo + i];
    s[lo..hi]
  }

  /** Everything before the last slash, cut to the parent buffer; "/" when there is nothing. */
  function ParentPart(path: CString): CString {
    var last := LastSlash(path);
    if last <= 0 then [SLASH] else Piece(path, 0, Min(last, PARENT_CAP - 1))
  }

  /** Everything after the last slash, cut to the base buffer. */
  function BasePart(path: CString): CString {
    var last := LastSlash(path);
    Piece(path, last + 1, last + 1 + Min(|path| - last - 1, BASE_CAP - 1))
  }

  lemma NextSlash(path: seq<byte>, i: nat)
    requires i <= |path|
    ensures i == 0 ==> LastSlash(path[..i]) == -1
    ensures i < |path| ==> LastSlash(path[..i + 1]) == if path[i] == SLASH then i else LastSlash(path[..i])
  {
    assert i < |path| ==> path[..i + 1][..i] == path[..i];
  }

  /** The loop that looks for the last slash. */
  method FindLastSlash(path: CString) returns (last: int)
    ensures last == LastSlash(path)
  {
    hide LastSlash;
    last := -1;
    var i := 0;
    NextSlash(path, 0);
    while i < |path|
      invariant 0 <= i <= |path| && last == LastSlash(path[..i])
    {
      NextSlash(path, i);
      if path[i] == SLASH {
        last := i;
      }
      i := i + 1;
    }
    assert path[..i] == path;
  }

  method SplitParentBasename(path: CString) returns (parent: CString, base: CString)
    ensures parent == ParentPart(path) && base == BasePart(path)
  {
    hide LastSlash;
    var last := FindLastSlash(path);
    parent := if last <= 0 then [SLASH] else Piece(path, 0, Min(last, PARENT_CAP - 1));
    base := Piece(path, last + 1, last + 1 + Min(|path| - last - 1, BASE_CAP - 1));
  }

  /** The entry a rename moves: the parent directory and the packed base name. */
  ghost function SourceKey(t: Namespace, root: nat, path: CString): Option<Key> {
    var base := UpperAll(BasePart(path));
    match Walk(t, root, MkdirComponents(ParentPart(path)))
    case None => None
    case Some(d) => if base != [] && Accepted(base) then Some(Key(d, Dotted(Pack(base)))) else None
  }

  /** The paths a rename can be given: walks over directories only, without dot components. */
  ghost predicate Walkable(t: Namespace, root: nat, path: CString) {
    NoDots(MkdirComponents(ParentPart(path))) && NoFiles(t, root, MkdirComponents(ParentPart(path)))
  }

  /** Why a rename fails: a bad path or name, no source, a destination in the way, a directory (or any entry
      without the archive bit) to be moved to another parent, or no space left. */
  ghost predicate NotMovable(mounted: bool, src: CString, dst: CString, v: Vol, lay: Layout, root: nat) {
    var t := Tree(v, lay);
    var k, k2 := SourceKey(t, root, src), SourceKey(t, root, dst);
    || !mounted || src == [] || src[0] != SLASH || dst == [] || dst[0] != SLASH || k == None || k2 == None
    || Stuck(v, lay, k.value, k2.value)
  }

  /** Renames an entry inside its directory, or moves a file to another directory. */
  method Rename(fs: Fat, src: CString, dst: CString) returns (ok: bool)
    requires fs.Valid() && fs.vol.g.wide
    requires Walkable(fs.Names(), fs.root, src) && Walkable(fs.Names(), fs.root, dst)
    requires Accepted(UpperAll(BasePart(dst))) ==> Canonical(UpperAll(BasePart(dst)))
    modifies fs`lay, fs.vol.disk
    ensures fs.Valid() && fs.lay.names.Keys == old(fs.lay.names.Keys)
    ensures ok ==> var k, k2 := SourceKey(old(fs.Names()), fs.root, src), SourceKey(old(fs.Names()), fs.root, dst);
                   && k.Some? && k2.Some? && k.value in old(fs.Names()) && k2.value !in old(fs.Names())
                   && (k.value.dir != k2.value.dir ==> old(fs.Names())[k.value].File?)
                   && fs.Names() == Moved(old(fs.Names()), k.value, k2.value)
    ensures !ok ==> fs.vol.V() == old(fs.vol.V()) && fs.Names() == old(fs.Names())
    ensures !ok ==> NotMovable(fs.mounted, src, dst, old(fs.vol.V()), old(fs.lay), fs.root)
  {
    hide Wf, View, GeometryOk, Mirrored, Sealed, Tree, Rooted, Walk, Components, Entries, StartOf, SizeOf, NoFiles,
         NoneFree;
    hide NotMovable, Stuck, Regular, Dotted, Pack, Accepted, Canonical, UpperAll, Moved, ParentPart, BasePart, NoDots,
         IsDot, SourceKey;
    ghost var t0, v0, lay0 := fs.Names(), fs.vol.V(), fs.lay;
    ghost var key, key2 := SourceKey(t0, fs.root, src), SourceKey(t0, fs.root, dst);
    if !fs.mounted || src == [] || src[0] != SLASH || dst == [] || dst[0] != SLASH {
      NotMovableEarly(fs.mounted, src, dst, v0, lay0, fs.root);
      return false;
    }
    var srcParent, srcBase := SplitParentBasename(src);
    var dstParent, dstBase := SplitParentBasename(dst);
    SourceKeyIs(t0, fs.root, src);
    SourceKeyIs(t0, fs.root, dst);
    if srcBase == [] || dstBase == [] {
      NotMovableEarly(fs.mounted, src, dst, v0, lay0, fs.root);
      return false;
    }
    var okS, srcDirCl := WalkToDir(fs, srcParent);
    if !okS {
      NotMovableEarly(fs.mounted, src, dst, v0, lay0, fs.root);
      return false;
    }
    var okD, dstDirCl := WalkToDir(fs, dstParent);
    if !okD {
      NotMovableEarly(fs.mounted, src, dst, v0, lay0, fs.root);
      return false;
    }
    var srcUpper: CString := UpperAll(srcBase);
    var dstUpper: CString := UpperAll(dstBase);
    var src11, ok1 := PackShortName11(srcUpper);
    var dst11, ok2 := PackShortName11(dstUpper);
    if !ok1 || !ok2 {
      NotMovableEarly(fs.mounted, src, dst, v0, lay0, fs.root);
      return false;
    }
    PackRegular(srcUpper);
    PackRegular(dstUpper);
    RegularNotDot(src11);
    DestinationName(dstBase);
    ghost var k, k2 := Key(srcDirCl, Dotted(src11)), Key(dstDirCl, dstUpper);
    assert key == Some(k) && key2 == Some(k2);
    ok := MoveEntry(fs, srcDirCl, src11, dstDirCl, dst11, dstUpper);
    if !ok {
      NotMovableEntry(fs.mounted, src, dst, v0, lay0, fs.root);
    }
  }

  /** The reasons a rename fails once both names are resolved. */
  ghost predicate Stuck(v: Vol, lay: Layout, k: Key, k2: Key) {
    || k !in Tree(v, lay) || k2 in Tree(v, lay)
    || (k.dir != k2.dir && EntryOk(v, lay, k) && !ArchiveBit(EntrySlot(v, lay, k)[11]))
    || NoneFree(v)
  }

  lemma StuckIf(v: Vol, lay: Layout, k: Key, k2: Key, start: nat, size: nat, attr: byte)
    requires k !in Tree(v, lay) || k2 in Tree(v, lay) || NoneFree(v)
             || (k.dir != k2.dir && IsSlot(v, lay, k, start, size, attr) && !ArchiveBit(attr))
    ensures Stuck(v, lay, k, k2)
  {
    hide Tree, Rooted, NoneFree;
  }

  /** Rename from the point where both parents are found and both names packed. */
  method MoveEntry(fs: Fat, srcDirCl: nat, src11: seq<byte>, dstDirCl: nat, dst11: seq<byte>, dstName: CString)
    returns (ok: bool)
    requires fs.Valid() && fs.vol.g.wide && srcDirCl in fs.lay.names && srcDirCl >= 2 && dstDirCl in fs.lay.names
             && dstDirCl >= 2
    requires Regular(src11) && !IsDot(Dotted(src11)) && !IsDot(dstName)
    requires Regular(dst11) && dst11[0] != 0xE5 && Dotted(dst11) == dstName
    modifies fs`lay, fs.vol.disk
    ensures fs.Valid() && fs.lay.names.Keys == old(fs.lay.names.Keys)
    ensures ok ==> var k, k2 := Key(srcDirCl, Dotted(src11)), Key(dstDirCl, dstName);
                   && k in old(fs.Names()) && k2 !in old(fs.Names()) && (k.dir != k2.dir ==> old(fs.Names())[k].File?)
                   && fs.Names() == Moved(old(fs.Names()), k, k2)
    ensures !ok ==> fs.vol.V() == old(fs.vol.V()) && fs.Names() == old(fs.Names())
    ensures !ok ==> Stuck(old(fs.vol.V()), old(fs.lay), Key(srcDirCl, Dotted(src11)), Key(dstDirCl, dstName))
  {
    hide Wf, View, GeometryOk, Mirrored, Sealed, Tree, Rooted, Entries, StartOf, SizeOf, NoneFree, IsSlot, FoundAs,
         Regular, Dotted;
    hide ArchiveBit, DirBit, Moved, IsDot, Stuck;
    ghost var v0, lay0 := fs.vol.V(), fs.lay;
    NameLength(src11);
    ghost var k, k2 := Key(srcDirCl, Dotted(src11)), Key(dstDirCl, dstName);
    InTree(v0, lay0, k);
    InTree(v0, lay0, k2);
    var found, entryCl, entryOff, startCl, fileSize, attr := fs.FindShortEntryInDir(srcDirCl, src11, v0, Dotted(src11));
    if !found {
      StuckIf(v0, lay0, k, k2, startCl, fileSize, attr);
      return false;
    }
    var taken, tmpCl, tmpSz, isDir := fs.FindShortNameInDirCluster(dstDirCl, dstName);
    if taken {
      StuckIf(v0, lay0, k, k2, startCl, fileSize, attr);
      return false;
    }
    if srcDirCl == dstDirCl {
      RenameInPlace(fs, k, entryCl, entryOff, dst11);
      return true;
    }
    if !ArchiveBit(attr) {
      StuckIf(v0, lay0, k, k2, startCl, fileSize, attr);
      return false;
    }
    ArchiveIsFile(v0, lay0, k, startCl, fileSize, attr);
    ok := MoveFile(fs, k, entryCl, entryOff, startCl, fileSize, attr, dstDirCl, dst11);
    if !ok {
      StuckIf(v0, lay0, k, k2, startCl, fileSize, attr);
    }
  }

  /** The in-place branch: overwrites the eleven name bytes. */
  method RenameInPlace(fs: Fat, ghost k: Key, entryCl: nat, entryOff: nat, dst11: seq<byte>)
    requires fs.Valid() && fs.vol.g.wide && EntryOk(fs.vol.V(), fs.lay, k) && At(fs.lay, k) == Pos(entryCl, entryOff)
             && entryCl >= 2
    requires Regular(dst11) && dst11[0] != 0xE5 && !Entry(fs.lay, Key(k.dir, Dotted(dst11)))
    modifies fs`lay, fs.vol.disk
    ensures fs.Valid() && fs.lay.names.Keys == old(fs.lay.names.Keys)
    ensures k in old(fs.Names()) && fs.Names() == Moved(old(fs.Names()), k, Key(k.dir, Dotted(dst11)))
  {
    hide Wf, View, GeometryOk, Mirrored, Sealed, Tree, Rooted, Entries, Regular, Dotted, Moved, HeldAt, Splice;
    ghost var v, lay0, p := fs.vol.V(), fs.lay, Pos(entryCl, entryOff);
    NameLength(dst11);
    EntryHeld(v, lay0, k);
    RenameSlot(v, lay0, k, p, dst11);
    var dirBuf := fs.vol.ReadCluster(entryCl);
    PatchSlot(dirBuf, entryOff, dst11);
    dirBuf := Splice(dirBuf, entryOff, dst11);
    fs.vol.WriteCluster(entryCl, dirBuf);
    fs.lay := PutLayout(v, lay0, k.dir, p, Renamed(Slot(v, p), dst11));
    RootedMoved(Tree(v, lay0), k, Key(k.dir, Dotted(dst11)), fs.root);
  }

  lemma PatchSlot(b: seq<byte>, off: nat, x: seq<byte>)
    requires off + 32 <= |b| && |x| <= 32
    ensures Splice(b, off, x) == Splice(b, off, x + b[off..off + 32][|x|..])
  {
    assert b[off..off + 32][|x|..] == b[off + |x|..off + 32];
    assert b[off + |x|..] == b[off + |x|..off + 32] + b[off + 32..];
  }

  /** The cross-directory branch: adds the new entry, then marks the old one deleted. */
  method MoveFile(fs: Fat, ghost k: Key, entryCl: nat, entryOff: nat, startCl: nat, fileSize: nat, attr: byte,
                  dstDirCl: nat, dst11: seq<byte>) returns (ok: bool)
    requires fs.Valid() && fs.vol.g.wide && EntryOk(fs.vol.V(), fs.lay, k) && At(fs.lay, k) == Pos(entryCl, entryOff)
             && entryCl >= 2
    requires IsSlot(fs.vol.V(), fs.lay, k, startCl, fileSize, attr) && !DirBit(attr)
    requires dstDirCl in fs.lay.names && dstDirCl >= 2 && dstDirCl != k.dir
    requires Regular(dst11) && dst11[0] != 0xE5 && !Entry(fs.lay, Key(dstDirCl, Dotted(dst11)))
    modifies fs`lay, fs.vol.disk
    ensures fs.Valid() && fs.lay.names.Keys == old(fs.lay.names.Keys)
    ensures ok ==> k in old(fs.Names()) && old(fs.Names())[k].File?
    ensures ok ==> fs.Names() == Moved(old(fs.Names()), k, Key(dstDirCl, Dotted(dst11)))
    ensures !ok ==> fs.vol.V() == old(fs.vol.V()) && fs.Names() == old(fs.Names()) && NoneFree(fs.vol.V())
  {
    hide Wf, View, GeometryOk, Mirrored, Sealed, Tree, Rooted, Entries, Regular, Dotted, HeldAt, Splice, StartOf,
         SizeOf, DirBit;
    hide Naming, Pending, Added, Seen, NoneFree, HoleOk, HeadNode, CanHead, PutLayout;
    ghost var v, lay0, p := fs.vol.V(), fs.lay, Pos(entryCl, entryOff);
    ghost var hole := Some(p);
    NameLength(dst11);
    ghost var lay1 := Detach(v, lay0, k, p, startCl, fileSize, attr, dstDirCl, dst11);
    ghost var v1 := Seen(v, hole);
    fs.lay := lay1;
    ok := fs.InsertIntoChain(dstDirCl, dst11, 0x20, startCl, fileSize, hole, v1, lay1);
    if !ok {
      fs.lay := lay0;
      return;
    }
    AddedMeans(Seen(fs.vol.V(), hole), fs.lay, v1, lay1, dstDirCl, dst11, 0x20, startCl, fileSize);
    ghost var u := fs.vol.V();
    var dirBuf := fs.vol.ReadCluster(entryCl);
    PatchSlot(dirBuf, entryOff, [0xE5]);
    dirBuf := Splice(dirBuf, entryOff, [0xE5]);
    fs.vol.WriteCluster(entryCl, dirBuf);
    SeenErased(u, p);
    RootedMoved(Tree(v, lay0), k, Key(dstDirCl, Dotted(dst11)), fs.root);
  }

  lemma RootedMoved(t: Namespace, k: Key, k2: Key, root: nat)
    requires k in t && Rooted(t, root)
    ensures Rooted(Moved(t, k, k2), root)
  {
  }

  lemma SeenErased(u: Vol, p: Pos)
    requires SlotOk(u, p)
    ensures p.off + 32 <= |u.data[p.cl]|
    ensures Seen(u, Some(p)) ==
            u.(data := u.data[p.cl := Splice(u.data[p.cl], p.off, [0xE5] + u.data[p.cl][p.off..p.off + 32][1..])])
  {
    var s := Slot(u, p);
    assert Erased(s) == [0xE5] + s[1..];
  }

  /** With the source slot deleted, the moved file's chain heads a new entry that reads like the old one. */
  lemma Detach(v: Vol, lay: Layout, k: Key, p: Pos, start: nat, size: nat, attr: byte, d: nat, name: seq<byte>)
    returns (lay1: Layout)
    requires Wf(v, lay) && v.wide && EntryOk(v, lay, k) && At(lay, k) == p && IsSlot(v, lay, k, start, size, attr)
             && !DirBit(attr)
    requires d in lay.names && d >= 2 && d != k.dir && |name| == 11
    requires Regular(name) && name[0] != 0xE5 && !Entry(lay, Key(d, Dotted(name)))
    ensures SlotOk(v, p) && HoleOk(v, lay1, d, Some(p)) && lay1.names.Keys == lay.names.Keys
    ensures Pending(Seen(v, Some(p)), lay1, Seen(v, Some(p)), lay1, d, name, 0x20, start, size)
    ensures k in Tree(v, lay) && Tree(v, lay)[k].File?
    ensures Tree(Seen(v, Some(p)), lay1)[Key(d, Dotted(name)) := HeadNode(Seen(v, Some(p)), lay1, 0x20, start, size)]
            == Moved(Tree(v, lay), k, Key(d, Dotted(name)))
  {
    hide Wf, Tree, Rooted, Regular, Dotted, HeldAt, StartOf, SizeOf, DirBit, CanHead, HeadNode, Pending, PutLayout;
    EntryHeld(v, lay, k);
    var t := Erased(Slot(v, p));
    lay1 := PutLayout(v, lay, k.dir, p, t);
    EraseSlot(v, lay, k, p);
    ErasedHead(v, lay, k, p);
    SourceIsFile(v, lay, k, start, size, attr);
    DetachNaming(v, lay, k, p, t, d, name, start, size);
    PendingInit(Put(v, p, t), lay1, d, name, 0x20, start, size);
  }

  lemma SourceIsFile(v: Vol, lay: Layout, k: Key, start: nat, size: nat, attr: byte)
    requires Wf(v, lay) && IsSlot(v, lay, k, start, size, attr) && !DirBit(attr)
    ensures EntryOk(v, lay, k) && k in Tree(v, lay) && Tree(v, lay)[k].File?
    ensures start == StartOf(v.wide, EntrySlot(v, lay, k)) && size == SizeOf(EntrySlot(v, lay, k))
            && attr == EntrySlot(v, lay, k)[11]
    ensures start == 0 || start !in lay.names
  {
    hide WfChains, WfDirs, Unique, StartOf, SizeOf, DirBit, ChainBytes;
    assert RefOk(v, lay, EntrySlot(v, lay, k));
  }

  lemma DetachNaming(v: Vol, lay: Layout, k: Key, p: Pos, t: seq<byte>, d: nat, name: seq<byte>, start: nat, size: nat)
    requires k.dir in lay.names && SlotOk(v, p) && |t| == 32 && |name| == 11
    requires d in lay.names && d != k.dir && Regular(name) && name[0] != 0xE5 && !Entry(lay, Key(d, Dotted(name)))
    requires CanHead(Put(v, p, t), PutLayout(v, lay, k.dir, p, t), 0x20, start, size)
    ensures Naming(Put(v, p, t), PutLayout(v, lay, k.dir, p, t), d, name, 0x20, start, size)
  {
    hide Regular, Dotted, CanHead, NamesAfter;
  }

  lemma InTree(v: Vol, lay: Layout, k: Key)
    requires Wf(v, lay)
    ensures Entry(lay, k) <==> k in Tree(v, lay)
    ensures Entry(lay, k) ==> EntryOk(v, lay, k)
  {
    hide WfChains, WfDirs, Unique, RefOk;
  }

  lemma SourceKeyIs(t: Namespace, root: nat, path: CString)
    ensures var base := BasePart(path);
            var d := Walk(t, root, MkdirComponents(ParentPart(path)));
            SourceKey(t, root, path) ==
              if d.Some? && base != [] && Accepted(UpperAll(base))
                  then Some(Key(d.value, Dotted(Pack(UpperAll(base))))) else None
  {
    hide Walk, Accepted, Dotted, Pack, BasePart, ParentPart, Components;
  }

  lemma DestinationName(base: CString)
    requires Accepted(UpperAll(base)) && Canonical(UpperAll(base))
    ensures Dotted(Pack(UpperAll(base))) == UpperAll(base) && !IsDot(UpperAll(base))
  {
    hide Accepted, Canonical, Pack, Dotted;
    PackRoundTrip(UpperAll(base));
    UpperTwice(base);
    PackRegular(UpperAll(base));
    RegularNotDot(Pack(UpperAll(base)));
  }

  lemma NotMovableEarly(mounted: bool, src: CString, dst: CString, v: Vol, lay: Layout, root: nat)
    requires !mounted || src == [] || src[0] != SLASH || dst == [] || dst[0] != SLASH
             || SourceKey(Tree(v, lay), root, src) == None || SourceKey(Tree(v, lay), root, dst) == None
    ensures NotMovable(mounted, src, dst, v, lay, root)
  {
    hide SourceKey, Tree, Rooted, Stuck;
  }

  lemma NotMovableEntry(mounted: bool, src: CString, dst: CString, v: Vol, lay: Layout, root: nat)
    requires var k, k2 := SourceKey(Tree(v, lay), root, src), SourceKey(Tree(v, lay), root, dst);
             k.Some? && k2.Some? && Stuck(v, lay, k.value, k2.value)
    ensures NotMovable(mounted, src, dst, v, lay, root)
  {
    hide SourceKey, Tree, Rooted, Stuck;
  }

  // ---- What paths read afterwards ----

  /** The FAT32 round trip: what a path reads after a successful write to it, and every other path reads as before.
      A new file reads back as the data written; a tight file as old contents and data exactly when it did not end on
      a cluster boundary. */
  lemma WriteThenRead(t0: Namespace, t: Namespace, root: nat, path: CString, data: seq<byte>, n: nat, max: nat,
                      other: seq<seq<byte>>)
    requires n > 0 && var cs := PathComponents(path);
             cs != [] && Canonical(FinalName(cs)) && WriteKey(t0, root, cs).Some?
             && Stored(true, t0, t, WriteKey(t0, root, cs).value, data, n)
    ensures var cs := PathComponents(path);
            var k := WriteKey(t0, root, cs).value;
            && ReadsBack(t0, k, data, n, max, ReadPath(t, root, cs, max))
            && (ReadKey(t0, root, other) != Some(k) ==> ReadPath(t, root, other, max) == ReadPath(t0, root, other, max))
  {
    hide Components, Canonical, Accepted, Pack, Dotted, Walk, UpperAll, Stored, WrittenNode, AppendsExactly, Contents,
         Cut, Joined;
    var cs := PathComponents(path);
    var k := WriteKey(t0, root, cs).value;
    ComponentsUpper(path[1..], |cs| - 1);
    StoredMeans(true, t0, t, k, data, n);
    StoredNode(true, t0, t, k, data, n);
    ReadAfterWrite(t0, root, cs, t[k], max, other);
    if k in t0 && Tight(t0[k], n) && t0[k].size + |data| < U32_LIMIT && t0[k].size + |data| <= max {
      JoinedAppend(t0, t, k, data, n);
      LengthOfJoined(t0[k], t[k], data, n, max);
    }
  }

  /** What a read after a write to `k` gives: what the clusters of the file hold up to its new size. */
  ghost predicate ReadsBack(t0: Namespace, k: Key, data: seq<byte>, n: nat, max: nat, r: Option<seq<byte>>) {
    && n > 0 && (k in t0 ==> t0[k].File?)
    && r == Some(Cut(Contents(WrittenNode(true, t0, k, data, n)), max))
    && (k !in t0 ==> r == Some(Cut(data, max)))
    && (k in t0 && AppendsExactly(true, t0[k], n) && t0[k].size + |data| < U32_LIMIT ==>
          r == Some(Cut(Contents(t0[k]) + data, max)))
    && (k in t0 && Tight(t0[k], n) && t0[k].size + |data| < U32_LIMIT && t0[k].size + |data| <= max ==>
          (r == Some(Contents(t0[k]) + data) <==> t0[k].size % n != 0))
  }

  lemma LengthOfJoined(a: Node, b: Node, data: seq<byte>, n: nat, max: nat)
    requires n > 0 && a.File? && b.File? && Tight(a, n) && Joined(a, b, data, n) && b.size == a.size + |data| <= max
    ensures Cut(Contents(b), max) == Contents(a) + data <==> a.size % n != 0
  {
  }

  /** A path in the form the two name splitters agree on. */
  ghost predicate Splittable(path: CString) {
    && path != [] && path[0] == SLASH && LastSlash(path) < PARENT_CAP
    && 0 < |path| - LastSlash(path) - 1 <= COMPONENT_MAX
  }

  /** A successful rename seen through paths: the destination reads what the source read, the source no longer
      resolves, and every path that meets neither entry reads as before. */
  lemma RenameThenRead(t0: Namespace, root: nat, src: CString, dst: CString, max: nat, other: seq<seq<byte>>)
    requires DirsUnique(t0) && Rooted(t0, root) && Splittable(src) && Splittable(dst)
    requires Canonical(UpperAll(BasePart(src))) && Canonical(UpperAll(BasePart(dst)))
    requires var k, k2 := SourceKey(t0, root, src), SourceKey(t0, root, dst);
             && k.Some? && k2.Some? && k.value in t0 && k2.value !in t0
             && (k.value.dir != k2.value.dir ==> t0[k.value].File?)
    ensures var k, k2 := SourceKey(t0, root, src).value, SourceKey(t0, root, dst).value;
            var t := Moved(t0, k, k2);
            && ReadPath(t, root, PathComponents(dst), max) == ReadPath(t0, root, PathComponents(src), max)
            && ReadPath(t, root, PathComponents(src), max) == None && Walk(t, root, PathComponents(src)) == None
            && (t0[k].Dir? ==> Walk(t, root, PathComponents(dst)) == Walk(t0, root, PathComponents(src)))
            && ParentDir(t, root, PathComponents(src)) == Some(k.dir)
            && ParentDir(t, root, PathComponents(dst)) == Some(k2.dir)
            && FinalName(PathComponents(src)) == k.name && FinalName(PathComponents(dst)) == k2.name
            && (!Looks(t0, root, other, k) && !Looks(t0, root, other, k2) ==>
                  ReadPath(t, root, other, max) == ReadPath(t0, root, other, max))
  {
    hide Components, Canonical, Accepted, Pack, Dotted, Walk, UpperAll, ReadPath, Moved, Looks, ParentPart, BasePart,
         Splittable;
    var k, k2 := SourceKey(t0, root, src).value, SourceKey(t0, root, dst).value;
    SourceKeyIs(t0, root, src);
    SourceKeyIs(t0, root, dst);
    DestinationName(BasePart(src));
    DestinationName(BasePart(dst));
    PathSplit(src);
    PathSplit(dst);
    MoveThenRead(t0, root, MkdirComponents(ParentPart(src)), MkdirComponents(ParentPart(dst)), k, k2, max);
    if !Looks(t0, root, other, k) && !Looks(t0, root, other, k2) {
      ReadElsewhere(t0, root, other, k, k2, max);
    }
  }

  /** The rename splitter and the component loop read a path the same way. */
  lemma PathSplit(path: CString)
    requires Splittable(path)
    ensures PathComponents(path) == MkdirComponents(ParentPart(path)) + [UpperAll(BasePart(path))]
  {
    hide Run, Rest, UpperAll;
    var last := LastSlash(path);
    var base := path[last + 1..];
    assert BasePart(path) == base;
    ComponentsOne(base);
    if last == 0 {
      assert path[1..] == base;
      assert MkdirComponents(ParentPart(path)) == Components([]) == [];
    } else {
      var a := path[1..last];
      assert path[1..] == a + [SLASH] + base;
      ComponentsJoin(a, base);
      assert ParentPart(path)[1..] == a;
    }
  }
}

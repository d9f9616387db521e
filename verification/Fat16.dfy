/** The FAT16 driver. */
module Fat16 {
  import opened Bytes
  import opened ShortName
  import opened FatVolume
  import opened FatSteps
  import opened FatLink
  import opened FatFile
  import opened FatTree
  import opened FatImage
  import opened FatScan
  import opened FatDevice
  import opened FatInsert
  import opened FatWalk
  import opened FatWrite
  import opened FatDriver

  method RootSector(fs: Fat, s: nat) returns (sec: seq<byte>)
    requires fs.vol.Ok() && s < fs.vol.g.rootSectors
    ensures s * SECTOR + SECTOR <= |fs.vol.V().data[ROOT]|
    ensures sec == fs.vol.V().data[ROOT][s * SECTOR..s * SECTOR + SECTOR]
  {
    hide View, ClusterBytes, GeometryOk, Mirrored, Sealed;
    RootRead(fs.vol.g, fs.vol.disk[..], s);
    sec := fs.vol.ReadSectors(fs.vol.g.rootLBA + s, 1);
  }

  lemma RootRead(g: Geometry, b: seq<byte>, s: nat)
    requires GeometryOk(g, |b|) && s < g.rootSectors
    ensures (g.rootLBA + s + 1) * SECTOR <= |b|
    ensures |View(g, b).data| > 0 && s * SECTOR + SECTOR <= |View(g, b).data[ROOT]|
    ensures b[(g.rootLBA + s) * SECTOR..(g.rootLBA + s + 1) * SECTOR] ==
            View(g, b).data[ROOT][s * SECTOR..s * SECTOR + SECTOR]
  {
    hide Copy, Table;
    LayoutBounds(g, |b|);
    SectorMul(s);
    SectorMul(g.rootSectors);
    SectorMul(g.rootLBA);
    SectorMul(g.rootLBA + s);
    SectorMul(g.rootLBA + s + 1);
    SectorMul(g.dataStart);
    assert View(g, b).data[ROOT] == b[g.rootLBA * SECTOR..g.dataStart * SECTOR];
    PartOfPart(b, g.rootLBA * SECTOR, g.dataStart * SECTOR, s * SECTOR, SECTOR);
  }

  /** The sector loop of the root lookups: byte offset in the root of the first match by text. */
  method ScanRoot(fs: Fat, text: CString, ghost b: seq<byte>) returns (found: bool, off: nat, slot: seq<byte>)
    requires fs.vol.Ok() && b == fs.vol.V().data[ROOT] && DirBuffer(b)
    ensures found ==> HitText(b, off, text) && off + 32 <= |b| && slot == b[off..off + 32]
    ensures !found ==> NoText(b, |b|, text)
  {
    hide DirBuffer, NoText, HitText, View, GeometryOk, Mirrored, Sealed;
    NoTextYet(b, text);
    off, slot := 0, [];
    var s := 0;
    while s < fs.vol.g.rootSectors
      invariant 0 <= s <= fs.vol.g.rootSectors
      invariant NoText(b, s * SECTOR, text)
    {
      var sec := RootSector(fs, s);
      SectorOfRoot(b, s);
      var hit, o, ended := ScanText(sec, text);
      RootText(b, s, sec, text, hit, o, ended);
      if hit {
        return true, s * SECTOR + o, sec[o..o + 32];
      }
      if ended {
        return false, 0, [];
      }
      s := s + 1;
    }
    found := false;
  }

  method FindShortNameInRoot(fs: Fat, text: CString) returns (found: bool, startCl: nat, fileSz: nat, isDir: bool)
    requires fs.Valid() && !fs.vol.g.wide && !IsDot(text)
    ensures found <==> Entry(fs.lay, Key(ROOT, text))
    ensures found ==> FoundAs(fs.vol.V(), fs.lay, Key(ROOT, text), startCl, fileSz, isDir)
  {
    hide Wf, FoundAs, NoText, HitText, DirBuffer, View, GeometryOk, Mirrored, Sealed, Entries;
    ghost var v := fs.vol.V();
    RootIsDir(v, fs.lay);
    var hit, off, slot := ScanRoot(fs, text, v.data[ROOT]);
    if !hit {
      NotInRoot(v, fs.lay, text);
      return false, 0, 0, false;
    }
    FoundEntry(v, fs.lay, ROOT, 0, off, text);
    return true, U16(slot, 26), U32(slot, 28), DirBit(slot[11]);
  }

  /** The same loop matching the 11 packed bytes. */
  method ScanRootShort(fs: Fat, short11: seq<byte>, ghost b: seq<byte>) returns (found: bool, off: nat, slot: seq<byte>)
    requires fs.vol.Ok() && b == fs.vol.V().data[ROOT] && DirBuffer(b) && CleanSlots(b) && Regular(short11)
    ensures found ==> HitText(b, off, Dotted(short11)) && off + 32 <= |b| && slot == b[off..off + 32]
    ensures !found ==> NoText(b, |b|, Dotted(short11))
  {
    hide DirBuffer, CleanSlots, NoText, HitText, View, GeometryOk, Mirrored, Sealed, NoShort, HitShort, Clean,
         Regular, Dotted;
    RegularIsClean(short11);
    NoTextYet(b, Dotted(short11));
    off, slot := 0, [];
    var s := 0;
    while s < fs.vol.g.rootSectors
      invariant 0 <= s <= fs.vol.g.rootSectors
      invariant NoText(b, s * SECTOR, Dotted(short11))
    {
      var sec := RootSector(fs, s);
      SectorOfRoot(b, s);
      var hit, o, ended := ScanShort(sec, short11);
      RootShort(b, s, sec, short11, hit, o, ended);
      if hit {
        return true, s * SECTOR + o, sec[o..o + 32];
      }
      if ended {
        return false, 0, [];
      }
      s := s + 1;
    }
    found := false;
  }

  /** The entry of directory `dirCluster` (the root when `atRoot`) stored under these 11 bytes. */
  method FindShortEntryWithOffset(fs: Fat, dirCluster: nat, short11: seq<byte>, atRoot: bool)
    returns (found: bool, entryCl: nat, entryOff: nat, startCl: nat, fileSz: nat, attr: byte)
    requires fs.Valid() && !fs.vol.g.wide && dirCluster in fs.lay.names && (atRoot <==> dirCluster == ROOT)
    requires dirCluster != ROOT ==> dirCluster >= 2
    requires Regular(short11)
    ensures found <==> Entry(fs.lay, Key(dirCluster, Dotted(short11)))
    ensures found ==> At(fs.lay, Key(dirCluster, Dotted(short11))) == Pos(entryCl, entryOff)
    ensures found ==> IsSlot(fs.vol.V(), fs.lay, Key(dirCluster, Dotted(short11)), startCl, fileSz, attr)
    ensures found ==> EntryOk(fs.vol.V(), fs.lay, Key(dirCluster, Dotted(short11))) && (atRoot || entryCl >= 2)
  {
    hide Wf, FoundAs, IsSlot, NoText, HitText, CleanSlots, DirBuffer, Regular, Dotted, View, GeometryOk, Mirrored,
         Sealed, Entries;
    ghost var v := fs.vol.V();
    RegularIsClean(short11);
    ghost var text := Dotted(short11);
    RegularNotDot(short11);
    if atRoot {
      RootIsDir(v, fs.lay);
      DirClean(v, fs.lay, ROOT, 0);
      var hit, off, slot := ScanRootShort(fs, short11, v.data[ROOT]);
      if !hit {
        NotInRoot(v, fs.lay, text);
        return false, 0, 0, 0, 0, 0;
      }
      FoundEntry(v, fs.lay, ROOT, 0, off, text);
      return true, 0, off, U16(slot, 26), U32(slot, 28), slot[11];
    }
    found, entryCl, entryOff, startCl, fileSz, attr := fs.FindShortEntryInDir(dirCluster, short11, v, text);
  }

  /** The root insertion: first free slot of the fixed root area; the recorded size is always 0. */
  method AddEntryToRoot(fs: Fat, short11: seq<byte>, start: nat, isDir: bool) returns (ok: bool)
    requires fs.Valid() && !fs.vol.g.wide
    requires Naming(fs.vol.V(), fs.lay, ROOT, short11, if isDir then 0x10 else 0x20, start, 0)
    modifies fs`lay, fs.vol.disk
    ensures fs.Valid() && fs.lay.names.Keys == old(fs.lay.names.Keys)
    ensures ok ==> fs.Names() == old(fs.Names())[Key(ROOT, Dotted(short11)) :=
                     old(HeadNode(fs.vol.V(), fs.lay, if isDir then 0x10 else 0x20, start, 0))]
    ensures !ok ==> fs.Names() == old(fs.Names()) && Taken(fs.vol.V().data[ROOT], |fs.vol.V().data[ROOT]|)
  {
    hide Wf, Naming, Tree, Rooted, HeadNode, Dotted, Added, View, GeometryOk, Mirrored, Sealed, Taken, FreeAt,
         NewSlot, Splice, DirBuffer;
    ghost var v, lay0 := fs.vol.V(), fs.lay;
    ghost var b := v.data[ROOT];
    RootIsDir(v, lay0);
    NamingName(v, lay0, ROOT, short11, if isDir then 0x10 else 0x20, start, 0);
    TakenNone(b);
    var s := 0;
    while s < fs.vol.g.rootSectors
      invariant 0 <= s <= fs.vol.g.rootSectors && fs.vol.Ok() && fs.vol.V() == v && fs.lay == lay0
      invariant Taken(b, s * SECTOR)
    {
      var sec := RootSector(fs, s);
      var off := ScanFree(sec);
      RootTaken(b, s, off);
      if off < SECTOR {
        var slot := NewSlot(false, sec[off..off + 32], short11, if isDir then 0x10 else 0x20, start, 0);
        RootFree(v, lay0, s, off);
        RootSplice(b, s, off, slot);
        fs.vol.WriteRootSector(s, Splice(sec, off, slot));
        fs.lay := Inserted(v, fs.vol.V(), lay0, ROOT, 0, ROOT, s * SECTOR + off, short11,
                           if isDir then 0x10 else 0x20, start, 0);
        AddedMeans(fs.vol.V(), fs.lay, v, lay0, ROOT, short11, if isDir then 0x10 else 0x20, start, 0);
        NamingStart(v, lay0, ROOT, short11, if isDir then 0x10 else 0x20, start, 0);
        RootedHead(Tree(v, lay0), v, lay0, Key(ROOT, Dotted(short11)), if isDir then 0x10 else 0x20, start, 0, fs.root);
        return true;
      }
      s := s + 1;
    }
    return false;
  }

  /** A name looked up in the root area or in a directory chain. */
  method LookUp(fs: Fat, dirCl: nat, atRoot: bool, text: CString)
    returns (found: bool, start: nat, size: nat, isDir: bool)
    requires fs.Valid() && !fs.vol.g.wide && !IsDot(text)
    requires dirCl in fs.lay.names && (atRoot <==> dirCl == ROOT) && (atRoot || dirCl >= 2)
    ensures found <==> Key(dirCl, text) in fs.Names()
    ensures !found ==> !Entry(fs.lay, Key(dirCl, text))
    ensures found && isDir ==> fs.Names()[Key(dirCl, text)] == Dir(start) && 2 <= start < 65536 && start in fs.lay.names
    ensures found && !isDir ==> fs.Names()[Key(dirCl, text)] == File(size, ChainBytes(fs.vol.V(), fs.lay, start))
    ensures found && !isDir ==> start == 0 || (start >= 2 && start in fs.lay.chains)
  {
    hide Wf, FoundAs, View, GeometryOk, Mirrored, Sealed, Tree, Rooted, ChainBytes;
    if atRoot {
      found, start, size, isDir := FindShortNameInRoot(fs, text);
    } else {
      found, start, size, isDir := fs.FindShortNameInDirCluster(dirCl, text);
    }
    LookedUp(fs.vol.V(), fs.lay, Key(dirCl, text), found, start, size, isDir);
    if found { SmallStart(fs.vol.V(), fs.lay, Key(dirCl, text), start, size, isDir); }
  }

  lemma SmallStart(v: Vol, lay: Layout, k: Key, start: nat, size: nat, isDir: bool)
    requires !v.wide && FoundAs(v, lay, k, start, size, isDir)
    ensures start < 65536
  {
  }

  /** The component loop of ReadFile and WriteFile: descends to the parent directory of the last component. */
  method WalkToParent(fs: Fat, path: CString) returns (ok: bool, dirCl: nat, atRoot: bool, finalName: CString)
    requires fs.Valid() && !fs.vol.g.wide && NoDots(Components(path))
    ensures ok <==> ParentDir(fs.Names(), ROOT, Components(path)).Some?
    ensures ok ==> ParentDir(fs.Names(), ROOT, Components(path)) == Some(dirCl)
    ensures ok ==> Components(path) != [] && finalName == FinalName(Components(path))
    ensures ok ==> dirCl in fs.lay.names && (atRoot <==> dirCl == ROOT) && (atRoot || dirCl >= 2)
  {
    hide Wf, FoundAs, View, GeometryOk, Mirrored, Sealed, Tree, Rooted, Walk, Components, Run, Rest;
    ghost var t := fs.Names();
    ghost var cs := Components(path);
    var p: CString := path;
    dirCl, atRoot, ok, finalName := ROOT, true, false, [];
    WalkStart(t, ROOT, cs);
    while p != []
      invariant dirCl in fs.lay.names && (atRoot <==> dirCl == ROOT) && (atRoot || dirCl >= 2)
      invariant !ok && NoDots(Components(p)) && Onward(t, ROOT, cs, dirCl, Components(p))
      decreases |p|
    {
      var comp, rest := NextComponent(p);
      if comp == [] {
        assert Components(p) == Components(rest);
        p := rest;
        continue;
      }
      var isLast := OnlySlashes(rest);
      OnwardHead(t, ROOT, cs, dirCl, comp, Components(rest));
      if isLast {
        return true, dirCl, atRoot, comp;
      }
      var found, childCl, childSz, isDir := LookUp(fs, dirCl, atRoot, comp);
      OnwardNext(t, ROOT, cs, dirCl, comp, Components(rest));
      if !found || !isDir {
        return;
      }
      dirCl, atRoot := childCl, false;
      p := rest;
    }
    OnwardEnd(t, ROOT, cs, dirCl);
  }

  method ReadFile(fs: Fat, path: CString, maxLen: nat) returns (r: Option<seq<byte>>)
    requires fs.Valid() && !fs.vol.g.wide && NoDots(PathComponents(path))
    requires maxLen + ClusterSize(fs.vol.g) < U32_LIMIT
    ensures r == if fs.mounted then ReadPath(fs.Names(), ROOT, PathComponents(path), maxLen) else None
  {
    hide Wf, FoundAs, View, GeometryOk, Mirrored, Sealed, Tree, Rooted, Walk, Components, ClusterSize;
    if !fs.mounted || path == [] || path[0] != SLASH {
      return None;
    }
    var ok, dirCl, atRoot, comp := WalkToParent(fs, path[1..]);
    if !ok {
      return None;
    }
    FinalNotDot(Components(path[1..]));
    var found, startCl, fileSz, isDir := LookUp(fs, dirCl, atRoot, comp);
    if !found || isDir {
      return None;
    }
    var out := fs.ReadChain(startCl, fileSz, maxLen);
    return Some(out);
  }

  /** Finds the entry in the root area again and rewrites its size field in that sector. */
  method StoreSizeInRoot(fs: Fat, short11: seq<byte>, size: nat, ghost k: Key) returns (ok: bool)
    requires fs.Valid() && !fs.vol.g.wide && EntryOk(fs.vol.V(), fs.lay, k)
             && !DirBit(EntrySlot(fs.vol.V(), fs.lay, k)[11])
    requires Regular(short11) && k == Key(ROOT, Dotted(short11))
    requires Head(fs.vol.V(), fs.lay, k) != 0 || size % U32_LIMIT == 0 || fs.lay.lost != NOBODY
    modifies fs`lay, fs.vol.disk
    ensures ok && fs.Valid() && fs.lay.names.Keys == old(fs.lay.names.Keys) && fs.lay.lost == old(fs.lay.lost)
    ensures fs.Names() == old(fs.Names())[k := File(size % U32_LIMIT,
                                                    old(ChainBytes(fs.vol.V(), fs.lay, Head(fs.vol.V(), fs.lay, k))))]
  {
    hide Wf, View, GeometryOk, Mirrored, Sealed, Tree, Rooted, Entries, ChainBytes, StartOf, SizeOf, Splice, Le32;
    hide DirBuffer, CleanSlots, Regular, Dotted, HitText, NoText, IsSlot, FoundAs;
    ghost var v, lay0 := fs.vol.V(), fs.lay;
    ghost var b := v.data[ROOT];
    RootIsDir(v, lay0);
    DirClean(v, lay0, ROOT, 0);
    var found, off, slot := ScanRootShort(fs, short11, b);
    if !found {
      NotInRoot(v, lay0, k.name);
      assert false;
      return false;
    }
    FoundEntry(v, lay0, ROOT, 0, off, k.name);
    RootOffset(off, |b|, fs.vol.g.rootSectors);
    var s, o := off / SECTOR, off % SECTOR;
    var sec := RootSector(fs, s);
    RootSplice(b, s, o + 28, Le32(size));
    fs.vol.WriteRootSector(s, Splice(sec, o + 28, Le32(size)));
    fs.lay := SizeWritten(v, fs.vol.V(), lay0, k, size);
    RootedFile(Tree(v, lay0), k, File(size % U32_LIMIT, ChainBytes(v, lay0, Head(v, lay0, k))), fs.root);
    ok := true;
  }

  /** Appends `data` to the file a path names, or creates the file. */
  method WriteFile(fs: Fat, path: CString, data: seq<byte>) returns (r: Option<nat>)
    requires fs.Valid() && !fs.vol.g.wide && NoDots(PathComponents(path)) && |data| < U32_LIMIT
    modifies fs`lay, fs.vol.disk
    ensures fs.Valid() && fs.lay.names.Keys == old(fs.lay.names.Keys)
    ensures r.Some? ==> fs.mounted && r.value == |data| && WriteKey(old(fs.Names()), ROOT, PathComponents(path)).Some?
    ensures r.Some? ==> Stored(false, old(fs.Names()), fs.Names(),
                               WriteKey(old(fs.Names()), ROOT, PathComponents(path)).value, data, ClusterSize(fs.vol.g))
    ensures r.Some? && Startless(old(fs.Names()), WriteKey(old(fs.Names()), ROOT, PathComponents(path)).value) ==>
              2 <= fs.vol.V().fat[0] < Eoc(fs.vol.g)
    ensures r.None? ==> Unseen(false, old(fs.Names()), fs.Names(),
                               WriteKey(old(fs.Names()), ROOT, PathComponents(path)),
                               ClusterSize(fs.vol.g))
    ensures r.None? ==> Refused(fs.mounted, data, old(fs.Names()),
                                WriteKey(old(fs.Names()), ROOT, PathComponents(path)), fs.vol.V())
  {
    hide Wf, View, GeometryOk, Mirrored, Sealed, Tree, Rooted, Walk, Components, Entries, ChainBytes, StartOf, SizeOf,
         ClusterSize;
    hide Stored, Unseen, Refused, Startless, Hidden, Holds, Growing, Appended, Naming, HeadNode, NoneFree, Taken,
         IsSlot, Regular, Dotted, Pack, Accepted;
    ghost var t0 := fs.Names();
    ghost var target := WriteKey(t0, ROOT, PathComponents(path));
    ghost var n := ClusterSize(fs.vol.g);
    SameUnseen(false, t0, target, n);
    if !fs.mounted || |data| == 0 || path == [] || path[0] != SLASH {
      RefusedEarly(fs.mounted, data, t0, target, fs.vol.V());
      return None;
    }
    var ok, dirCl, atRoot, finalName := WalkToParent(fs, path[1..]);
    if !ok {
      RefusedEarly(fs.mounted, data, t0, target, fs.vol.V());
      return None;
    }
    var short11, ok83 := PackShortName11(finalName);
    if !ok83 {
      RefusedEarly(fs.mounted, data, t0, target, fs.vol.V());
      return None;
    }
    PackRegular(finalName);
    ghost var k := Key(dirCl, Dotted(short11));
    assert target == Some(k);
    var exists_, entryCl, entryOff, startCl, fileSz, attr := FindShortEntryWithOffset(fs, dirCl, short11, atRoot);
    if !exists_ {
      NotStartless(fs.vol.V(), fs.lay, k);
      var done := CreateEntry(fs, dirCl, short11, atRoot, data);
      return if done then Some(|data|) else None;
    }
    if DirBit(attr) {
      EntryIsDir(fs.vol.V(), fs.lay, k, startCl, fileSz, attr);
      RefusedDir(fs.mounted, data, t0, k, fs.vol.V());
      return None;
    }
    var done := AppendEntry(fs, k, short11, atRoot, entryCl, entryOff, startCl, fileSz, attr, data);
    return if done then Some(|data|) else None;
  }

  /** The branch of WriteFile for a name the directory does not hold yet. */
  method CreateEntry(fs: Fat, dirCl: nat, short11: seq<byte>, atRoot: bool, data: seq<byte>) returns (ok: bool)
    requires fs.Valid() && !fs.vol.g.wide && |data| > 0 && |data| < U32_LIMIT
    requires dirCl in fs.lay.names && (atRoot <==> dirCl == ROOT) && (atRoot || dirCl >= 2)
    requires Regular(short11) && short11[0] != 0xE5 && !Entry(fs.lay, Key(dirCl, Dotted(short11)))
    modifies fs`lay, fs.vol.disk
    ensures fs.Valid() && fs.lay.names.Keys == old(fs.lay.names.Keys)
    ensures ok ==> Stored(false, old(fs.Names()), fs.Names(), Key(dirCl, Dotted(short11)), data, ClusterSize(fs.vol.g))
    ensures !ok ==> Unseen(false, old(fs.Names()), fs.Names(), Some(Key(dirCl, Dotted(short11))), ClusterSize(fs.vol.g))
    ensures !ok ==> Refused(fs.mounted, data, old(fs.Names()), Some(Key(dirCl, Dotted(short11))), fs.vol.V())
  {
    hide Wf, View, GeometryOk, Mirrored, Sealed, Tree, Rooted, Entries, ChainBytes, ClusterSize;
    hide Stored, Unseen, Refused, Hidden, Holds, Naming, HeadNode, NoneFree, Taken, Regular, Dotted;
    ghost var t0, v0, lay0 := fs.Names(), fs.vol.V(), fs.lay;
    ghost var n := ClusterSize(fs.vol.g);
    NameLength(short11);
    ghost var k := Key(dirCl, Dotted(short11));
    SameUnseen(false, t0, Some(k), n);
    NotYetInTree(v0, lay0, k);
    var newCl := fs.CreateChain(data);
    if newCl < 2 {
      RefusedFull(fs.mounted, data, t0, Some(k), fs.vol.V());
      return false;
    }
    ghost var v1, lay1 := fs.vol.V(), fs.lay;
    HiddenNaming(v1, lay1, newCl, dirCl, short11);
    HiddenWhole(v1, lay1, newCl, n);
    if atRoot {
      ok := AddEntryToRoot(fs, short11, newCl, false);
      if ok {
        StoredNew(false, t0, fs.Names(), k, ChainBytes(v1, lay1, newCl), data, n, |lay1.chains[newCl]|);
      } else {
        RefusedFull(fs.mounted, data, t0, Some(k), fs.vol.V());
      }
    } else {
      ok := fs.AddEntryToDir(dirCl, short11, 0x20, newCl, |data|);
      if ok {
        StoredNew(false, t0, fs.Names(), k, ChainBytes(v1, lay1, newCl), data, n, |lay1.chains[newCl]|);
      } else {
        RefusedFull(fs.mounted, data, t0, Some(k), fs.vol.V());
      }
    }
  }

  /** The branch of WriteFile for a file that exists. */
  method AppendEntry(fs: Fat, ghost k: Key, short11: seq<byte>, atRoot: bool, entryCl: nat, entryOff: nat,
                     startCl: nat, fileSz: nat, attr: byte, data: seq<byte>) returns (ok: bool)
    requires fs.Valid() && !fs.vol.g.wide && |data| > 0 && |data| < U32_LIMIT && Regular(short11)
             && k.name == Dotted(short11)
    requires EntryOk(fs.vol.V(), fs.lay, k) && At(fs.lay, k) == Pos(entryCl, entryOff)
    requires IsSlot(fs.vol.V(), fs.lay, k, startCl, fileSz, attr) && !DirBit(attr)
    requires (atRoot <==> k.dir == ROOT) && (!atRoot ==> entryCl >= 2)
    modifies fs`lay, fs.vol.disk
    ensures fs.Valid() && fs.lay.names.Keys == old(fs.lay.names.Keys)
    ensures ok ==> Stored(false, old(fs.Names()), fs.Names(), k, data, ClusterSize(fs.vol.g))
    ensures !ok ==> Unseen(false, old(fs.Names()), fs.Names(), Some(k), ClusterSize(fs.vol.g))
    ensures !ok ==> Refused(fs.mounted, data, old(fs.Names()), Some(k), fs.vol.V())
    ensures ok && Startless(old(fs.Names()), k) ==> 2 <= fs.vol.V().fat[0] < Eoc(fs.vol.g)
  {
    hide Wf, View, GeometryOk, Mirrored, Sealed, Tree, Rooted, Entries, ChainBytes, StartOf, SizeOf, ClusterSize;
    hide Stored, Unseen, Refused, Startless, Growing, Appended, NoneFree, Taken, Regular, Dotted;
    ghost var t0, v0, lay0 := fs.Names(), fs.vol.V(), fs.lay;
    ghost var n := ClusterSize(fs.vol.g);
    ClusterAligned(fs.vol.g, fs.vol.disk.Length);
    FileHeads(v0, lay0, k, n);
    NoChain(v0, lay0);
    if startCl == 0 {
      ok := AppendStartless(fs, k, short11, atRoot, entryCl, entryOff, fileSz, data);
      return;
    }
    ghost var store := ChainBytes(v0, lay0, startCl);
    WholeClusters(v0, lay0, startCl, n);
    var fine, newSize := fs.AppendData(startCl, fileSz, data, k);
    ghost var v1, lay1 := fs.vol.V(), fs.lay;
    ghost var cb := ChainBytes(v1, lay1, startCl);
    GrowingFacts(v1, lay1, v0, lay0, startCl);
    GrowingTree(v1, lay1, v0, lay0, k);
    RootedFile(t0, k, File(fileSz, cb), fs.root);
    WholeClusters(v1, lay1, startCl, n);
    if !fine {
      UnseenAppend(false, t0, fs.Names(), k, cb, data, n, |lay0.chains[startCl]|);
      RefusedFull(fs.mounted, data, t0, Some(k), fs.vol.V());
      return false;
    }
    if atRoot {
      ok := StoreSizeInRoot(fs, short11, newSize, k);
    } else {
      fs.StoreSizeInDir(entryCl, entryOff, newSize, k);
      ok := true;
    }
    StoredAppend(false, t0, fs.Names(), k, cb, data, n, |lay0.chains[startCl]|, |lay1.chains[startCl]|);
  }

  /** ... and records no start cluster: the size grows, the contents do not, and entry 0 of the table is taken
      for a link. */
  method AppendStartless(fs: Fat, ghost k: Key, short11: seq<byte>, atRoot: bool, entryCl: nat, entryOff: nat,
                         fileSz: nat, data: seq<byte>) returns (ok: bool)
    requires fs.Valid() && !fs.vol.g.wide && 0 < |data| < U32_LIMIT && Regular(short11) && k.name == Dotted(short11)
    requires EntryOk(fs.vol.V(), fs.lay, k) && At(fs.lay, k) == Pos(entryCl, entryOff)
    requires !DirBit(EntrySlot(fs.vol.V(), fs.lay, k)[11]) && fileSz == SizeOf(EntrySlot(fs.vol.V(), fs.lay, k))
    requires Head(fs.vol.V(), fs.lay, k) == 0 && (atRoot <==> k.dir == ROOT) && (!atRoot ==> entryCl >= 2)
    requires k in fs.Names() && fs.Names()[k] == File(fileSz, []) && ClusterSize(fs.vol.g) > 0
    modifies fs`lay, fs.vol.disk
    ensures fs.Valid() && fs.lay.names.Keys == old(fs.lay.names.Keys)
    ensures ok ==>
          Stored(false, old(fs.Names()), fs.Names(), k, data, ClusterSize(fs.vol.g))
          && 2 <= fs.vol.V().fat[0] < Eoc(fs.vol.g)
    ensures !ok ==> Unseen(false, old(fs.Names()), fs.Names(), Some(k), ClusterSize(fs.vol.g))
    ensures !ok ==> Refused(fs.mounted, data, old(fs.Names()), Some(k), fs.vol.V())
  {
    hide Wf, View, GeometryOk, Mirrored, Sealed, Tree, Rooted, Entries, ChainBytes, StartOf, SizeOf, ClusterSize,
         DirBit;
    hide Stored, Unseen, Refused, NoneFree, Taken, Regular, Dotted, Holds;
    ghost var t0, v0, lay0 := fs.Names(), fs.vol.V(), fs.lay;
    ghost var n := ClusterSize(fs.vol.g);
    NoChain(v0, lay0);
    SameUnseen(false, t0, Some(k), n);
    var fine, newSize := fs.AppendLost(fileSz, data, k);
    if !fine {
      RefusedFull(fs.mounted, data, t0, Some(k), fs.vol.V());
      return false;
    }
    StillFile(v0, lay0, fs.vol.V(), fs.lay, k);
    if atRoot {
      ok := StoreSizeInRoot(fs, short11, newSize, k);
    } else {
      fs.StoreSizeInDir(entryCl, entryOff, newSize, k);
      ok := true;
    }
    MediaReads(fs.vol.V(), fs.lay);
    StoredStartless(false, t0, fs.Names(), k, data, n);
  }

  /** Zeroes a fresh cluster and writes its "." and ".." entries. */
  method InitDirCluster(fs: Fat, newCluster: nat, parentCluster: nat)
    requires fs.vol.Ok() && !fs.vol.g.wide && 2 <= newCluster < Entries(fs.vol.g) && ClusterSize(fs.vol.g) >= 64
    modifies fs.vol.disk
    ensures fs.vol.Ok()
    ensures fs.vol.V() == old(fs.vol.V()).(data := old(fs.vol.V()).data[newCluster :=
              DirImage(false, newCluster, parentCluster, ClusterSize(fs.vol.g))])
  {
    hide View, GeometryOk, Mirrored, Sealed, NewSlot, Entries;
    fs.vol.ZeroCluster(newCluster);
    var sec := NewSlot(false, Zeros(32), DOT, 0x10, newCluster, 0) +
               NewSlot(false, Zeros(32), DOT_DOT, 0x10, parentCluster, 0) + Zeros(SECTOR - 64);
    fs.vol.WriteFirstSector(newCluster, sec);
    DirImageSplice(newCluster, parentCluster, ClusterSize(fs.vol.g), sec);
  }

  /** Creates directory `comp` under `curCl` (the root when `atRoot`); 0 when there is no room. */
  method MakeDirectory(fs: Fat, curCl: nat, atRoot: bool, comp: CString, short11: seq<byte>) returns (newCl: nat)
    requires fs.Valid() && !fs.vol.g.wide && curCl in fs.lay.names && (atRoot <==> curCl == ROOT)
             && (atRoot || curCl >= 2) && curCl < 65536
    requires Regular(short11) && short11[0] != 0xE5 && Dotted(short11) == comp && !Entry(fs.lay, Key(curCl, comp))
    modifies fs`lay, fs.vol.disk
    ensures fs.Valid() && old(fs.lay.names.Keys) <= fs.lay.names.Keys
    ensures newCl == 0 ==> fs.Names() == old(fs.Names())
    ensures newCl == 0 ==> Full(fs.vol.V())
    ensures newCl != 0 ==> 2 <= newCl < 65536 && newCl in fs.lay.names
    ensures newCl != 0 ==> fs.Names() == old(fs.Names())[Key(curCl, comp) := Dir(newCl)]
  {
    hide Wf, View, GeometryOk, Mirrored, Sealed, Tree, Rooted, Entries, ClusterSize, ChainBytes, DirImage, WithHead,
         WithDir;
    hide Hidden, Naming, HeadNode, NoneFree, Taken, Regular, Dotted, Unreferenced;
    ghost var v0, lay0 := fs.vol.V(), fs.lay;
    ghost var n := ClusterSize(fs.vol.g);
    ClusterAligned(fs.vol.g, fs.vol.disk.Length);
    var cl := fs.AllocateCluster();
    if cl < 2 {
      return 0;
    }
    InitDirCluster(fs, cl, if atRoot then 0 else curCl);
    fs.lay := StartDir(v0, fs.vol.V(), lay0, cl, if atRoot then 0 else curCl, n, Mark(fs.vol.g));
    ghost var v1, lay1 := fs.vol.V(), fs.lay;
    DirNaming(v1, lay1, lay0, cl, curCl, short11);
    var ok;
    if atRoot {
      ok := AddEntryToRoot(fs, short11, cl, true);
    } else {
      ok := fs.AddEntryToDir(curCl, short11, 0x10, cl, 0);
    }
    newCl := if ok then cl else 0;
  }

  /** Creates the directories of a path that do not exist yet: the last one, or all with `parents`. */
  method Mkdir(fs: Fat, path: CString, parents: bool) returns (ok: bool)
    requires fs.Valid() && !fs.vol.g.wide && NoDots(MkdirComponents(path)) && PacksFaithfully(MkdirComponents(path))
    modifies fs`lay, fs.vol.disk
    ensures fs.Valid() && MoreDirs(old(fs.Names()), fs.Names())
    ensures ok ==> fs.mounted && Walk(fs.Names(), ROOT, MkdirComponents(path)).Some?
    ensures !ok ==> !fs.mounted || Blocked(fs.Names(), ROOT, MkdirComponents(path), parents, Full(fs.vol.V()))
    ensures !fs.mounted ==> !ok && fs.Names() == old(fs.Names())
  {
    hide Wf, View, GeometryOk, Mirrored, Sealed, Tree, Rooted, Entries, FoundAs, Full, Blocked, Regular, Dotted, Pack,
         Accepted, Canonical, Walk, Components, MoreDirs, Run, Rest, ChainBytes, PacksFaithfully, NoDots, IsDot,
         UpperAll;
    ghost var t0 := fs.Names();
    MoreSame(t0);
    if !fs.mounted {
      return false;
    }
    ghost var cs := MkdirComponents(path);
    var p: CString := if path != [] && path[0] == SLASH then path[1..] else path;
    var curCl, atRoot := ROOT, true;
    ghost var done: seq<seq<byte>> := [];
    WalkNone(t0, ROOT);
    while p != []
      invariant fs.Valid() && MoreDirs(t0, fs.Names()) && fs.mounted
      invariant curCl in fs.lay.names && (atRoot <==> curCl == ROOT) && (atRoot || curCl >= 2) && curCl < 65536
      invariant cs == done + Components(p) && Walk(fs.Names(), ROOT, done) == Some(curCl)
      decreases |p|
    {
      var comp, rest := NextComponent(p);
      if comp == [] {
        assert Components(p) == Components(rest);
        p := rest;
        continue;
      }
      ghost var t := fs.Names();
      SplitStep(cs, done, comp, Components(rest));
      WalkSnoc(t, ROOT, done, comp);
      var found, childCl, childSz, isDir := LookUp(fs, curCl, atRoot, comp);
      if found {
        if !isDir {
          BlockedHere(t, ROOT, cs, done, comp, Components(rest), curCl, parents, Full(fs.vol.V()));
          return false;
        }
        curCl, atRoot := childCl, false;
      } else {
        var final := OnlySlashes(rest);
        if !parents && !final {
          BlockedHere(t, ROOT, cs, done, comp, Components(rest), curCl, parents, Full(fs.vol.V()));
          return false;
        }
        var short11, ok83 := PackShortName11(comp);
        if !ok83 {
          BlockedHere(t, ROOT, cs, done, comp, Components(rest), curCl, parents, Full(fs.vol.V()));
          return false;
        }
        PackRegular(comp);
        PackedBack(path, |done|);
        var newCl := MakeDirectory(fs, curCl, atRoot, comp, short11);
        if newCl < 2 {
          BlockedHere(t, ROOT, cs, done, comp, Components(rest), curCl, parents, Full(fs.vol.V()));
          return false;
        }
        MoreAdd(t0, t, fs.Names(), Key(curCl, comp), newCl);
        WalkMore(t, fs.Names(), ROOT, done);
        WalkSnoc(fs.Names(), ROOT, done, comp);
        curCl, atRoot := newCl, false;
      }
      done := done + [comp];
      p := rest;
    }
    AllDone(cs, done);
    ok := true;
  }

  lemma DirImageSplice(c: nat, parent: nat, n: nat, sec: seq<byte>)
    requires n >= SECTOR
    requires sec == NewSlot(false, Zeros(32), DOT, 0x10, c, 0) + NewSlot(false, Zeros(32), DOT_DOT, 0x10, parent, 0)
                    + Zeros(SECTOR - 64)
    ensures Splice(Zeros(n), 0, sec) == DirImage(false, c, parent, n)
  {
    hide NewSlot;
  }

  /** A free slot found in sector `s` of the root is the first free slot of the root. */
  lemma RootFree(v: Vol, lay: Layout, s: nat, o: nat)
    requires Wf(v, lay) && !v.wide && 0 in lay.names && |v.data| > 0 && s * SECTOR + SECTOR <= |v.data[0]|
    requires SlotAt(v.data[0][s * SECTOR..s * SECTOR + SECTOR], o) && Taken(v.data[0], s * SECTOR + o)
    requires Free(v.data[0][s * SECTOR..s * SECTOR + SECTOR][o..o + 32])
    ensures FreeAt(v, lay, 0, 0, 0, s * SECTOR + o) && s * SECTOR + o + 32 <= |v.data[0]|
    ensures v.data[0][s * SECTOR..s * SECTOR + SECTOR][o..o + 32] == v.data[0][s * SECTOR + o..s * SECTOR + o + 32]
  {
    hide Wf;
    RootIsDir(v, lay);
    SlotOfSector(v.data[0], s, o);
  }

  lemma RootOffset(off: nat, len: nat, sectors: nat)
    requires off % 32 == 0 && off + 32 <= len && len == sectors * SECTOR
    ensures off / SECTOR < sectors && off / SECTOR * SECTOR + off % SECTOR == off && off % SECTOR + 32 <= SECTOR
  {
    SectorMul(sectors);
    SectorMul(off / 512);
    assert off / SECTOR == off / 512 && off % SECTOR == off % 512;
  }

  /** Why a write fails: nothing to write, no such target, a directory in its place, or no space left. */
  ghost predicate Refused(mounted: bool, data: seq<byte>, t0: Namespace, target: Option<Key>, v: Vol) {
    || !mounted || data == [] || target == None
    || (target.value in t0 && t0[target.value].Dir?)
    || Full(v)
  }

  /** No cluster is left to allocate, or the fixed root area has no free slot. */
  ghost predicate Full(v: Vol) {
    NoneFree(v) || (|v.data| > 0 && Taken(v.data[ROOT], |v.data[ROOT]|))
  }

  lemma RefusedEarly(mounted: bool, data: seq<byte>, t0: Namespace, target: Option<Key>, v: Vol)
    requires !mounted || data == [] || target == None
    ensures Refused(mounted, data, t0, target, v)
  {
  }

  lemma RefusedDir(mounted: bool, data: seq<byte>, t0: Namespace, k: Key, v: Vol)
    requires k in t0 && t0[k].Dir?
    ensures Refused(mounted, data, t0, Some(k), v)
  {
  }

  lemma RefusedFull(mounted: bool, data: seq<byte>, t0: Namespace, target: Option<Key>, v: Vol)
    requires NoneFree(v) || (|v.data| > 0 && Taken(v.data[ROOT], |v.data[ROOT]|))
    ensures Refused(mounted, data, t0, target, v)
  {
    hide NoneFree, Taken;
  }

  /** Appending to `k` does not overflow its 32-bit size. */
  ghost predicate Fits32(t: Namespace, k: Key, data: seq<byte>) {
    k in t && t[k].File? ==> t[k].size + |data| < U32_LIMIT
  }

  /** If `k` is a file with clusters, it ends in its last one. */
  ghost predicate Neat(t: Namespace, k: Key, n: nat) {
    k in t && t[k].File? && !Startless(t, k) ==> Tight(t[k], n)
  }

  /** What a read after a write to `k` gives: what the clusters of the file hold up to its new size. For a file that
      ends in its last cluster, or a new one outside the root, this is the old contents and the data; for a file
      without a start cluster, or a new one in the root, nothing. */
  ghost predicate ReadsBack(t0: Namespace, k: Key, data: seq<byte>, n: nat, max: nat, r: Option<seq<byte>>) {
    && n > 0 && (k in t0 ==> t0[k].File?)
    && r == Some(Cut(Contents(WrittenNode(false, t0, k, data, n)), max))
    && (k.dir == ROOT && k !in t0 ==> r == Some([]))
    && (Startless(t0, k) ==> r == Some([]))
    && ((k.dir != ROOT || k in t0) && !Startless(t0, k) && Neat(t0, k, n) && Fits32(t0, k, data) ==>
          r == Some(Cut(Text(t0, k) + data, max)))
  }

  /** The FAT16 round trip: what a path reads after a successful write to it, and every path that names another
      entry reads as before. */
  lemma WriteThenRead(t0: Namespace, t: Namespace, path: CString, data: seq<byte>, n: nat, max: nat,
                      other: seq<seq<byte>>)
    requires var cs := PathComponents(path);
             && cs != [] && Canonical(FinalName(cs)) && WriteKey(t0, ROOT, cs).Some?
             && Stored(false, t0, t, WriteKey(t0, ROOT, cs).value, data, n)
    ensures var cs := PathComponents(path);
            var k := WriteKey(t0, ROOT, cs).value;
            && WriteKey(t, ROOT, cs) == Some(k) && ReadsBack(t0, k, data, n, max, ReadPath(t, ROOT, cs, max))
            && (ReadKey(t0, ROOT, other) != Some(k) ==> ReadPath(t, ROOT, other, max) == ReadPath(t0, ROOT, other, max))
  {
    hide Components, Canonical, Accepted, Pack, Dotted, Walk, Contents, Cut, Tight, UpperAll, WrittenNode,
         AppendsExactly, Stored;
    var cs := PathComponents(path);
    var k := WriteKey(t0, ROOT, cs).value;
    ComponentsUpper(path[1..], |cs| - 1);
    StoredMeans(false, t0, t, k, data, n);
    StoredNode(false, t0, t, k, data, n);
    ReadAfterWrite(t0, ROOT, cs, t[k], max, other);
    NoContents(t, k, max);
    if k in t0 {
      NarrowExactly(t0, k, n);
    } else {
      assert [] + data == data;
    }
  }

  /** A successful write, read back through the same path. */
  method WriteAndRead(fs: Fat, path: CString, data: seq<byte>, maxLen: nat)
    returns (w: Option<nat>, r: Option<seq<byte>>)
    requires fs.Valid() && !fs.vol.g.wide && NoDots(PathComponents(path)) && |data| < U32_LIMIT
    requires maxLen + ClusterSize(fs.vol.g) < U32_LIMIT
    requires PathComponents(path) != [] ==> Canonical(FinalName(PathComponents(path)))
    modifies fs`lay, fs.vol.disk
    ensures fs.Valid()
    ensures w.Some? ==>
              && WriteKey(old(fs.Names()), ROOT, PathComponents(path)).Some?
              && ReadsBack(old(fs.Names()), WriteKey(old(fs.Names()), ROOT, PathComponents(path)).value, data,
                           ClusterSize(fs.vol.g), maxLen, r)
  {
    hide Wf, View, GeometryOk, Mirrored, Sealed, Tree, Rooted, Walk, Components, ClusterSize;
    hide Stored, Unseen, Refused, Startless, Canonical, Accepted, Pack, Dotted, ReadPath, ReadsBack;
    ghost var t0, n := fs.Names(), ClusterSize(fs.vol.g);
    w := WriteFile(fs, path, data);
    if w.None? {
      return None, None;
    }
    WriteThenRead(t0, fs.Names(), path, data, n, maxLen, []);
    r := ReadFile(fs, path, maxLen);
  }

  /** A new file in the root reads back as empty, whatever was written. After a second write it reads back as the
      beginning of its clusters: the first write, cut to the length of the second. */
  lemma RootWriteIsLost(t0: Namespace, t1: Namespace, t2: Namespace, path: CString, d1: seq<byte>, d2: seq<byte>,
                        n: nat, max: nat)
    requires var cs := PathComponents(path);
             && cs != [] && Canonical(FinalName(cs)) && WriteKey(t0, ROOT, cs).Some?
             && var k := WriteKey(t0, ROOT, cs).value;
                && k.dir == ROOT && k !in t0 && Stored(false, t0, t1, k, d1, n) && Stored(false, t1, t2, k, d2, n)
    ensures ReadPath(t1, ROOT, PathComponents(path), max) == Some([])
    ensures ReadPath(t2, ROOT, PathComponents(path), max) == Some(Cut((InClusters(d1, n) + d2)[..|d2|], max))
    ensures |d2| <= |d1| ==> ReadPath(t2, ROOT, PathComponents(path), max) == Some(Cut(d1[..|d2|], max))
  {
    hide Components, Canonical, Accepted, Pack, Dotted, Walk, WriteKey, ReadPath, Stored;
    var k := WriteKey(t0, ROOT, PathComponents(path)).value;
    WriteThenRead(t0, t1, path, d1, n, max, []);
    WriteThenRead(t1, t2, path, d2, n, max, []);
    StoredMeans(false, t1, t2, k, d2, n);
    SecondRootWrite(t0, t1, k, d1, d2, n);
  }

  lemma FirstInClusters(d: seq<byte>, n: nat)
    requires n > 0 && d != []
    ensures n <= |InClusters(d, n)| && d <= InClusters(d, n)
  {
    if |d| < n { assert |d| % n == |d|; }
  }

  lemma SecondRootWrite(t0: Namespace, t1: Namespace, k: Key, d1: seq<byte>, d2: seq<byte>, n: nat)
    requires k.dir == ROOT && k !in t0 && Stored(false, t0, t1, k, d1, n) && 0 < |d2| < U32_LIMIT
    ensures k in t1 && t1[k].File?
    ensures Contents(WrittenNode(false, t1, k, d2, n)) == (InClusters(d1, n) + d2)[..|d2|]
    ensures |d2| <= |d1| ==> (InClusters(d1, n) + d2)[..|d2|] == d1[..|d2|]
  {
    hide InClusters;
    var store := InClusters(d1, n);
    FirstInClusters(d1, n);
    assert Placed(store, 0, n, false, d2, |d2|) == store + d2;
    CutInClusters(store + d2, n, |d2|);
  }

  datatype Op = Write(path: CString, data: seq<byte>) | MakeDir(path: CString, parents: bool)

  ghost predicate OpOk(op: Op) {
    match op
    case Write(path, data) => NoDots(PathComponents(path)) && |data| < U32_LIMIT
    case MakeDir(path, parents) => NoDots(MkdirComponents(path)) && PacksFaithfully(MkdirComponents(path))
  }

  /** What one call does to the tree. */
  ghost predicate Step(t0: Namespace, t: Namespace, op: Op, ok: bool, n: nat) {
    match op
    case Write(path, data) =>
      var target := WriteKey(t0, ROOT, PathComponents(path));
      if ok then target.Some? && Stored(false, t0, t, target.value, data, n) else Unseen(false, t0, t, target, n)
    case MakeDir(path, parents) =>
      MoreDirs(t0, t) && (ok ==> Walk(t, ROOT, MkdirComponents(path)).Some?)
  }

  /** The trees a run passes through, call by call. */
  ghost predicate Trace(ts: seq<Namespace>, ops: seq<Op>, oks: seq<bool>, n: nat) {
    |ts| == |ops| + 1 && |oks| == |ops| && forall i | 0 <= i < |ops| :: Step(ts[i], ts[i + 1], ops[i], oks[i], n)
  }

  method RunOne(fs: Fat, op: Op) returns (ok: bool)
    requires fs.Valid() && !fs.vol.g.wide && OpOk(op)
    modifies fs`lay, fs.vol.disk
    ensures fs.Valid() && Step(old(fs.Names()), fs.Names(), op, ok, ClusterSize(fs.vol.g))
  {
    hide Wf, View, GeometryOk, Mirrored, Sealed, Tree, Rooted, Stored, Unseen, Refused, MoreDirs, ClusterSize, Walk,
         Components;
    match op {
      case Write(path, data) =>
        var r := WriteFile(fs, path, data);
        ok := r.Some?;
      case MakeDir(path, parents) =>
        ok := Mkdir(fs, path, parents);
    }
  }

  /** Any run of writes and directory creations, failing ones included, keeps the volume well formed, and
      every call moves the tree by one Step. */
  method RunAll(fs: Fat, ops: seq<Op>) returns (oks: seq<bool>, ghost ts: seq<Namespace>)
    requires fs.Valid() && !fs.vol.g.wide && (forall op | op in ops :: OpOk(op))
    modifies fs`lay, fs.vol.disk
    ensures fs.Valid()
    ensures Trace(ts, ops, oks, ClusterSize(fs.vol.g)) && ts[0] == old(fs.Names()) && ts[|ops|] == fs.Names()
  {
    hide Wf, View, GeometryOk, Mirrored, Sealed, Tree, Rooted, Step, OpOk, ClusterSize;
    ghost var n := ClusterSize(fs.vol.g);
    oks, ts := [], [fs.Names()];
    for i := 0 to |ops|
      invariant fs.Valid() && |oks| == i && |ts| == i + 1
      invariant ts[0] == old(fs.Names()) && ts[i] == fs.Names()
      invariant forall j | 0 <= j < i :: Step(ts[j], ts[j + 1], ops[j], oks[j], n)
    {
      assert OpOk(ops[i]);
      var ok := RunOne(fs, ops[i]);
      oks, ts := oks + [ok], ts + [fs.Names()];
    }
  }

  /** The call is not a failed write to `k`, nor one that overflows its 32-bit size. */
  ghost predicate CleanOp(t: Namespace, op: Op, ok: bool, k: Key) {
    op.Write? && WriteKey(t, ROOT, PathComponents(op.path)) == Some(k) ==> ok && Fits32(t, k, op.data)
  }

  /** Everything the run wrote to `k`, in order. */
  ghost function Written(ts: seq<Namespace>, ops: seq<Op>, k: Key): seq<byte>
    requires |ts| == |ops| + 1
  {
    if ops == [] then []
    else
      var m := |ops| - 1;
      Written(ts[..m + 1], ops[..m], k) + Adds(ts[m], ops[m], k)
  }

  ghost function Adds(t: Namespace, op: Op, k: Key): seq<byte> {
    if op.Write? && WriteKey(t, ROOT, PathComponents(op.path)) == Some(k) then op.data else []
  }

  lemma StepText(t0: Namespace, t: Namespace, op: Op, n: nat, k: Key, ok: bool)
    requires Step(t0, t, op, ok, n) && CleanOp(t0, op, ok, k) && Neat(t0, k, n) && k.dir != ROOT
    ensures Neat(t, k, n) && (Startless(t, k) <==> Startless(t0, k))
    ensures Text(t, k) == if Startless(t0, k) then [] else Text(t0, k) + Adds(t0, op, k)
  {
    hide Walk, Components, Contents, Tight, WriteKey, Stored, AppendsExactly;
    NoContents(t, k, 0);
    assert Text(t0, k) + [] == Text(t0, k) && [] + Adds(t0, op, k) == Adds(t0, op, k);
    if op.Write? && ok {
      var x := WriteKey(t0, ROOT, PathComponents(op.path)).value;
      StoredMeans(false, t0, t, x, op.data, n);
      if x == k && k in t0 { NarrowExactly(t0, k, n); }
    }
  }

  /** The round trip over whole runs: a file outside the root, no write to which failed, ends up holding what it held at
      the start followed by everything written to it, in order. A file that started without a start cluster ends
      up empty. */
  lemma {:induction false} RunContents(ts: seq<Namespace>, ops: seq<Op>, oks: seq<bool>, n: nat, k: Key)
    requires Trace(ts, ops, oks, n) && Neat(ts[0], k, n) && k.dir != ROOT
    requires forall i | 0 <= i < |ops| :: CleanOp(ts[i], ops[i], oks[i], k)
    ensures Neat(ts[|ops|], k, n)
    ensures Startless(ts[|ops|], k) <==> Startless(ts[0], k)
    ensures Text(ts[|ops|], k) == if Startless(ts[0], k) then [] else Text(ts[0], k) + Written(ts, ops, k)
  {
    hide Step, CleanOp, Neat, Text, Adds, Startless;
    if ops != [] {
      var m := |ops| - 1;
      RunContents(ts[..m + 1], ops[..m], oks[..m], n, k);
      StepText(ts[m], ts[m + 1], ops[m], n, k, oks[m]);
      assert Text(ts[0], k) + Written(ts[..m + 1], ops[..m], k) + Adds(ts[m], ops[m], k)
          == Text(ts[0], k) + Written(ts, ops, k);
    } else {
      assert Text(ts[0], k) + [] == Text(ts[0], k);
      StartlessText(ts[0], k);
    }
  }

  lemma StartlessText(t: Namespace, k: Key)
    ensures Startless(t, k) ==> Text(t, k) == []
  {
  }
}

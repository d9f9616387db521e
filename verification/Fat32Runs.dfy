/** Whole runs of FAT32 calls, and the check a caller can make before each of them. */
module Fat32Runs {
  import opened Bytes
  import opened ShortName
  import opened FatVolume
  import opened FatSteps
  import opened FatLink
  import opened FatFile
  import opened FatTree
  import opened FatImage
  import opened FatScan
  import opened FatDevice
  import opened FatInsert
  import opened FatMove
  import opened FatWalk
  import opened FatWrite
  import opened FatDriver
  import opened Fat32

  // ---- Does a path meet a file on the way? ----

  lemma NoFilesHead(t: Namespace, d: nat, comp: seq<byte>, rest: seq<seq<byte>>)
    ensures NoFiles(t, d, [comp] + rest) <==>
            (Key(d, comp) in t ==> t[Key(d, comp)].Dir? && NoFiles(t, t[Key(d, comp)].head, rest))
    ensures NoDots([comp] + rest) ==> !IsDot(comp) && NoDots(rest)
  {
    assert ([comp] + rest)[0] == comp && ([comp] + rest)[1..] == rest;
    assert forall i | 0 <= i < |rest| :: rest[i] == ([comp] + rest)[i + 1];
  }

  lemma NoFilesNone(t: Namespace, d: nat)
    ensures NoFiles(t, d, Components([])) && ThroughDirs(t, d, Components([]))
  {
  }

  lemma ThroughHead(t: Namespace, d: nat, comp: seq<byte>, rest: seq<seq<byte>>)
    ensures ThroughDirs(t, d, [comp] + rest) <==>
            (rest == [] || (Key(d, comp) in t ==> t[Key(d, comp)].Dir? && ThroughDirs(t, t[Key(d, comp)].head, rest)))
    ensures NoDots([comp] + rest) ==> !IsDot(comp) && NoDots(rest)
  {
    var cs := [comp] + rest;
    if rest != [] {
      assert cs[..|cs| - 1] == [comp] + rest[..|rest| - 1];
      NoFilesHead(t, d, comp, rest[..|rest| - 1]);
    }
    NoFilesHead(t, d, comp, rest);
  }

  /** Whether every entry met on the way to a directory is a directory. */
  method CheckDirs(fs: Fat, path: CString) returns (clear: bool)
    requires fs.Valid() && fs.vol.g.wide && NoDots(MkdirComponents(path))
    ensures clear <==> NoFiles(fs.Names(), fs.root, MkdirComponents(path))
  {
    hide Wf, FoundAs, View, GeometryOk, Mirrored, Sealed, Tree, Rooted, Components, Run, Rest, NoFiles, NoDots;
    ghost var t := fs.Names();
    var p: CString := if path != [] && path[0] == SLASH then path[1..] else path;
    var dirCl := fs.root;
    while p != []
      invariant dirCl in fs.lay.names && dirCl >= 2 && NoDots(Components(p))
      invariant NoFiles(t, dirCl, Components(p)) <==> NoFiles(t, fs.root, MkdirComponents(path))
      decreases |p|
    {
      var comp, rest := NextComponent(p);
      if comp == [] {
        assert Components(p) == Components(rest);
        p := rest;
        continue;
      }
      NoFilesHead(t, dirCl, comp, Components(rest));
      var found, childCl, childSz, isDir := fs.FindShortNameInDirCluster(dirCl, comp);
      LookedUp(fs.vol.V(), fs.lay, Key(dirCl, comp), found, childCl, childSz, isDir);
      if !found || !isDir {
        return !found;
      }
      dirCl := childCl;
      p := rest;
    }
    NoFilesNone(t, dirCl);
    clear := true;
  }

  /** The same for the parent of an absolute path. */
  method CheckParent(fs: Fat, path: CString) returns (clear: bool)
    requires fs.Valid() && fs.vol.g.wide && NoDots(PathComponents(path))
    ensures clear <==> ThroughDirs(fs.Names(), fs.root, PathComponents(path))
  {
    hide Wf, FoundAs, View, GeometryOk, Mirrored, Sealed, Tree, Rooted, Components, Run, Rest, NoDots;
    ghost var t := fs.Names();
    if path == [] || path[0] != SLASH {
      return true;
    }
    hide ThroughDirs;
    var p: CString := path[1..];
    var dirCl := fs.root;
    while p != []
      invariant dirCl in fs.lay.names && dirCl >= 2 && NoDots(Components(p))
      invariant ThroughDirs(t, dirCl, Components(p)) <==> ThroughDirs(t, fs.root, PathComponents(path))
      decreases |p|
    {
      var comp, rest := NextComponent(p);
      if comp == [] {
        assert Components(p) == Components(rest);
        p := rest;
        continue;
      }
      var isLast := OnlySlashes(rest);
      ThroughHead(t, dirCl, comp, Components(rest));
      if isLast {
        return true;
      }
      var found, childCl, childSz, isDir := fs.FindShortNameInDirCluster(dirCl, comp);
      LookedUp(fs.vol.V(), fs.lay, Key(dirCl, comp), found, childCl, childSz, isDir);
      if !found || !isDir {
        return !found;
      }
      dirCl := childCl;
      p := rest;
    }
    NoFilesNone(t, dirCl);
    clear := true;
  }

  // ---- What happens when it does ----

  /** Rewriting any cluster of a growing file. */
  lemma GrowCluster(v: Vol, w: Vol, lay: Layout, v0: Vol, lay0: Layout, h: nat, i: nat, buf: seq<byte>)
    requires Growing(v, lay, v0, lay0, h) && i < |lay.chains[h]| && lay.chains[h][i] < |v.data|
    requires w == v.(data := v.data[lay.chains[h][i] := buf])
    ensures Growing(w, lay, v0, lay0, h)
  {
    hide WfDirs, WfRefs, Unique, OthersKept;
    KeptWide(v0, lay0, v, lay, h);
    assert lay.own[lay.chains[h][i]] == Owner(h, i);
    RewriteFile(v, w, lay, h);
    KeptTrans(v0, lay0, v, lay, w, lay, h);
  }

  /** A byte changed in one cluster shows in the bytes of the chain. */
  lemma ChainDiffers(v: Vol, w: Vol, lay: Layout, h: nat, i: nat, buf: seq<byte>, off: nat)
    requires Wf(v, lay) && Wf(w, lay) && h >= 2 && h in lay.chains && i < |lay.chains[h]| && lay.chains[h][i] < |v.data|
    requires w == v.(data := v.data[lay.chains[h][i] := buf]) && |buf| == |v.data[lay.chains[h][i]]|
    requires off < |buf| && buf[off] != v.data[lay.chains[h][i]][off]
    ensures ChainBytes(w, lay, h) != ChainBytes(v, lay, h)
  {
    hide WfDirs, WfRefs, Unique, Concat;
    var s: seq<nat> := lay.chains[h];
    ChainWithin(v, lay, h);
    ChainWithin(w, lay, h);
    FrontSame(v, w, lay, h, i, buf);
    ConcatNext(v.data, s, i);
    ConcatNext(w.data, s, i);
    ConcatPrefix(v.data, s, i + 1);
    ConcatPrefix(w.data, s, i + 1);
    var at := |Concat(v.data, s[..i])| + off;
    assert Concat(v.data, s)[at] == v.data[s[i]][off] && Concat(w.data, s)[at] == buf[off];
  }

  lemma FrontSame(v: Vol, w: Vol, lay: Layout, h: nat, i: nat, buf: seq<byte>)
    requires WfChains(v, lay) && h in lay.chains && i < |lay.chains[h]| && lay.chains[h][i] < |v.data|
    requires forall j | 0 <= j < |lay.chains[h]| :: lay.chains[h][j] < |v.data|
    requires w == v.(data := v.data[lay.chains[h][i] := buf])
    ensures Concat(w.data, lay.chains[h][..i]) == Concat(v.data, lay.chains[h][..i])
  {
    var s: seq<nat> := lay.chains[h];
    forall j | 0 <= j < i
      ensures s[j] != s[i]
    {
      assert lay.own[s[j]] == Owner(h, j) && lay.own[s[i]] == Owner(h, i);
    }
    ConcatFrame(v.data, w.data, s[..i]);
  }

  /** The insertion loop run on the clusters of a file, as a path through that file makes it run if the file has a
      start cluster. What changes is the store of the file, slack included. */
  method AddEntryThroughFile(fs: Fat, ghost k: Key, dirCluster: nat, short11: seq<byte>, attr: byte, start: nat,
                             size: nat)
    returns (ok: bool)
    requires fs.Valid() && fs.vol.g.wide && EntryOk(fs.vol.V(), fs.lay, k)
             && !DirBit(EntrySlot(fs.vol.V(), fs.lay, k)[11])
    requires dirCluster == Head(fs.vol.V(), fs.lay, k) && dirCluster >= 2 && Regular(short11) && short11[0] != 0xE5
    modifies fs`lay, fs.vol.disk
    ensures fs.Valid() && k in old(fs.Names()) && old(fs.Names())[k].File?
    ensures ok ==> k in fs.Names() && fs.Names()[k].File? && fs.Names() == old(fs.Names())[k := fs.Names()[k]]
    ensures ok ==> fs.Names()[k].size == old(fs.Names())[k].size && fs.Names()[k].store != old(fs.Names())[k].store
    ensures !ok ==> fs.Names() == old(fs.Names()) && NoneFree(fs.vol.V())
  {
    hide Wf, View, GeometryOk, Mirrored, Sealed, Tree, Rooted, Growing, Entries, ChainBytes, ClusterSize, NoneFree,
         Link;
    hide NewSlot, Splice, StartOf, SizeOf, Taken, Regular;
    ghost var v0, lay0, n := fs.vol.V(), fs.lay, ClusterSize(fs.vol.g);
    ClusterAligned(fs.vol.g, fs.vol.disk.Length);
    FileHeads(v0, lay0, k, n);
    GrowInit(v0, lay0, k);
    ChainStart(v0, lay0, dirCluster);
    NameLength(short11);
    ghost var m := |lay0.chains[dirCluster]|;
    var cur := dirCluster;
    ghost var i := 0;
    while true
      invariant fs.vol.Ok() && Growing(fs.vol.V(), fs.lay, v0, lay0, dirCluster) && dirCluster in fs.lay.chains
      invariant 0 <= i < |fs.lay.chains[dirCluster]| && cur == fs.lay.chains[dirCluster][i]
      invariant if i < m then fs.vol.V() == v0 && fs.lay == lay0 && |fs.lay.chains[dirCluster]| == m
                else |fs.lay.chains[dirCluster]| == m + 1 && cur < Entries(fs.vol.g) && fs.vol.V().data[cur] == Zeros(n)
      decreases m - i
    {
      ghost var v, lay1 := fs.vol.V(), fs.lay;
      GrowingFacts(v, lay1, v0, lay0, dirCluster);
      ChainStep(v, lay1, dirCluster, i);
      var cl := fs.vol.ReadCluster(cur);
      assert i == m ==> cl[0] == 0;
      var off := ScanFree(cl);
      if off < |cl| {
        var slot := NewSlot(true, cl[off..off + 32], short11, attr, start, size);
        SlotShows(cl, off, short11, attr, start, size);
        fs.vol.WriteCluster(cur, Splice(cl, off, slot));
        GrowCluster(v, fs.vol.V(), lay1, v0, lay0, dirCluster, i, Splice(cl, off, slot));
        GrowingFacts(fs.vol.V(), lay1, v0, lay0, dirCluster);
        GrowingTree(fs.vol.V(), lay1, v0, lay0, k);
        RootedFile(Tree(v0, lay0), k, File(SizeOf(EntrySlot(v0, lay0, k)), ChainBytes(fs.vol.V(), lay1, dirCluster)),
                   fs.root);
        if i < m {
          ChainDiffers(v, fs.vol.V(), lay1, dirCluster, i, Splice(cl, off, slot), off);
        } else {
          LongerChain(v0, lay0, fs.vol.V(), lay1, dirCluster, n);
        }
        return true;
      }
      var nxt := fs.NextCluster(cur);
      if nxt >= Eoc(fs.vol.g) || nxt == 0 {
        var newCl := fs.LinkZeroed(cur);
        if newCl < 2 {
          return false;
        }
        GrowingLink(v, lay1, v0, lay0, dirCluster, newCl, Mark(fs.vol.g));
        GrowLink(v, fs.vol.V(), lay1, v0, lay0, dirCluster, newCl, Mark(fs.vol.g), Zeros(n));
        LinkedData(v, cur, newCl, Mark(fs.vol.g), Zeros(n));
        fs.lay := Extended(lay1, dirCluster, newCl);
        cur := newCl;
      } else {
        cur := nxt;
      }
      i := i + 1;
    }
  }

  lemma LinkedData(v: Vol, last: nat, c: nat, mark: nat, buf: seq<byte>)
    requires last < |v.fat| && c < |v.fat| && c < |v.data|
    ensures Link(v, last, c, mark, buf).data[c] == buf
  {
  }

  lemma SlotShows(cl: seq<byte>, off: nat, short11: seq<byte>, attr: byte, start: nat, size: nat)
    requires off + 32 <= |cl| && Free(cl[off..off + 32]) && Regular(short11) && short11[0] != 0xE5 && |short11| == 11
    ensures var slot := NewSlot(true, cl[off..off + 32], short11, attr, start, size);
            Splice(cl, off, slot)[off] != cl[off]
  {
    var slot := NewSlot(true, cl[off..off + 32], short11, attr, start, size);
    assert slot[0] == short11[0] && Plain(short11[0]);
    assert cl[off..off + 32][0] == cl[off];
    assert Splice(cl, off, slot)[off] == slot[0];
  }

  lemma LongerChain(v0: Vol, lay0: Layout, v: Vol, lay: Layout, h: nat, n: nat)
    requires Wf(v0, lay0) && Wf(v, lay) && h >= 2 && h in lay0.chains && h in lay.chains && n > 0
    requires |lay.chains[h]| > |lay0.chains[h]|
    requires (forall c | 2 <= c < |v0.data| :: |v0.data[c]| == n) && (forall c | 2 <= c < |v.data| :: |v.data[c]| == n)
    ensures ChainBytes(v, lay, h) != ChainBytes(v0, lay0, h)
  {
    hide Wf, ChainBytes;
    WholeClusters(v0, lay0, h, n);
    WholeClusters(v, lay, h, n);
    MulMono(|lay0.chains[h]|, |lay.chains[h]|, n);
  }

  /** Where the sectors that pass for cluster 0 begin. */
  function BeforeData(g: Geometry): nat
    requires 2 * g.sectorsPerCluster <= g.dataStart
  {
    g.dataStart - 2 * g.sectorsPerCluster
  }

  function BeforeOff(g: Geometry): nat
    requires 2 * g.sectorsPerCluster <= g.dataStart
  {
    BeforeData(g) * SECTOR
  }

  /** ... and if it has none: the first turn of the loop takes the sectors two clusters before the data area for
      cluster 0. A slot found free there is written, so nothing in the data area changes, no name is added, and
      the copies of the table come apart if those sectors belong to the last of several. */
  method AddEntryBeforeData(vol: Volume, short11: seq<byte>, attr: byte, start: nat, size: nat) returns (found: bool)
    requires vol.Ok() && vol.g.wide && vol.g.rootSectors == 0 && 2 * vol.g.sectorsPerCluster <= vol.g.dataStart
    requires Regular(short11) && short11[0] != 0xE5
    modifies vol.disk
    ensures var lo := BeforeOff(vol.g);
            && lo + ClusterSize(vol.g) <= |old(vol.disk[..])|
            && SameOutside(old(vol.disk[..]), vol.disk[..], lo, lo + ClusterSize(vol.g))
            && (found <==> !Taken(old(vol.disk[..])[lo..lo + ClusterSize(vol.g)], ClusterSize(vol.g)))
    ensures found <==> vol.disk[..] != old(vol.disk[..])
    ensures GeometryOk(vol.g, vol.disk.Length) && View(vol.g, vol.disk[..]).data == old(vol.V()).data
    ensures found && vol.g.numFATs >= 2 && 2 * vol.g.sectorsPerCluster <= vol.g.sectorsPerFAT ==>
              !Mirrored(vol.g, vol.disk[..])
  {
    hide View, GeometryOk, Mirrored, Sealed, NewSlot, Splice, Regular, Free, Taken;
    var lba := BeforeData(vol.g);
    ghost var b, lo, n := vol.disk[..], BeforeOff(vol.g), ClusterSize(vol.g);
    BeforeInside(vol.g, vol.disk.Length);
    NameLength(short11);
    var cl := vol.ReadSectors(lba, vol.g.sectorsPerCluster);
    var off := ScanFree(cl);
    found := off < |cl|;
    if found {
      var slot := NewSlot(true, cl[off..off + 32], short11, attr, start, size);
      SlotShows(cl, off, short11, attr, start, size);
      FreeShows(cl, off);
      vol.WriteSectors(lba, Splice(cl, off, slot));
      SplicedAt(b, vol.disk[..], lo, Splice(cl, off, slot), off);
      DataKept(vol.g, b, vol.disk[..], lo, lo + n);
      if vol.g.numFATs >= 2 && 2 * vol.g.sectorsPerCluster <= vol.g.sectorsPerFAT {
        MirrorBroken(vol.g, b, vol.disk[..], lo + off);
      }
    } else {
      DataKept(vol.g, b, vol.disk[..], lo, lo + n);
    }
  }

  lemma BeforeInside(g: Geometry, len: nat)
    requires GeometryOk(g, len) && 2 * g.sectorsPerCluster <= g.dataStart
    ensures (BeforeData(g) + g.sectorsPerCluster) * SECTOR ==
            BeforeOff(g) + ClusterSize(g) <= g.dataStart * SECTOR <= len
    ensures ClusterSize(g) % 32 == 0
  {
    LayoutBounds(g, len);
    SectorMul(g.sectorsPerCluster);
  }

  lemma FreeShows(cl: seq<byte>, off: nat)
    requires off % 32 == 0 && off + 32 <= |cl| && Free(cl[off..off + 32])
    ensures !Taken(cl, |cl|)
  {
    assert cl[off..off + 32][0] == cl[off];
  }

  lemma SplicedAt(b: seq<byte>, b2: seq<byte>, lo: nat, x: seq<byte>, off: nat)
    requires lo + |x| <= |b| && b2 == Splice(b, lo, x) && off < |x| && x[off] != b[lo + off]
    ensures SameOutside(b, b2, lo, lo + |x|) && b2[lo + off] != b[lo + off] && b2 != b
  {
  }

  lemma DataKept(g: Geometry, b: seq<byte>, b2: seq<byte>, lo: nat, hi: nat)
    requires GeometryOk(g, |b|) && SameOutside(b, b2, lo, hi) && hi <= g.dataStart * SECTOR && g.rootSectors == 0
    ensures GeometryOk(g, |b2|) && View(g, b2).data == View(g, b).data
  {
    LayoutBounds(g, |b|);
    forall c | 0 <= c < Entries(g)
      ensures ClusterBytes(g, b2, c) == ClusterBytes(g, b, c)
    {
      if c >= 2 {
        ClusterBounds(g, |b|, c);
        SliceSame(b, b2, lo, hi, ClOff(g, c), ClOff(g, c) + ClusterSize(g));
      }
    }
  }

  /** A byte of the last copy changes and none of the first. */
  lemma MirrorBroken(g: Geometry, b: seq<byte>, b2: seq<byte>, at: nat)
    requires GeometryOk(g, |b|) && Mirrored(g, b) && g.numFATs >= 2 && g.rootSectors == 0
    requires 2 * g.sectorsPerCluster <= g.sectorsPerFAT && 2 * g.sectorsPerCluster <= g.dataStart
    requires BeforeOff(g) <= at < BeforeOff(g) + ClusterSize(g)
    requires SameOutside(b, b2, BeforeOff(g), BeforeOff(g) + ClusterSize(g)) && at < |b| && b2[at] != b[at]
    ensures GeometryOk(g, |b2|) && !Mirrored(g, b2)
  {
    hide BeforeOff, ClusterSize;
    var last := g.numFATs - 1;
    LastCopy(g);
    CopyBounds(g, |b|, last);
    CopyBounds(g, |b|, 0);
    CopiesApart(g, 0, last);
    SliceSame(b, b2, BeforeOff(g), BeforeOff(g) + ClusterSize(g), CopyOff(g, 0), CopyOff(g, 0) + FatBytes(g));
    assert Copy(g, b, last)[at - CopyOff(g, last)] == b[at];
    assert Copy(g, b2, last)[at - CopyOff(g, last)] == b2[at];
    assert Copy(g, b, last) == Copy(g, b, 0) == Copy(g, b2, 0);
  }

  /** The sectors two clusters before the data area lie in the last copy of the table. */
  lemma LastCopy(g: Geometry)
    requires g.numFATs >= 2 && g.rootSectors == 0 && 2 * g.sectorsPerCluster <= g.sectorsPerFAT
    requires g.rootLBA == g.fatStart + g.numFATs * g.sectorsPerFAT && g.dataStart == g.rootLBA + g.rootSectors
    requires 2 * g.sectorsPerCluster <= g.dataStart
    ensures CopyOff(g, g.numFATs - 1) <= BeforeOff(g)
    ensures BeforeOff(g) + ClusterSize(g) <= CopyOff(g, g.numFATs - 1) + FatBytes(g)
  {
    assert (g.numFATs - 1) * g.sectorsPerFAT + g.sectorsPerFAT == g.numFATs * g.sectorsPerFAT;
  }

  // ---- Runs ----

  datatype Op =
    | Write(path: CString, data: seq<byte>)
    | MakeDir(path: CString, parents: bool)
    | Move(src: CString, dst: CString)

  ghost predicate OpOk(op: Op) {
    match op
    case Write(path, data) => NoDots(PathComponents(path)) && |data| < U32_LIMIT
    case MakeDir(path, parents) => NoDots(MkdirComponents(path)) && PacksFaithfully(MkdirComponents(path))
    case Move(src, dst) =>
      && NoDots(MkdirComponents(ParentPart(src))) && NoDots(MkdirComponents(ParentPart(dst)))
      && (Accepted(UpperAll(BasePart(dst))) ==> Canonical(UpperAll(BasePart(dst))))
  }

  /** No path of the call passes through a file. */
  ghost predicate Clear(t: Namespace, root: nat, op: Op) {
    match op
    case Write(path, data) => ThroughDirs(t, root, PathComponents(path))
    case MakeDir(path, parents) => NoFiles(t, root, MkdirComponents(path))
    case Move(src, dst) =>
      NoFiles(t, root, MkdirComponents(ParentPart(src))) && NoFiles(t, root, MkdirComponents(ParentPart(dst)))
  }

  /** What one call does to the tree; a call that is not clear is not made. */
  ghost predicate Step(t0: Namespace, t: Namespace, root: nat, op: Op, ok: bool, n: nat)
    requires n > 0
  {
    if !Clear(t0, root, op) then t == t0 && !ok
    else
      match op
      case Write(path, data) =>
        var target := WriteKey(t0, root, PathComponents(path));
        if ok then target.Some? && Stored(true, t0, t, target.value, data, n) else Unseen(true, t0, t, target, n)
      case MakeDir(path, parents) =>
        MoreDirs(t0, t) && (ok ==> Walk(t, root, MkdirComponents(path)).Some?)
      case Move(src, dst) =>
        var k, k2 := SourceKey(t0, root, src), SourceKey(t0, root, dst);
        if ok then k.Some? && k2.Some? && k.value in t0 && k2.value !in t0 && t == Moved(t0, k.value, k2.value)
        else t == t0
  }

  ghost predicate Trace(ts: seq<Namespace>, root: nat, ops: seq<Op>, oks: seq<bool>, n: nat)
    requires n > 0
  {
    |ts| == |ops| + 1 && |oks| == |ops| && forall i | 0 <= i < |ops| :: Step(ts[i], ts[i + 1], root, ops[i], oks[i], n)
  }

  method RunOne(fs: Fat, op: Op) returns (ok: bool)
    requires fs.Valid() && fs.vol.g.wide && OpOk(op) && 0 < ClusterSize(fs.vol.g) <= 4096
    modifies fs`lay, fs.vol.disk
    ensures fs.Valid() && Step(old(fs.Names()), fs.Names(), fs.root, op, ok, ClusterSize(fs.vol.g))
  {
    hide Wf, View, GeometryOk, Mirrored, Sealed, Tree, Rooted, Stored, Unseen, Refused, MoreDirs, ClusterSize, Walk;
    hide Components, NoFiles, ThroughDirs, NotMovable, Blocked, NoneFree, SourceKey, Moved, Accepted, Canonical,
         ParentPart, BasePart;
    match op {
      case Write(path, data) =>
        var clear := CheckParent(fs, path);
        if !clear {
          return false;
        }
        var r := WriteFile(fs, path, data);
        ok := r.Some?;
      case MakeDir(path, parents) =>
        var clear := CheckDirs(fs, path);
        if !clear {
          return false;
        }
        ok := Mkdir(fs, path, parents);
      case Move(src, dst) =>
        var srcParent, srcBase := SplitParentBasename(src);
        var dstParent, dstBase := SplitParentBasename(dst);
        var clear1 := CheckDirs(fs, srcParent);
        var clear2 := CheckDirs(fs, dstParent);
        if !clear1 || !clear2 {
          return false;
        }
        ok := Rename(fs, src, dst);
    }
  }

  /** Any run of writes, directory creations and renames, failing ones included, keeps the volume well formed, and
      every call moves the tree by one Step. A call whose path meets a file on the way is not made. */
  method RunAll(fs: Fat, ops: seq<Op>) returns (oks: seq<bool>, ghost ts: seq<Namespace>)
    requires fs.Valid() && fs.vol.g.wide && 0 < ClusterSize(fs.vol.g) <= 4096 && (forall op | op in ops :: OpOk(op))
    modifies fs`lay, fs.vol.disk
    ensures fs.Valid() && Trace(ts, fs.root, ops, oks, ClusterSize(fs.vol.g))
    ensures ts[0] == old(fs.Names()) && ts[|ops|] == fs.Names()
  {
    hide Wf, View, GeometryOk, Mirrored, Sealed, Tree, Rooted, Step, OpOk, ClusterSize;
    ghost var n := ClusterSize(fs.vol.g);
    oks, ts := [], [fs.Names()];
    for i := 0 to |ops|
      invariant fs.Valid() && |oks| == i && |ts| == i + 1
      invariant ts[0] == old(fs.Names()) && ts[i] == fs.Names()
      invariant forall j | 0 <= j < i :: Step(ts[j], ts[j + 1], fs.root, ops[j], oks[j], n)
    {
      assert OpOk(ops[i]);
      var ok := RunOne(fs, ops[i]);
      oks, ts := oks + [ok], ts + [fs.Names()];
    }
  }

  // ---- What files hold at the end of a run ----

  /** Every file that has clusters ends in its last one. */
  ghost predicate Tidy(t: Namespace, n: nat) {
    forall k: Key | k in t && t[k].File? && !Startless(t, k) :: Tight(t[k], n)
  }

  /** The call is not a failed write, nor an append that overflows a 32-bit size or starts on a cluster boundary. */
  ghost predicate CleanOp(t: Namespace, root: nat, op: Op, ok: bool, n: nat)
    requires n > 0
  {
    op.Write? ==>
      ok &&
      var target := WriteKey(t, root, PathComponents(op.path));
      target.Some? && target.value in t && t[target.value].File? && !Startless(t, target.value) ==>
        t[target.value].size + |op.data| < U32_LIMIT && t[target.value].size % n != 0
  }

  /** The text of `k` after one more call, from the texts `was` before it. */
  ghost function Updated(t: Namespace, root: nat, op: Op, ok: bool, was: Key -> seq<byte>, k: Key): seq<byte> {
    match op
    case Write(path, data) =>
      if WriteKey(t, root, PathComponents(path)) == Some(k) && !Startless(t, k) then was(k) + data else was(k)
    case MakeDir(path, parents) => was(k)
    case Move(src, dst) =>
      if ok && SourceKey(t, root, dst) == Some(k) && SourceKey(t, root, src).Some?
          then was(SourceKey(t, root, src).value)
      else if ok && SourceKey(t, root, src) == Some(k) then []
      else was(k)
  }

  /** The texts by the book: start from the first tree, append what is written, and carry texts along with renames. */
  ghost function Expected(ts: seq<Namespace>, root: nat, ops: seq<Op>, oks: seq<bool>, k: Key): seq<byte>
    requires |ts| == |ops| + 1 && |oks| == |ops|
    decreases |ops|
  {
    if ops == [] then Text(ts[0], k)
    else
      var m := |ops| - 1;
      Updated(ts[m], root, ops[m], oks[m], x => Expected(ts[..m + 1], root, ops[..m], oks[..m], x), k)
  }

  lemma StoredText(t0: Namespace, t: Namespace, x: Key, data: seq<byte>, n: nat, k: Key)
    requires n > 0 && Stored(true, t0, t, x, data, n) && Tidy(t0, n)
    requires x in t0 && t0[x].File? && !Startless(t0, x) ==> t0[x].size + |data| < U32_LIMIT && t0[x].size % n != 0
    ensures Text(t, k) == if x == k && !Startless(t0, k) then Text(t0, k) + data else Text(t0, k)
    ensures Tidy(t, n)
  {
    hide Contents, Tight, Stored, AppendsExactly;
    StoredMeans(true, t0, t, x, data, n);
    if x in t0 && !Startless(t0, x) { WideExactly(t0[x], n); }
    assert forall y: Key | y in t && y != x :: y in t0 && t[y] == t0[y];
    if x == k {
      NoContents(t0, k, 0);
      NoContents(t, k, 0);
      if k !in t0 { assert [] + data == data; }
    }
  }

  lemma StepText(t0: Namespace, t: Namespace, root: nat, op: Op, ok: bool, n: nat, k: Key)
    requires n > 0 && Step(t0, t, root, op, ok, n) && CleanOp(t0, root, op, ok, n) && Tidy(t0, n)
    ensures Text(t, k) == Updated(t0, root, op, ok, x => Text(t0, x), k) && Tidy(t, n)
  {
    hide Walk, Components, Contents, Tight, WriteKey, SourceKey, Stored, Unseen, Clear;
    if op.Write? {
      StoredText(t0, t, WriteKey(t0, root, PathComponents(op.path)).value, op.data, n, k);
    }
  }

  lemma UpdatedSame(t: Namespace, root: nat, op: Op, ok: bool, f: Key -> seq<byte>, g: Key -> seq<byte>, k: Key)
    requires forall x: Key :: f(x) == g(x)
    ensures Updated(t, root, op, ok, f, k) == Updated(t, root, op, ok, g, k)
  {
    hide WriteKey, SourceKey, Startless, Components;
  }

  /** The round trip over whole runs: in a run without failed or boundary writes, every key reads as the book says. */
  lemma {:induction false} RunContents(ts: seq<Namespace>, root: nat, ops: seq<Op>, oks: seq<bool>, n: nat, k: Key)
    requires n > 0 && Trace(ts, root, ops, oks, n) && Tidy(ts[0], n)
    requires forall i | 0 <= i < |ops| :: CleanOp(ts[i], root, ops[i], oks[i], n)
    ensures Tidy(ts[|ops|], n) && Text(ts[|ops|], k) == Expected(ts, root, ops, oks, k)
    decreases |ops|
  {
    hide Step, CleanOp, Tidy, Text, Updated;
    if ops != [] {
      var m := |ops| - 1;
      forall x: Key
        ensures Text(ts[m], x) == Expected(ts[..m + 1], root, ops[..m], oks[..m], x)
      {
        RunContents(ts[..m + 1], root, ops[..m], oks[..m], n, x);
      }
      RunContents(ts[..m + 1], root, ops[..m], oks[..m], n, k);
      StepText(ts[m], ts[m + 1], root, ops[m], oks[m], n, k);
      UpdatedSame(ts[m], root, ops[m], oks[m], x => Text(ts[m], x),
                  x => Expected(ts[..m + 1], root, ops[..m], oks[..m], x), k);
    }
  }

  // ---- Writing and reading back, renaming and reading back ----

  lemma ParentClear(t: Namespace, root: nat, cs: seq<seq<byte>>)
    requires ParentDir(t, root, cs).Some?
    ensures ThroughDirs(t, root, cs)
  {
    WalkIsClear(t, root, cs[..|cs| - 1]);
  }

  /** After a write the path still meets no file on the way, and names a file itself. */
  lemma WrittenIsReadable(t0: Namespace, t: Namespace, root: nat, path: CString, data: seq<byte>, n: nat)
    requires n > 0 && var cs := PathComponents(path);
             && cs != [] && Canonical(FinalName(cs)) && WriteKey(t0, root, cs).Some?
             && Stored(true, t0, t, WriteKey(t0, root, cs).value, data, n)
    ensures ThroughDirs(t, root, PathComponents(path)) && !NamesDir(t, root, PathComponents(path))
  {
    hide Components, Canonical, Accepted, Pack, Dotted, Walk, UpperAll, Contents, Tight, Stored;
    var cs := PathComponents(path);
    var k := WriteKey(t0, root, cs).value;
    StoredMeans(true, t0, t, k, data, n);
    ComponentsUpper(path[1..], |cs| - 1);
    SameKey(t0, root, cs);
    WalkUpdate(t0, k, t[k], root, cs[..|cs| - 1]);
    ParentClear(t, root, cs);
  }

  /** A successful write, read back through the same path. */
  method WriteAndRead(fs: Fat, path: CString, data: seq<byte>, maxLen: nat)
    returns (w: Option<nat>, r: Option<seq<byte>>)
    requires fs.Valid() && fs.vol.g.wide && NoDots(PathComponents(path)) && |data| < U32_LIMIT
             && ClusterSize(fs.vol.g) > 0
    requires ThroughDirs(fs.Names(), fs.root, PathComponents(path)) && maxLen + ClusterSize(fs.vol.g) < U32_LIMIT
    requires PathComponents(path) != [] ==> Canonical(FinalName(PathComponents(path)))
    modifies fs`lay, fs.vol.disk
    ensures fs.Valid()
    ensures w.Some? ==>
              && WriteKey(old(fs.Names()), fs.root, PathComponents(path)).Some?
              && ReadsBack(old(fs.Names()), WriteKey(old(fs.Names()), fs.root, PathComponents(path)).value, data,
                           ClusterSize(fs.vol.g), maxLen, r)
  {
    hide Wf, View, GeometryOk, Mirrored, Sealed, Tree, Rooted, Walk, Components, ClusterSize, NoFiles, ThroughDirs;
    hide Stored, Unseen, Refused, Startless, Canonical, Accepted, Pack, Dotted, NamesDir, ReadPath, ReadsBack;
    ghost var t0, n := fs.Names(), ClusterSize(fs.vol.g);
    w := WriteFile(fs, path, data);
    if w.None? {
      return None, None;
    }
    WrittenIsReadable(t0, fs.Names(), fs.root, path, data, n);
    WriteThenRead(t0, fs.Names(), fs.root, path, data, n, maxLen, []);
    r := ReadFile(fs, path, maxLen);
  }

  /** A successful rename of a file, read back through both paths. */
  method RenameAndRead(fs: Fat, src: CString, dst: CString, maxLen: nat)
    returns (ok: bool, before: Option<seq<byte>>, moved: Option<seq<byte>>, gone: Option<seq<byte>>)
    requires fs.Valid() && fs.vol.g.wide && fs.mounted && maxLen + ClusterSize(fs.vol.g) < U32_LIMIT
    requires Splittable(src) && Splittable(dst) && NoDots(PathComponents(src)) && NoDots(PathComponents(dst))
    requires Walkable(fs.Names(), fs.root, src) && Walkable(fs.Names(), fs.root, dst)
    requires Canonical(UpperAll(BasePart(src))) && Canonical(UpperAll(BasePart(dst)))
    requires !NamesDir(fs.Names(), fs.root, PathComponents(src))
    modifies fs`lay, fs.vol.disk
    ensures fs.Valid() && (ok ==> moved == before && gone == None)
  {
    hide Wf, View, GeometryOk, Mirrored, Sealed, Tree, Rooted, DirsUnique, Walk, Components, ClusterSize, NoFiles,
         NoDots;
    hide SourceKey, Moved, Accepted, Canonical, Pack, Dotted, ParentPart, BasePart, NotMovable, ReadPath, Splittable,
         UpperAll;
    ghost var t0 := fs.Names();
    PathSplit(src);
    SplitClear(t0, fs.root, src);
    before := ReadFile(fs, src, maxLen);
    WfDirsUnique(fs.vol.V(), fs.lay);
    ok := Rename(fs, src, dst);
    moved, gone := None, None;
    if ok {
      ghost var t := fs.Names();
      RenameThenRead(t0, fs.root, src, dst, maxLen, []);
      SourceReads(t0, fs.root, src);
      SourceNamed(t0, t, fs.root, src, dst);
      ParentClear(t, fs.root, PathComponents(src));
      ParentClear(t, fs.root, PathComponents(dst));
      moved := ReadFile(fs, dst, maxLen);
      gone := ReadFile(fs, src, maxLen);
    }
  }

  lemma SplitClear(t: Namespace, root: nat, path: CString)
    requires Splittable(path) && Walkable(t, root, path)
    requires PathComponents(path) == MkdirComponents(ParentPart(path)) + [UpperAll(BasePart(path))]
    ensures ThroughDirs(t, root, PathComponents(path))
  {
    hide Components, ParentPart, BasePart, NoFiles, Splittable;
    var cs := PathComponents(path);
    assert cs[..|cs| - 1] == MkdirComponents(ParentPart(path));
  }

  /** A read and a rename of the same canonical path look for the same entry. */
  lemma SourceReads(t: Namespace, root: nat, path: CString)
    requires Splittable(path) && Canonical(UpperAll(BasePart(path))) && SourceKey(t, root, path).Some?
    ensures ReadKey(t, root, PathComponents(path)) == SourceKey(t, root, path)
  {
    hide Components, Walk, ParentPart, BasePart, Canonical, Accepted, Pack, Dotted, UpperAll, Splittable;
    SourceKeyIs(t, root, path);
    PathSplit(path);
    DestinationName(BasePart(path));
    var cs := PathComponents(path);
    assert cs[..|cs| - 1] == MkdirComponents(ParentPart(path));
  }

  /** After the rename neither path names a directory. */
  lemma SourceNamed(t0: Namespace, t: Namespace, root: nat, src: CString, dst: CString)
    requires SourceKey(t0, root, src).Some? && SourceKey(t0, root, dst).Some?
    requires var k, k2 := SourceKey(t0, root, src).value, SourceKey(t0, root, dst).value;
             && k in t0 && k2 !in t0 && t == Moved(t0, k, k2)
             && ParentDir(t, root, PathComponents(src)) == Some(k.dir)
             && ParentDir(t, root, PathComponents(dst)) == Some(k2.dir)
             && FinalName(PathComponents(src)) == k.name && FinalName(PathComponents(dst)) == k2.name
             && ReadKey(t0, root, PathComponents(src)) == Some(k) && !NamesDir(t0, root, PathComponents(src))
    ensures !NamesDir(t, root, PathComponents(src)) && !NamesDir(t, root, PathComponents(dst))
  {
    hide Components, SourceKey, Walk;
  }
}

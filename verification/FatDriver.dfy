/** The cluster-level operations that the FAT16 and FAT32 drivers share. */
module FatDriver {
  import opened Bytes
  import opened ShortName
  import opened FatVolume
  import opened FatSteps
  import opened FatLink
  import opened FatFile
  import opened FatTree
  import opened FatImage
  import opened FatScan
  import opened FatDevice
  import opened FatInsert
  import opened FatWrite

  /** The value that ends a chain when a cluster is allocated. */
  function Mark(g: Geometry): nat {
    if g.wide then 0x0FFF_FFF8 else 0xFFFF
  }

  predicate RootOk(g: Geometry, root: nat) {
    if g.wide then 2 <= root < U32_LIMIT else root == 0
  }

  class Fat {
    const vol: Volume
    const root: nat
    var mounted: bool
    ghost var lay: Layout

    /** A mounted volume whose contents are laid out as `lay` says. */
    constructor (vol: Volume, root: nat, ghost lay: Layout)
      requires vol.Ok() && Wf(vol.V(), lay) && root in lay.names && RootOk(vol.g, root)
               && Rooted(Tree(vol.V(), lay), root)
      ensures this.vol == vol && this.root == root && this.lay == lay && mounted && Valid()
    {
      hide Wf, View, GeometryOk, Mirrored, Sealed, Tree, Rooted;
      this.vol, this.root, this.lay, mounted := vol, root, lay, true;
    }

    ghost predicate Valid()
      reads this, vol.disk
    {
      vol.Ok() && Wf(vol.V(), lay) && root in lay.names && RootOk(vol.g, root) && Rooted(Tree(vol.V(), lay), root)
    }

    /** What the volume holds, as a reader sees it. */
    ghost function Names(): Namespace
      requires Valid()
      reads this, vol.disk
    {
      Tree(vol.V(), lay)
    }

    // ---- The allocation table ----

    method NextCluster(c: nat) returns (val: nat)
      requires GeometryOk(vol.g, vol.disk.Length) && c < TableEntries(vol.g)
      ensures val == vol.Whole()[c] && val < Span(vol.g.wide)
      ensures vol.Ok() && c < Entries(vol.g) ==> val == vol.V().fat[c]
    {
      hide View, GeometryOk, Mirrored, Sealed, SectorOf, RestOf, EntryPos;
      var fatOffset := EntryPos(vol.g.wide, c);
      LocateEntry(c);
      var sec := vol.ReadTableSector(SectorOf(fatOffset));
      val := EntryIn(vol.g.wide, sec, RestOf(fatOffset));
    }

    lemma LocateEntry(c: nat)
      requires GeometryOk(vol.g, vol.disk.Length) && c < TableEntries(vol.g)
      ensures var o := EntryPos(vol.g.wide, c);
              && SectorOf(o) < vol.g.sectorsPerFAT && SectorOf(o) * SECTOR + RestOf(o) == o
              && RestOf(o) + Width(vol.g) <= SECTOR && o + Width(vol.g) <= FatBytes(vol.g)
              && vol.Whole()[c] == EntryIn(vol.g.wide, vol.TableSector(SectorOf(o)), RestOf(o))
    {
      hide Mirrored, Sealed, Table, GeometryOk, EntryIn;
      FirstCopy(vol.g, vol.disk.Length);
      TableRead(vol.g.wide, Copy(vol.g, vol.disk[..], 0), c);
    }

    /** Rewrites one entry in every copy of the table; FAT32 leaves the top four bits of the entry alone. */
    method UpdateFAT(c: nat, value: nat)
      requires vol.Ok() && c < Entries(vol.g) && value < (if vol.g.wide then MASK28 else 65536)
      modifies vol.disk
      ensures vol.Ok() && vol.V() == old(vol.V()).(fat := old(vol.V()).fat[c := value])
      ensures vol.g.wide ==> Reserved(vol.g, vol.disk[..], c) == old(Reserved(vol.g, vol.disk[..], c))
    {
      hide View, GeometryOk, Mirrored, Sealed, Splice, Copy, SectorOf, RestOf, EntryPos, FatBytes, EntryImage, TopAt;
      var fatOffset := EntryPos(vol.g.wide, c);
      var entOff := RestOf(fatOffset);
      FirstCopy(vol.g, vol.disk.Length);
      LocateEntry(c);
      var sec := vol.ReadTableSector(SectorOf(fatOffset));
      var entry := EntryImage(vol.g.wide, sec, entOff, value);
      EntryBytes(vol.g.wide, sec, entOff, value);
      ghost var t := Copy(vol.g, vol.disk[..], 0);
      sec := Splice(sec, entOff, entry);
      vol.WriteTableSector(SectorOf(fatOffset), sec, entOff, entry);
      EntryWritten(vol.g, old(vol.disk[..]), vol.disk[..], c, entry, value);
      if vol.g.wide {
        SectorInTable(vol.g, SectorOf(fatOffset));
        TopKept(t, SectorOf(fatOffset) * SECTOR, entOff, value);
      }
    }

    /** The search of AllocateCluster, over every entry of the table. */
    method FindFreeEntry() returns (c: nat)
      requires GeometryOk(vol.g, vol.disk.Length)
      ensures c == FreeFrom(vol.Whole(), 2)
    {
      hide GeometryOk, FreeFrom;
      FirstCopy(vol.g, vol.disk.Length);
      var entries := vol.g.sectorsPerFAT * SECTOR / Width(vol.g);
      c := 2;
      while c < entries
        invariant 2 <= c && FreeFrom(vol.Whole(), 2) == FreeFrom(vol.Whole(), c)
      {
        FreeStep(vol.Whole(), c);
        var val := NextCluster(c);
        if val == 0x0000 {
          return;
        }
        c := c + 1;
      }
      c := 0;
    }

    /** First free table entry from 2 on, marked end-of-chain; 0 when the table is full. */
    method AllocateCluster() returns (cl: nat)
      requires vol.Ok()
      modifies vol.disk
      ensures vol.Ok()
      ensures cl == 0 ==> vol.V() == old(vol.V()) && NoneFree(vol.V())
      ensures cl != 0 ==> 2 <= cl < Entries(vol.g) <= Eoc(vol.g) && old(vol.V()).fat[cl] == 0
      ensures cl != 0 ==> forall x | 2 <= x < cl :: old(vol.V()).fat[x] != 0
      ensures cl != 0 ==> vol.V() == old(vol.V()).(fat := old(vol.V()).fat[cl := Mark(vol.g)])
    {
      hide View, GeometryOk, Mirrored, Sealed;
      FirstCopy(vol.g, vol.disk.Length);
      cl := FindFreeEntry();
      FreeInside(vol.Whole(), Entries(vol.g));
      if cl != 0 {
        UpdateFAT(cl, Mark(vol.g));
      }
    }

    method FindShortNameInDirCluster(dirCluster: nat, text: CString)
      returns (found: bool, startCl: nat, fileSz: nat, isDir: bool)
      requires Valid() && dirCluster in lay.names && dirCluster >= 2 && !IsDot(text)
      ensures found <==> Entry(lay, Key(dirCluster, text))
      ensures found ==> FoundAs(vol.V(), lay, Key(dirCluster, text), startCl, fileSz, isDir)
    {
      hide Wf, IsSlot, FoundAs, DirBuffer, NoText, HitText, AbsentText, View, Table, GeometryOk, Mirrored, Sealed,
           Entries;
      ghost var v := vol.V();
      AbsentNone(v, lay, dirCluster, text);
      DirHasChain(v, lay, dirCluster);
      ChainStart(v, lay, dirCluster);
      ghost var chain: seq<nat> := lay.chains[dirCluster];
      found, startCl, fileSz, isDir := false, 0, 0, false;
      var cl := dirCluster;
      ghost var i := 0;
      ChainStep(v, lay, dirCluster, 0);
      while cl >= 2 && cl < Eoc(vol.g)
        invariant 0 <= i < |chain| && cl == chain[i] && 2 <= cl < Eoc(vol.g)
        invariant AbsentText(v, chain, i, text)
        decreases |chain| - i
      {
        ChainStep(v, lay, dirCluster, i);
        DirCluster(v, lay, dirCluster, i);
        var buf := vol.ReadCluster(cl);
        var hit, off, _ := ScanText(buf, text);
        if hit {
          FoundEntry(v, lay, dirCluster, i, off, text);
          var slot := buf[off..off + 32];
          return true, StartOf(vol.g.wide, slot), SizeOf(slot), DirBit(slot[11]);
        }
        AbsentNext(v, chain, i, text);
        var next := NextCluster(cl);
        if next >= Eoc(vol.g) || next == 0 {
          NotFoundText(v, lay, dirCluster, text);
          return;
        }
        cl := next;
        i := i + 1;
      }
    }

    /** The chain walk of FindShortEntryWithOffset. */
    method FindShortEntryInDir(dirCluster: nat, short11: seq<byte>, ghost v: Vol, ghost text: seq<byte>)
      returns (found: bool, entryCl: nat, entryOff: nat, startCl: nat, fileSz: nat, attr: byte)
      requires vol.Ok() && v == vol.V() && Wf(v, lay) && dirCluster in lay.names && dirCluster >= 2
      requires Regular(short11) && text == Dotted(short11) && !IsDot(text)
      ensures found <==> Entry(lay, Key(dirCluster, text))
      ensures found ==> At(lay, Key(dirCluster, text)) == Pos(entryCl, entryOff)
      ensures found ==> IsSlot(v, lay, Key(dirCluster, text), startCl, fileSz, attr)
      ensures found ==> EntryOk(v, lay, Key(dirCluster, text)) && entryCl >= 2
    {
      hide Wf, IsSlot, FoundAs, NoText, HitText, NoShort, HitShort, CleanSlots, DirBuffer, AbsentText, Regular, Clean,
           Dotted;
      hide View, Table, GeometryOk, Mirrored, Sealed, Entries;
      RegularIsClean(short11);
      found, entryCl, entryOff, startCl, fileSz, attr := false, 0, 0, 0, 0, 0;
      DirHasChain(v, lay, dirCluster);
      ChainStart(v, lay, dirCluster);
      ghost var chain: seq<nat> := lay.chains[dirCluster];
      AbsentNone(v, lay, dirCluster, text);
      var cur := dirCluster;
      ghost var i := 0;
      ChainStep(v, lay, dirCluster, 0);
      while cur >= 2 && cur < Eoc(vol.g)
        invariant 0 <= i < |chain| && cur == chain[i] && 2 <= cur < Eoc(vol.g) && !found
        invariant AbsentText(v, chain, i, text)
        decreases |chain| - i
      {
        ChainStep(v, lay, dirCluster, i);
        DirCluster(v, lay, dirCluster, i);
        DirClean(v, lay, dirCluster, i);
        var buf := vol.ReadCluster(cur);
        var hit, off, _ := ScanShort(buf, short11);
        ShortIsText(buf, short11, off, |buf|);
        if hit {
          FoundEntry(v, lay, dirCluster, i, off, text);
          SlotInside(buf, off, short11);
          var slot := buf[off..off + 32];
          return true, cur, off, StartOf(vol.g.wide, slot), SizeOf(slot), slot[11];
        }
        AbsentNext(v, chain, i, text);
        var nxt := NextCluster(cur);
        if nxt >= Eoc(vol.g) || nxt == 0 {
          NotFoundText(v, lay, dirCluster, text);
          return;
        }
        cur := nxt;
        i := i + 1;
      }
    }

    /** Allocates a cluster, links it behind `last`, marks it end-of-chain and zeroes it. */
    method LinkZeroed(last: nat) returns (newCl: nat)
      requires vol.Ok() && 2 <= last < Entries(vol.g)
      modifies vol.disk
      ensures vol.Ok()
      ensures newCl == 0 ==> vol.V() == old(vol.V()) && NoneFree(vol.V())
      ensures newCl != 0 ==> 2 <= newCl < Entries(vol.g) && old(vol.V()).fat[newCl] == 0
      ensures newCl != 0 ==> vol.V() == Link(old(vol.V()), last, newCl, Mark(vol.g), Zeros(ClusterSize(vol.g)))
    {
      hide GeometryOk, Mirrored, Sealed, View;
      newCl := AllocateCluster();
      if newCl < 2 {
        return 0;
      }
      UpdateFAT(last, newCl);
      UpdateFAT(newCl, Mark(vol.g));
      vol.ZeroCluster(newCl);
    }

    /** Allocates a cluster, links it behind `last`, marks it end-of-chain and fills it with `buf`. */
    method LinkFilled(last: nat, buf: seq<byte>) returns (newCl: nat)
      requires vol.Ok() && last < Entries(vol.g) && |buf| == ClusterSize(vol.g)
      modifies vol.disk
      ensures vol.Ok()
      ensures newCl == 0 ==> vol.V() == old(vol.V()) && NoneFree(vol.V())
      ensures newCl != 0 ==> 2 <= newCl < Entries(vol.g) && old(vol.V()).fat[newCl] == 0
      ensures newCl != 0 ==> vol.V() == Link(old(vol.V()), last, newCl, Mark(vol.g), buf)
    {
      hide GeometryOk, Mirrored, Sealed, View;
      newCl := AllocateCluster();
      if newCl < 2 {
        return 0;
      }
      UpdateFAT(last, newCl);
      UpdateFAT(newCl, Mark(vol.g));
      vol.WriteCluster(newCl, buf);
    }

    /** Writes a new slot at a free offset of one directory cluster. */
    method WriteNewSlot(d: nat, ghost i: nat, cur: nat, cl: seq<byte>, off: nat,
                        short11: seq<byte>, attr: byte, start: nat, size: nat,
                        ghost hole: Option<Pos>, ghost v: Vol, ghost lay0: Layout)
      requires vol.Ok() && v == Seen(vol.V(), hole) && v.wide == vol.g.wide && lay == lay0
      requires 2 <= cur < Entries(vol.g) && cl == vol.V().data[cur] && |short11| == 11 && off + 32 <= |cl|
      requires |v.data| == |vol.V().data| && v.data[cur] == cl
      requires hole.Some? ==> SlotOk(vol.V(), hole.value) && hole.value.cl != cur
      requires FreeAt(v, lay0, d, i, cur, off) && Naming(v, lay0, d, short11, attr, start, size)
      modifies this`lay, vol.disk
      ensures vol.Ok() && Added(Seen(vol.V(), hole), lay, v, lay0, d, short11, attr, start, size)
      ensures hole.Some? ==> SlotOk(vol.V(), hole.value) && Slot(vol.V(), hole.value) == old(Slot(vol.V(), hole.value))
    {
      hide FreeAt, Naming, Added, View, GeometryOk, Mirrored, Sealed, NewSlot, Seen;
      var slot := NewSlot(vol.g.wide, cl[off..off + 32], short11, attr, start, size);
      SeenWrite(vol.V(), cur, Splice(cl, off, slot), hole);
      vol.WriteCluster(cur, Splice(cl, off, slot));
      lay := Inserted(v, Seen(vol.V(), hole), lay0, d, i, cur, off, short11, attr, start, size);
    }

    /** The insertion loop: first free slot of the chain, extending the chain when it is full. The volume is
        looked at as it will be once the slot at `hole`, if any, is deleted. A failed insertion changes nothing. */
    method InsertIntoChain(d: nat, short11: seq<byte>, attr: byte, start: nat, size: nat,
                           ghost hole: Option<Pos>, ghost v0: Vol, ghost lay0: Layout) returns (ok: bool)
      requires vol.Ok() && v0 == Seen(vol.V(), hole) && lay == lay0 && |short11| == 11 && HoleOk(vol.V(), lay0, d, hole)
      requires hole.Some? ==> SlotOk(vol.V(), hole.value)
      requires Pending(v0, lay0, v0, lay0, d, short11, attr, start, size)
      modifies this`lay, vol.disk
      ensures vol.Ok()
      ensures ok ==> Added(Seen(vol.V(), hole), lay, v0, lay0, d, short11, attr, start, size)
      ensures ok && hole.Some? ==>
            SlotOk(vol.V(), hole.value)
            && Slot(vol.V(), hole.value) == old(Slot(vol.V(), hole.value))
      ensures !ok ==> vol.V() == old(vol.V()) && lay == old(lay) && NoneFree(vol.V())
    {
      hide Pending, Added, Naming, FreeAt, DirBuffer, View, GeometryOk, Mirrored, Sealed, Link, NoneFree, ClusterSize,
           Entries, Seen, HoleOk;
      ClusterAligned(vol.g, vol.disk.Length);
      PendingStart(v0, lay0, v0, lay0, d, short11, attr, start, size);
      ghost var n := |lay0.chains[d]|;
      ghost var phys := vol.V();
      var cur := d;
      ghost var i := 0;
      while true
        invariant vol.Ok() && HoleOk(vol.V(), lay, d, hole)
        invariant Pending(Seen(vol.V(), hole), lay, v0, lay0, d, short11, attr, start, size) && d in lay.chains
        invariant 0 <= i < |lay.chains[d]| && cur == lay.chains[d][i]
        invariant |lay.chains[d]| == n || (i == n && |lay.chains[d]| == n + 1)
        invariant i < n ==> vol.V() == phys && lay == lay0
        invariant i == n ==> cur < Entries(vol.g) && vol.V().data[cur] == Zeros(ClusterSize(vol.g))
        invariant hole.Some? ==>
              SlotOk(phys, hole.value) && SlotOk(vol.V(), hole.value)
              && Slot(vol.V(), hole.value) == Slot(phys, hole.value)
        decreases n - i
      {
        ghost var v, lay1 := Seen(vol.V(), hole), lay;
        PendingStep(v, lay1, v0, lay0, d, i, short11, attr, start, size);
        SeenStep(vol.V(), v, lay1, v0, lay0, d, i, short11, attr, start, size, hole);
        var cl := vol.ReadCluster(cur);
        assert i == n ==> cl[0] == 0;
        var off := ScanFree(cl);
        if off < |cl| {
          PendingSlot(v, lay1, v0, lay0, d, i, off, short11, attr, start, size);
          WriteNewSlot(d, i, cur, cl, off, short11, attr, start, size, hole, v, lay1);
          PendingAdded(Seen(vol.V(), hole), lay, v, lay1, v0, lay0, d, short11, attr, start, size);
          return true;
        }
        var nxt := NextCluster(cur);
        if nxt >= Eoc(vol.g) || nxt == 0 {
          ghost var before := vol.V();
          var newCl := LinkZeroed(cur);
          if newCl < 2 {
            return false;
          }
          SeenLinked(before, vol.V(), v, lay1, v0, lay0, d, newCl, ClusterSize(vol.g), short11, attr, start, size,
                     Mark(vol.g), hole);
          lay := Extended(lay1, d, newCl);
          cur := newCl;
        } else {
          cur := nxt;
        }
        i := i + 1;
      }
    }

    /** Adds an entry to a directory chain: FAT32's AddFileEntryToDir (attribute 0x20) and AddEntryToDirCluster
        (attribute 0x10 or 0x20, size 0), FAT16's AddFileEntryToDir and the copy of it inside Mkdir. */
    method AddEntryToDir(d: nat, short11: seq<byte>, attr: byte, start: nat, size: nat) returns (ok: bool)
      requires Valid() && Naming(vol.V(), lay, d, short11, attr, start, size) && d >= 2 && start != d
      requires attr == 0x10 ==> start != root
      modifies this`lay, vol.disk
      ensures Valid() && lay.names.Keys == old(lay.names.Keys)
      ensures ok ==> Names() == old(Names())[Key(d, Dotted(short11)) := old(HeadNode(vol.V(), lay, attr, start, size))]
      ensures !ok ==> vol.V() == old(vol.V()) && Names() == old(Names()) && NoneFree(vol.V())
    {
      hide Wf, Naming, Tree, Rooted, HeadNode, Dotted, Pending, Added, View, GeometryOk, Mirrored, Sealed, NoneFree;
      ghost var v0, lay0 := vol.V(), lay;
      PendingInit(v0, lay0, d, short11, attr, start, size);
      ok := InsertIntoChain(d, short11, attr, start, size, None, v0, lay0);
      if ok {
        AddedMeans(vol.V(), lay, v0, lay0, d, short11, attr, start, size);
        RootedHead(Tree(v0, lay0), v0, lay0, Key(d, Dotted(short11)), attr, start, size, root);
      }
    }

    /** The chain loop of ReadFile: at most `maxLen` bytes of a file of recorded size `fileSz`. */
    method ReadChain(startCl: nat, fileSz: nat, maxLen: nat) returns (out: seq<byte>)
      requires Valid() && (startCl == 0 || (startCl >= 2 && startCl in lay.chains))
      requires maxLen + ClusterSize(vol.g) < U32_LIMIT
      ensures out == Cut(Cut(ChainBytes(vol.V(), lay, startCl), fileSz), maxLen)
    {
      hide Wf, View, GeometryOk, Mirrored, Sealed, Entries, ClusterSize, ReadSoFar, Concat, Cut;
      ghost var v := vol.V();
      var toRead := if fileSz < maxLen then fileSz else maxLen;
      CutCut(ChainBytes(v, lay, startCl), fileSz, maxLen);
      out := [];
      var cl := startCl;
      if cl < 2 {
        CutNone(toRead);
        return;
      }
      ghost var chain: seq<nat> := lay.chains[startCl];
      ChainWithin(v, lay, startCl);
      ReadStart(v.data, chain, toRead);
      ghost var i := 0;
      ChainStep(v, lay, startCl, 0);
      while cl >= 2 && cl < Eoc(vol.g) && |out| < toRead
        invariant 0 <= i < |chain| && cl == chain[i] && 2 <= cl < Eoc(vol.g) && |out| <= toRead
        invariant ReadSoFar(out, v.data, chain, i, toRead)
        decreases |chain| - i
      {
        ChainStep(v, lay, startCl, i);
        var clBuf := vol.ReadCluster(cl);
        var chunk := |clBuf|;
        if |out| + chunk > toRead {
          chunk := toRead - |out|;
        }
        ReadStep(out, v.data, chain, i, toRead, chunk);
        out := out + clBuf[..chunk];
        var nxt := NextCluster(cl);
        if nxt >= Eoc(vol.g) || nxt == 0 {
          ReadEnd(out, v.data, chain, i + 1, toRead);
          return;
        }
        cl := nxt;
        i := i + 1;
      }
      ReadEnd(out, v.data, chain, i, toRead);
    }

    /** A chain of one zeroed cluster, or 0 when full. */
    method StartChain() returns (newCl: nat)
      requires Valid()
      modifies this`lay, vol.disk
      ensures vol.Ok() && SameTree(old(vol.V()), old(lay), vol.V(), lay)
      ensures newCl == 0 || 2 <= newCl < Eoc(vol.g)
      ensures newCl == 0 ==> lay == old(lay) && vol.V() == old(vol.V()) && NoneFree(vol.V())
      ensures newCl != 0 ==> Hidden(vol.V(), lay, newCl) && newCl != lay.lost
      ensures newCl != 0 ==> newCl in lay.chains && |lay.chains[newCl]| > 0 && newCl == Last(lay, newCl)
      ensures newCl != 0 ==> ChainBytes(vol.V(), lay, newCl) == Zeros(ClusterSize(vol.g))
    {
      hide Wf, View, GeometryOk, Mirrored, Sealed, Tree, Rooted, Hidden, NoneFree, ChainBytes, Entries, Zeros,
           ClusterSize;
      ghost var v0, lay0, n := vol.V(), lay, ClusterSize(vol.g);
      newCl := AllocateCluster();
      if newCl < 2 {
        return 0;
      }
      vol.ZeroCluster(newCl);
      UpdateFAT(newCl, Mark(vol.g));
      StartHidden(v0, vol.V(), lay0, newCl, Mark(vol.g), Zeros(n));
      lay := WithHead(lay0, newCl);
    }

    /** The create branch of WriteFile up to the directory entry: a chain holding `data`, or 0 when full. */
    method CreateChain(data: seq<byte>) returns (newCl: nat)
      requires Valid() && |data| > 0
      modifies this`lay, vol.disk
      ensures Valid() && lay.names == old(lay.names) && Names() == old(Names())
      ensures newCl == 0 || newCl >= 2
      ensures newCl == 0 ==> NoneFree(vol.V())
      ensures newCl != 0 ==> Hidden(vol.V(), lay, newCl) && newCl != lay.lost && newCl < Eoc(vol.g)
      ensures newCl != 0 ==> Holds(ChainBytes(vol.V(), lay, newCl), data, ClusterSize(vol.g))
    {
      hide Wf, View, GeometryOk, Mirrored, Sealed, Tree, Rooted, Hidden, Filling, NoneFree, Chunk, Link, Holds,
           ChainBytes, Entries, Zeros, ClusterSize;
      ghost var v0, lay0 := vol.V(), lay;
      ClusterAligned(vol.g, vol.disk.Length);
      ghost var n := ClusterSize(vol.g);
      newCl := StartChain();
      if newCl < 2 {
        return 0;
      }
      FillingStart(Zeros(n), data, n);
      var done := 0;
      var current := newCl;
      while done < |data|
        invariant vol.Ok() && SameTree(v0, lay0, vol.V(), lay) && Hidden(vol.V(), lay, newCl) && done <= |data|
        invariant newCl in lay.chains && |lay.chains[newCl]| > 0 && current == Last(lay, newCl) && newCl != lay.lost
        invariant Filling(ChainBytes(vol.V(), lay, newCl), data, done, n)
      {
        ghost var v, lay1 := vol.V(), lay;
        ghost var cb := ChainBytes(v, lay1, newCl);
        HiddenLast(v, lay1, newCl);
        var buf, chunk := FillBuffer(data, done, ClusterSize(vol.g));
        vol.WriteCluster(current, buf);
        FillHidden(v, vol.V(), lay1, newCl, buf);
        HiddenRewritten(v, lay1, newCl, buf, data, done, n);
        FillStep(cb, data, done, n);
        done := done + chunk;
        if done < |data| {
          ghost var v2 := vol.V();
          var nextCl := LinkZeroed(current);
          if nextCl < 2 {
            HiddenWf(v2, lay, newCl);
            return 0;
          }
          HiddenLink(v2, lay, newCl, nextCl, Mark(vol.g));
          GrowHidden(v2, vol.V(), lay, newCl, nextCl, Mark(vol.g), Zeros(n));
          lay := Extended(lay, newCl, nextCl);
          current := nextCl;
        }
      }
      HiddenWf(vol.V(), lay, newCl);
      FillingEnd(ChainBytes(vol.V(), lay, newCl), data, n);
    }

    /** The walk to the end of a chain. */
    method LastCluster(startCl: nat) returns (lastCl: nat)
      requires vol.Ok() && Wf(vol.V(), lay) && startCl >= 2 && startCl in lay.chains
      ensures |lay.chains[startCl]| > 0 && lastCl == Last(lay, startCl)
    {
      hide Wf, View, GeometryOk, Mirrored, Sealed, Entries;
      ghost var chain: seq<nat> := lay.chains[startCl];
      ChainStart(vol.V(), lay, startCl);
      lastCl := startCl;
      ghost var i := 0;
      while true
        invariant 0 <= i < |chain| && lastCl == chain[i]
        decreases |chain| - i
      {
        ChainStep(vol.V(), lay, startCl, i);
        var nxt := NextCluster(lastCl);
        if nxt >= Eoc(vol.g) || nxt == 0 {
          break;
        }
        lastCl := nxt;
        i := i + 1;
      }
    }

    /** Read-modify-write of the last cluster of a chain, from `offsetInLast` on. */
    method FillLast(lastCl: nat, offsetInLast: nat, data: seq<byte>, ghost startCl: nat, ghost v0: Vol)
      returns (chunk: nat)
      requires vol.Ok() && v0 == vol.V() && Growing(v0, lay, v0, lay, startCl)
      requires startCl in lay.chains && |lay.chains[startCl]| > 0 && lastCl == Last(lay, startCl)
      requires 2 <= lastCl < Entries(vol.g) && offsetInLast < ClusterSize(vol.g)
      modifies vol.disk
      ensures vol.Ok() && Growing(vol.V(), lay, v0, lay, startCl)
              && chunk == Min(|data|, ClusterSize(vol.g) - offsetInLast)
      ensures ClusterSize(vol.g) <= |ChainBytes(v0, lay, startCl)|
      ensures ChainBytes(vol.V(), lay, startCl) ==
              Placed(ChainBytes(v0, lay, startCl), offsetInLast, ClusterSize(vol.g), true, data, chunk)
    {
      hide View, GeometryOk, Mirrored, Sealed, Growing, ChainBytes, Entries, ClusterSize, Placed, Splice;
      var bytesPerCluster := ClusterSize(vol.g);
      GrowingLast(v0, lay, v0, lay, startCl, []);
      var buf := vol.ReadCluster(lastCl);
      var space := bytesPerCluster - offsetInLast;
      chunk := if |data| > space then space else |data|;
      PlaceFirst(ChainBytes(v0, lay, startCl), offsetInLast, bytesPerCluster, data, buf);
      buf := Splice(buf, offsetInLast, data[..chunk]);
      vol.WriteCluster(lastCl, buf);
      GrowRewrite(v0, vol.V(), lay, v0, lay, startCl, buf);
      GrowingLast(v0, lay, v0, lay, startCl, buf);
    }

    /** One turn of its loop: a new last cluster with the next bytes of `data`. */
    method AppendCluster(lastCl: nat, data: seq<byte>, done: nat, ghost startCl: nat, ghost v0: Vol, ghost lay0: Layout)
      returns (newCl: nat, chunk: nat)
      requires vol.Ok() && Growing(vol.V(), lay, v0, lay0, startCl) && done < |data|
      requires startCl in lay.chains && |lay.chains[startCl]| > 0 && lastCl == Last(lay, startCl)
      modifies this`lay, vol.disk
      ensures vol.Ok() && Growing(vol.V(), lay, v0, lay0, startCl)
      ensures startCl in lay.chains && |lay.chains[startCl]| > 0
      ensures newCl < 2 ==> lay == old(lay) && vol.V() == old(vol.V()) && NoneFree(vol.V())
      ensures newCl >= 2 ==> newCl == Last(lay, startCl) && chunk == Min(|data| - done, ClusterSize(vol.g))
      ensures newCl >= 2 ==> ChainBytes(vol.V(), lay, startCl) ==
                             old(ChainBytes(vol.V(), lay, startCl)) + Chunk(data, done, ClusterSize(vol.g))
    {
      hide Wf, View, GeometryOk, Mirrored, Sealed, Growing, Chunk, Link, ChainBytes, Entries, Zeros, ClusterSize,
           NoneFree;
      ghost var v, lay1 := vol.V(), lay;
      ClusterAligned(vol.g, vol.disk.Length);
      GrowingFacts(v, lay1, v0, lay0, startCl);
      var buf;
      buf, chunk := FillBuffer(data, done, ClusterSize(vol.g));
      newCl := LinkFilled(lastCl, buf);
      if newCl < 2 {
        return;
      }
      GrowingLink(v, lay1, v0, lay0, startCl, newCl, Mark(vol.g));
      GrowLink(v, vol.V(), lay1, v0, lay0, startCl, newCl, Mark(vol.g), buf);
      lay := Extended(lay1, startCl, newCl);
    }

    /** The append branch of WriteFile up to the size update. */
    method AppendData(startCl: nat, fileSz: nat, data: seq<byte>, ghost k: Key)
      returns (ok: bool, newSize: nat)
      requires Valid() && |data| > 0 && EntryOk(vol.V(), lay, k) && !DirBit(EntrySlot(vol.V(), lay, k)[11])
      requires startCl == Head(vol.V(), lay, k) && startCl >= 2 && fileSz == SizeOf(EntrySlot(vol.V(), lay, k))
      modifies this`lay, vol.disk
      ensures vol.Ok() && Growing(vol.V(), lay, old(vol.V()), old(lay), startCl)
      ensures Appended(ChainBytes(vol.V(), lay, startCl), old(ChainBytes(vol.V(), lay, startCl)), fileSz,
                       ClusterSize(vol.g), Rewrites(vol.g.wide, fileSz, ClusterSize(vol.g)), data, ok)
      ensures ok ==> newSize == Wrapped(fileSz + |data|)
      ensures !ok ==> NoneFree(vol.V())
    {
      hide Wf, View, GeometryOk, Mirrored, Sealed, Growing, Chunk, Link, ChainBytes, Entries, Zeros, ClusterSize,
           NoneFree, Placed, Appended, Splice, StartOf, SizeOf, Rewrites, Wrapped, OffsetOf;
      ghost var v0, lay0 := vol.V(), lay;
      GrowInit(v0, lay0, k);
      GrowingFacts(v0, lay0, v0, lay0, startCl);
      var lastCl := LastCluster(startCl);
      var bytesPerCluster := ClusterSize(vol.g);
      ClusterAligned(vol.g, vol.disk.Length);
      var offsetInLast := OffsetOf(fileSz, bytesPerCluster);
      var rmw := Rewrites(vol.g.wide, fileSz, bytesPerCluster);
      ghost var store := ChainBytes(v0, lay0, startCl);
      GrowingLast(v0, lay0, v0, lay0, startCl, []);
      var done := 0;
      newSize := fileSz;
      WrapSmall(fileSz);
      if rmw {
        var chunk := FillLast(lastCl, offsetInLast, data, startCl, v0);
        AppendMaybeDone(ChainBytes(vol.V(), lay, startCl), store, fileSz, bytesPerCluster, rmw, data, chunk);
        WrapAdd(fileSz, chunk);
        done := chunk;
        newSize := Wrapped(newSize + chunk);
      } else {
        PlaceNone(store, offsetInLast, bytesPerCluster, data);
      }
      ghost var cb := ChainBytes(vol.V(), lay, startCl);
      while done < |data|
        invariant vol.Ok() && Growing(vol.V(), lay, v0, lay0, startCl) && done <= |data|
        invariant startCl in lay.chains && |lay.chains[startCl]| > 0 && lastCl == Last(lay, startCl)
        invariant cb == ChainBytes(vol.V(), lay, startCl) && newSize == Wrapped(fileSz + done)
        invariant rmw ==> done >= Min(|data|, bytesPerCluster - offsetInLast)
        invariant done < |data| ==> cb == Placed(store, offsetInLast, bytesPerCluster, rmw, data, done)
        invariant done == |data| ==> Appended(cb, store, fileSz, bytesPerCluster, rmw, data, true)
      {
        var newCl, chunk := AppendCluster(lastCl, data, done, startCl, v0, lay0);
        if newCl < 2 {
          AppendStopped(cb, store, fileSz, bytesPerCluster, rmw, data, done);
          return false, newSize;
        }
        PlaceNext(cb, store, offsetInLast, bytesPerCluster, rmw, data, done);
        cb := ChainBytes(vol.V(), lay, startCl);
        AppendMaybeDone(cb, store, fileSz, bytesPerCluster, rmw, data, done + chunk);
        WrapAdd(fileSz + done, chunk);
        done := done + chunk;
        newSize := Wrapped(newSize + chunk);
        lastCl := newCl;
      }
      ok := true;
    }

    /** The read-modify-write of the last cluster of the lost chain. */
    method FillLost(lastCl: nat, offsetInLast: nat, data: seq<byte>, ghost v0: Vol) returns (chunk: nat)
      requires vol.Ok() && v0 == vol.V() && lay.lost != NOBODY && Hidden(v0, lay, lay.lost) && |data| > 0
      requires lay.lost in lay.chains && |lay.chains[lay.lost]| > 0 && lastCl == Last(lay, lay.lost)
      requires offsetInLast < ClusterSize(vol.g)
      modifies vol.disk
      ensures vol.Ok() && chunk <= |data| && Losing(vol.V(), lay, v0, lay, lastCl, data, chunk, ClusterSize(vol.g))
    {
      hide View, GeometryOk, Mirrored, Sealed, Losing, Hidden, ClusterSize, Splice;
      HiddenLast(v0, lay, lay.lost);
      var buf := vol.ReadCluster(lastCl);
      var space := ClusterSize(vol.g) - offsetInLast;
      chunk := if |data| > space then space else |data|;
      buf := Splice(buf, offsetInLast, data[..chunk]);
      vol.WriteCluster(lastCl, buf);
      LosingFill(v0, vol.V(), lay, buf, data, chunk, ClusterSize(vol.g));
    }

    /** The append branch for an entry that records no start cluster. The walk starts at cluster 0, so it follows
        entry 0 of the table, and the first new cluster is linked there. The entry itself stays without a start,
        so the bytes go to a chain that no entry leads to. */
    method AppendLost(fileSz: nat, data: seq<byte>, ghost k: Key) returns (ok: bool, newSize: nat)
      requires Valid() && |data| > 0 && EntryOk(vol.V(), lay, k) && !DirBit(EntrySlot(vol.V(), lay, k)[11])
      requires Head(vol.V(), lay, k) == 0 && fileSz == SizeOf(EntrySlot(vol.V(), lay, k))
      modifies this`lay, vol.disk
      ensures Valid() && lay.names == old(lay.names) && Names() == old(Names())
      ensures ok ==> newSize == Wrapped(fileSz + |data|) && lay.lost != NOBODY
      ensures old(lay.lost) != NOBODY ==> lay.lost == old(lay.lost)
      ensures ok && old(lay.lost) == NOBODY ==> Holds(ChainBytes(vol.V(), lay, lay.lost), data, ClusterSize(vol.g))
      ensures !ok ==> NoneFree(vol.V())
    {
      hide Wf, View, GeometryOk, Mirrored, Sealed, Tree, Rooted, Losing, Chunk, Link, ChainBytes, Entries, Zeros,
           ClusterSize;
      hide NoneFree, Splice, StartOf, SizeOf, Rewrites, Hidden, Holds, Wrapped, OffsetOf;
      ghost var v0, lay0 := vol.V(), lay;
      LostFacts(v0, lay0, k);
      ClusterAligned(vol.g, vol.disk.Length);
      var bytesPerCluster := ClusterSize(vol.g);
      var lastCl := 0;
      var first := NextCluster(0);
      if !(first >= Eoc(vol.g) || first == 0) {
        lastCl := LastCluster(first);
      }
      var offsetInLast := OffsetOf(fileSz, bytesPerCluster);
      var done := 0;
      newSize := fileSz;
      WrapSmall(fileSz);
      LosingStart(v0, lay0, lastCl, data, bytesPerCluster);
      if Rewrites(vol.g.wide, fileSz, bytesPerCluster) {
        NoRewrite(vol.g.wide, bytesPerCluster);
        var chunk := FillLost(lastCl, offsetInLast, data, v0);
        WrapAdd(fileSz, chunk);
        done := chunk;
        newSize := Wrapped(newSize + chunk);
      }
      while done < |data|
        invariant vol.Ok() && Losing(vol.V(), lay, v0, lay0, lastCl, data, done, bytesPerCluster) && done <= |data|
        invariant newSize == Wrapped(fileSz + done)
        invariant done == |data| ==> lay.lost != NOBODY
      {
        ghost var v, lay1 := vol.V(), lay;
        LosingLast(v, lay1, v0, lay0, lastCl, data, done, bytesPerCluster);
        var buf, chunk := FillBuffer(data, done, bytesPerCluster);
        var newCl := LinkFilled(lastCl, buf);
        if newCl < 2 {
          LosingTree(v, lay1, v0, lay0, lastCl, data, done, bytesPerCluster);
          return false, newSize;
        }
        lay := LosingStep(v, vol.V(), lay1, v0, lay0, lastCl, newCl, Mark(vol.g), data, done, bytesPerCluster);
        WrapAdd(fileSz + done, chunk);
        done := done + chunk;
        newSize := Wrapped(newSize + chunk);
        lastCl := newCl;
      }
      LosingTree(vol.V(), lay, v0, lay0, lastCl, data, done, bytesPerCluster);
      ok := true;
    }

    /** Rewrites the size field of an entry in a directory cluster. */
    method StoreSizeInDir(entryCl: nat, entryOff: nat, size: nat, ghost k: Key)
      requires Valid() && EntryOk(vol.V(), lay, k) && !DirBit(EntrySlot(vol.V(), lay, k)[11])
      requires At(lay, k) == Pos(entryCl, entryOff) && entryCl >= 2
      requires Head(vol.V(), lay, k) != 0 || size % U32_LIMIT == 0 || lay.lost != NOBODY
      modifies this`lay, vol.disk
      ensures Valid() && lay.names.Keys == old(lay.names.Keys) && lay.lost == old(lay.lost)
      ensures Names() == old(Names())[k := File(size % U32_LIMIT, old(ChainBytes(vol.V(), lay, Head(vol.V(), lay, k))))]
    {
      hide Wf, View, GeometryOk, Mirrored, Sealed, Tree, Rooted, Entries, ChainBytes, StartOf, SizeOf, Splice, Le32;
      ghost var v, lay0 := vol.V(), lay;
      var dirBuf := vol.ReadCluster(entryCl);
      dirBuf := Splice(dirBuf, entryOff + 28, Le32(size));
      vol.WriteCluster(entryCl, dirBuf);
      lay := SizeWritten(v, vol.V(), lay0, k, size);
      RootedFile(Tree(v, lay0), k, File(size % U32_LIMIT, ChainBytes(v, lay0, Head(v, lay0, k))), root);
    }
  }

  lemma RootedHead(t: Namespace, v: Vol, lay: Layout, k: Key, attr: byte, start: nat, size: nat, root: nat)
    requires Rooted(t, root) && (attr == 0x10 ==> start != root)
    ensures Rooted(t[k := HeadNode(v, lay, attr, start, size)], root)
  {
    hide ChainBytes;
  }

  lemma RootedFile(t: Namespace, k: Key, n: Node, root: nat)
    requires Rooted(t, root) && n.File?
    ensures Rooted(t[k := n], root)
  {
  }

  lemma FirstCopy(g: Geometry, len: nat)
    requires GeometryOk(g, len)
    ensures CopyFits(g, len, 0) && FatBytes(g) % SECTOR == 0 && Entries(g) <= Eoc(g) && Entries(g) <= TableEntries(g)
  {
    CopyBounds(g, len, 0);
  }

  /** The bytes of an entry that is set to `value`. */
  function EntryImage(wide: bool, sec: seq<byte>, o: nat, value: nat): (r: seq<byte>)
    requires o + (if wide then 4 else 2) <= |sec|
    ensures |r| == if wide then 4 else 2
  {
    if wide then Le32(U32(sec, o) / MASK28 * MASK28 + value) else Le16(value)
  }

  lemma EntryBytes(wide: bool, sec: seq<byte>, o: nat, value: nat)
    requires o + (if wide then 4 else 2) <= |sec| && value < (if wide then MASK28 else 65536)
    ensures if wide then U32(EntryImage(wide, sec, o, value), 0) % MASK28 == value
            else U16(EntryImage(wide, sec, o, value), 0) == value
  {
    hide U32, Le32, U16, Le16;
    if wide {
      TopBits(U32(sec, o), value);
    }
  }

  /** The four bits above the 28 of the FAT32 entry at offset `o`. */
  ghost function TopAt(t: seq<byte>, o: nat): nat {
    if o + 4 <= |t| then U32(t, o) / MASK28 else 0
  }

  /** ... and of entry `c` in the first copy of the table. */
  ghost function Reserved(g: Geometry, b: seq<byte>, c: nat): nat
    requires GeometryOk(g, |b|)
  {
    CopyBounds(g, |b|, 0);
    TopAt(Copy(g, b, 0), EntryPos(true, c))
  }

  lemma TopBits(x: nat, value: nat)
    requires x < U32_LIMIT && value < MASK28
    ensures x / MASK28 * MASK28 + value < U32_LIMIT && (x / MASK28 * MASK28 + value) % MASK28 == value
    ensures (x / MASK28 * MASK28 + value) / MASK28 == x / MASK28
  {
    var top := x / MASK28;
    assert top <= 15;
  }

  lemma TopKept(t: seq<byte>, at: nat, eo: nat, value: nat)
    requires at + SECTOR <= |t| && eo + 4 <= SECTOR && value < MASK28
    ensures TopAt(Splice(t, at + eo, EntryImage(true, t[at..at + SECTOR], eo, value)), at + eo) == TopAt(t, at + eo)
  {
    hide Le32;
    var sec := t[at..at + SECTOR];
    assert U32(sec, eo) == U32(t, at + eo);
    TopBits(U32(sec, eo), value);
    var x := EntryImage(true, sec, eo, value);
    assert U32(Splice(t, at + eo, x), at + eo) == U32(x, 0);
  }

  lemma NoRewrite(wide: bool, n: nat)
    requires n > 0
    ensures !Rewrites(wide, 0, n)
  {
  }

  lemma FreeStep(t: seq<nat>, c: nat)
    requires c >= 2
    ensures FreeFrom(t, c) == if c >= |t| then 0 else if t[c] == 0 then c else FreeFrom(t, c + 1)
  {
  }

  /** Under a sealed table the search stays among the clusters of the device. */
  lemma FreeInside(t: seq<nat>, count: nat)
    requires 2 <= count <= |t| && NoneBeyond(t, count)
    ensures FreeFrom(t, 2) < count && FreeFrom(t, 2) == FreeFrom(t[..count], 2)
  {
  }

  lemma EntryWritten(g: Geometry, b: seq<byte>, b2: seq<byte>, c: nat, entry: seq<byte>, value: nat)
    requires GeometryOk(g, |b|) && |b2| == |b| && c < Entries(g) && |entry| == Width(g)
    requires if g.wide then U32(entry, 0) % MASK28 == value else U16(entry, 0) == value
    requires CopyFits(g, |b|, 0) && EntryPos(g.wide, c) + Width(g) <= FatBytes(g)
    requires Copy(g, b2, 0) == Splice(Copy(g, b, 0), EntryPos(g.wide, c), entry)
    ensures View(g, b2).fat == View(g, b).fat[c := value] && Sealed(g, b2) == Sealed(g, b)
  {
    hide Table, Splice, Copy, U32, U16, ClusterBytes;
    TableWritten(g, Copy(g, b, 0), c, entry, value);
    FrontWritten(FullTable(g, b), c, value, Entries(g));
  }

  lemma TableWritten(g: Geometry, t: seq<byte>, c: nat, entry: seq<byte>, value: nat)
    requires |t| == FatBytes(g) && c < TableEntries(g) && |entry| == Width(g)
    requires if g.wide then U32(entry, 0) % MASK28 == value else U16(entry, 0) == value
    requires EntryPos(g.wide, c) + Width(g) <= FatBytes(g)
    ensures c < |Table(g.wide, t)|
    ensures Table(g.wide, Splice(t, EntryPos(g.wide, c), entry)) == Table(g.wide, t)[c := value]
  {
    hide Table, Splice, U32, U16;
    TableSplice(g.wide, t, c, entry);
  }

  lemma FrontWritten(t: seq<nat>, c: nat, value: nat, count: nat)
    requires c < count <= |t|
    ensures t[c := value][..count] == t[..count][c := value]
    ensures NoneBeyond(t[c := value], count) == NoneBeyond(t, count)
  {
    var u := t[c := value];
    assert forall x | count <= x < |t| :: u[x] == t[x];
  }
}

/** The block device under both drivers, and their sector and cluster transfers. */
module FatDevice {
  import opened Bytes
  import opened FatVolume
  import opened FatImage

  class Volume {
    const g: Geometry
    const disk: array<byte>

    constructor (g: Geometry, disk: array<byte>)
      ensures this.g == g && this.disk == disk
    {
      this.g, this.disk := g, disk;
    }

    ghost predicate Ok()
      reads disk
    {
      GeometryOk(g, disk.Length) && Mirrored(g, disk[..]) && Sealed(g, disk[..])
    }

    ghost function V(): (v: Vol)
      requires Ok()
      reads disk
      ensures |v.fat| == |v.data| == Entries(g) && v.eoc == Eoc(g) && v.wide == g.wide
      ensures forall c | 2 <= c < |v.data| :: |v.data[c]| == ClusterSize(g)
      ensures 2 <= |v.data| <= TableEntries(g) && |v.data[0]| == g.rootSectors * SECTOR
    {
      LayoutBounds(g, disk.Length);
      View(g, disk[..])
    }

    /** The table as the first copy holds it. */
    ghost function Whole(): (t: seq<nat>)
      requires GeometryOk(g, disk.Length)
      reads disk
      ensures |t| == TableEntries(g) && Entries(g) <= |t|
      ensures Ok() ==> V().fat == t[..Entries(g)] && NoneBeyond(t, Entries(g))
    {
      CopyBounds(g, disk.Length, 0);
      FullTable(g, disk[..])
    }

    method ReadSectors(lba: nat, count: nat) returns (buf: seq<byte>)
      requires (lba + count) * SECTOR <= disk.Length
      ensures buf == disk[..][lba * SECTOR..(lba + count) * SECTOR]
    {
      buf := disk[lba * SECTOR..(lba + count) * SECTOR];
    }

    method WriteSectors(lba: nat, buf: seq<byte>)
      requires lba * SECTOR + |buf| <= disk.Length
      modifies disk
      ensures disk[..] == Splice(old(disk[..]), lba * SECTOR, buf)
    {
      forall i | 0 <= i < |buf| {
        disk[lba * SECTOR + i] := buf[i];
      }
      assert disk[..][lba * SECTOR..lba * SECTOR + |buf|] == buf;
    }

    method ReadCluster(c: nat) returns (buf: seq<byte>)
      requires Ok() && 2 <= c < Entries(g)
      ensures buf == V().data[c] && |buf| == ClusterSize(g)
    {
      ClusterBounds(g, disk.Length, c);
      buf := ReadSectors(ClusterToLBA(g, c), g.sectorsPerCluster);
    }

    method WriteCluster(c: nat, buf: seq<byte>)
      requires Ok() && 2 <= c < Entries(g) && |buf| == ClusterSize(g)
      modifies disk
      ensures Ok() && V() == old(V()).(data := old(V()).data[c := buf])
    {
      ghost var b := disk[..];
      ClusterBounds(g, disk.Length, c);
      WriteSectors(ClusterToLBA(g, c), buf);
      WriteInCluster(g, b, disk[..], c);
    }

    /** The sector-by-sector zero fill of a fresh cluster. */
    method ZeroCluster(c: nat)
      requires Ok() && 2 <= c < Entries(g)
      modifies disk
      ensures Ok() && V() == old(V()).(data := old(V()).data[c := Zeros(ClusterSize(g))])
    {
      ghost var b := disk[..];
      var zero := Zeros(SECTOR);
      var base := ClusterToLBA(g, c);
      ClusterBounds(g, disk.Length, c);
      var s := 0;
      while s < g.sectorsPerCluster
        invariant 0 <= s <= g.sectorsPerCluster
        invariant SameOutside(b, disk[..], ClOff(g, c), ClOff(g, c) + ClusterSize(g))
        invariant forall i | ClOff(g, c) <= i < ClOff(g, c) + s * SECTOR :: disk[..][i] == 0
      {
        WriteSectors(base + s, zero);
        s := s + 1;
      }
      WriteInCluster(g, b, disk[..], c);
      assert ClusterBytes(g, disk[..], c) == Zeros(ClusterSize(g));
    }

    /** Rewrites the first sector of a cluster. */
    method WriteFirstSector(c: nat, sec: seq<byte>)
      requires Ok() && 2 <= c < Entries(g) && |sec| == SECTOR
      modifies disk
      ensures Ok() && SECTOR <= |old(V()).data[c]|
      ensures V() == old(V()).(data := old(V()).data[c := Splice(old(V()).data[c], 0, sec)])
    {
      hide View, GeometryOk, Mirrored, Sealed, Splice, ClusterToLBA;
      ghost var b := disk[..];
      SectorInCluster(g, disk.Length, c);
      WriteSectors(ClusterToLBA(g, c), sec);
      FirstSectorWritten(g, b, disk[..], c, sec);
    }

    method WriteRootSector(s: nat, sec: seq<byte>)
      requires Ok() && s < g.rootSectors && |sec| == SECTOR
      modifies disk
      ensures Ok() && s * SECTOR + SECTOR <= |old(V()).data[0]|
      ensures V() == old(V()).(data := old(V()).data[0 := Splice(old(V()).data[0], s * SECTOR, sec)])
    {
      hide View, GeometryOk, Mirrored, Sealed, Splice;
      ghost var b := disk[..];
      SectorInRoot(g, disk.Length, s);
      WriteSectors(g.rootLBA + s, sec);
      RootSectorWritten(g, b, disk[..], s, sec);
    }

    /** Writes a table sector to the first copy and then to every mirror. */
    method WriteTableSector(index: nat, sec: seq<byte>, ghost eo: nat, ghost x: seq<byte>)
      requires Ok() && index < g.sectorsPerFAT
      requires eo + |x| <= SECTOR && sec == Splice(TableSector(index), eo, x)
      modifies disk
      ensures Mirrored(g, disk[..]) && View(g, disk[..]).data == old(V()).data
      ensures index * SECTOR + eo + |x| <= FatBytes(g)
      ensures Copy(g, disk[..], 0) == Splice(old(Copy(g, disk[..], 0)), index * SECTOR + eo, x)
    {
      hide View, GeometryOk, Mirrored, Sealed, Splice, Copying, FatBytes, CopyOff;
      ghost var b := disk[..];
      var f := 0;
      CopyingStart(g, b, index);
      ghost var t := Copy(g, b, 0);
      while f < g.numFATs
        invariant 0 <= f <= g.numFATs && |t| == FatBytes(g) && index * SECTOR + SECTOR <= |t|
        invariant Copying(g, b, disk[..], t, Splice(t, index * SECTOR + eo, x), f)
      {
        ghost var m := disk[..];
        MirrorFits(g, disk.Length, f, index);
        var mirror := g.fatStart + index + f * g.sectorsPerFAT;
        WriteSectors(mirror, sec);
        CopyingStep(g, b, m, disk[..], f, index, sec, t, eo, x);
        f := f + 1;
      }
      CopyingDone(g, b, disk[..], t, Splice(t, index * SECTOR + eo, x));
    }

    ghost function TableSector(index: nat): (s: seq<byte>)
      requires GeometryOk(g, disk.Length) && index < g.sectorsPerFAT
      reads disk
      ensures |s| == SECTOR
    {
      CopyBounds(g, disk.Length, 0);
      Copy(g, disk[..], 0)[index * SECTOR..index * SECTOR + SECTOR]
    }

    method ReadTableSector(index: nat) returns (sec: seq<byte>)
      requires GeometryOk(g, disk.Length) && index < g.sectorsPerFAT
      ensures sec == TableSector(index) && |sec| == SECTOR
    {
      hide GeometryOk;
      TableRange(g, disk[..], index);
      sec := ReadSectors(g.fatStart + index, 1);
    }
  }

  lemma TableRange(g: Geometry, b: seq<byte>, index: nat)
    requires GeometryOk(g, |b|) && index < g.sectorsPerFAT
    ensures CopyFits(g, |b|, 0) && index * SECTOR + SECTOR <= FatBytes(g) && (g.fatStart + index + 1) * SECTOR <= |b|
    ensures b[(g.fatStart + index) * SECTOR..(g.fatStart + index + 1) * SECTOR] ==
            Copy(g, b, 0)[index * SECTOR..index * SECTOR + SECTOR]
  {
    hide CopyOff, FatBytes, ClOff, TableEntries, Eoc;
    CopyBounds(g, |b|, 0);
    LayoutBounds(g, |b|);
    MirrorFits(g, |b|, 0, index);
    SectorInTable(g, index);
    PartOfPart(b, CopyOff(g, 0), CopyOff(g, 0) + FatBytes(g), index * SECTOR, SECTOR);
  }

  lemma SectorInTable(g: Geometry, index: nat)
    requires index < g.sectorsPerFAT
    ensures index * SECTOR + SECTOR <= FatBytes(g)
    ensures (g.fatStart + index) * SECTOR == g.fatStart * SECTOR + index * SECTOR
    ensures (g.fatStart + index + 1) * SECTOR == g.fatStart * SECTOR + index * SECTOR + SECTOR
  {
    MulMono(index, g.sectorsPerFAT, SECTOR);
    SectorMul(g.fatStart);
    SectorMul(index);
    SectorMul(g.fatStart + index);
    SectorMul(g.fatStart + index + 1);
  }

  // ---- Writing every copy of the table ----

  /** The first `f` copies hold `u` by now, the others still `t`, and nothing else has changed since `b`. */
  ghost predicate Copying(g: Geometry, b: seq<byte>, m: seq<byte>, t: seq<byte>, u: seq<byte>, f: nat) {
    && GeometryOk(g, |m|) && SameOutside(b, m, CopyOff(g, 0), g.rootLBA * SECTOR)
    && forall k: nat | k < g.numFATs :: CopyFits(g, |m|, k) && Copy(g, m, k) == if k < f then u else t
  }

  lemma CopyingStart(g: Geometry, b: seq<byte>, index: nat)
    requires GeometryOk(g, |b|) && Mirrored(g, b) && index < g.sectorsPerFAT
    ensures CopyFits(g, |b|, 0) && index * SECTOR + SECTOR <= FatBytes(g)
    ensures forall u :: Copying(g, b, b, Copy(g, b, 0), u, 0)
  {
    CopyBounds(g, |b|, 0);
    MulMono(index, g.sectorsPerFAT, SECTOR);
  }

  lemma MirrorFits(g: Geometry, len: nat, f: nat, index: nat)
    requires GeometryOk(g, len) && f < g.numFATs && index < g.sectorsPerFAT
    ensures (g.fatStart + index + f * g.sectorsPerFAT) * SECTOR == CopyOff(g, f) + index * SECTOR
    ensures CopyOff(g, f) + index * SECTOR + SECTOR <= len
  {
    CopyBounds(g, len, f);
    MulMono(index, g.sectorsPerFAT, SECTOR);
  }

  lemma CopyingStep(g: Geometry, b: seq<byte>, m: seq<byte>, m2: seq<byte>, f: nat, index: nat, sec: seq<byte>,
                    t: seq<byte>, eo: nat, x: seq<byte>)
    requires f < g.numFATs && index < g.sectorsPerFAT && |t| == FatBytes(g) && eo + |x| <= SECTOR
    requires index * SECTOR + SECTOR <= |t| && sec == Splice(t[index * SECTOR..index * SECTOR + SECTOR], eo, x)
    requires Copying(g, b, m, t, Splice(t, index * SECTOR + eo, x), f)
    requires CopyOff(g, f) + index * SECTOR + SECTOR <= |m| && m2 == Splice(m, CopyOff(g, f) + index * SECTOR, sec)
    ensures Copying(g, b, m2, t, Splice(t, index * SECTOR + eo, x), f + 1)
  {
    hide GeometryOk, Splice, CopyOff, FatBytes, SameOutside, Copy;
    CopyBounds(g, |m|, f);
    CopyWrite(g, m, m2, f, index * SECTOR, sec, t, eo, x);
    SameLength(m, m2, CopyOff(g, f), CopyOff(g, f) + FatBytes(g));
    Widen(b, m, m2, CopyOff(g, f), CopyOff(g, f) + FatBytes(g), CopyOff(g, 0), g.rootLBA * SECTOR);
    forall k: nat | k < g.numFATs
      ensures CopyFits(g, |m2|, k) && Copy(g, m2, k) == if k < f + 1 then Splice(t, index * SECTOR + eo, x) else t
    {
    }
  }

  lemma SameLength(m: seq<byte>, m2: seq<byte>, lo: nat, hi: nat)
    requires SameOutside(m, m2, lo, hi)
    ensures |m2| == |m|
  {
  }

  lemma CopyingDone(g: Geometry, b: seq<byte>, m: seq<byte>, t: seq<byte>, u: seq<byte>)
    requires GeometryOk(g, |b|) && |b| == |m| && Copying(g, b, m, t, u, g.numFATs)
    ensures Mirrored(g, m) && View(g, m).data == View(g, b).data && CopyFits(g, |m|, 0) && Copy(g, m, 0) == u
  {
    hide View, ClusterBytes;
    WriteInTable(g, b, m);
    CopyBounds(g, |b|, 0);
  }

  lemma Widen(b: seq<byte>, m: seq<byte>, m2: seq<byte>, lo: nat, hi: nat, lo2: nat, hi2: nat)
    requires SameOutside(b, m, lo2, hi2) && SameOutside(m, m2, lo, hi) && lo2 <= lo && hi <= hi2
    ensures SameOutside(b, m2, lo2, hi2)
  {
  }

  lemma SectorInCluster(g: Geometry, len: nat, c: nat)
    requires GeometryOk(g, len) && 2 <= c < Entries(g)
    ensures SECTOR <= ClusterSize(g) && ClOff(g, c) + ClusterSize(g) <= len
  {
    ClusterBounds(g, len, c);
    assert (g.sectorsPerCluster - 1) * SECTOR >= 0;
  }

  lemma FirstSectorWritten(g: Geometry, b: seq<byte>, b2: seq<byte>, c: nat, sec: seq<byte>)
    requires GeometryOk(g, |b|) && 2 <= c < Entries(g) && |sec| == SECTOR && ClOff(g, c) + SECTOR <= |b|
    requires b2 == Splice(b, ClOff(g, c), sec)
    ensures SECTOR <= |View(g, b).data[c]|
    ensures Sealed(g, b2) == Sealed(g, b) && (Mirrored(g, b) ==> Mirrored(g, b2))
    ensures View(g, b2) == View(g, b).(data := View(g, b).data[c := Splice(View(g, b).data[c], 0, sec)])
  {
    hide GeometryOk, Mirrored, Sealed, Splice, ClOff, Table, Copy, ClusterSize, Entries;
    SectorInCluster(g, |b|, c);
    SpliceSlice(b, ClOff(g, c), ClusterSize(g), 0, sec);
    WriteInCluster(g, b, b2, c);
  }

  lemma SectorInRoot(g: Geometry, len: nat, s: nat)
    requires GeometryOk(g, len) && s < g.rootSectors
    ensures (g.rootLBA + s) * SECTOR == g.rootLBA * SECTOR + s * SECTOR
    ensures s * SECTOR + SECTOR <= g.rootSectors * SECTOR
    ensures g.rootLBA * SECTOR + g.rootSectors * SECTOR == g.dataStart * SECTOR <= len
  {
    LayoutBounds(g, len);
  }

  lemma RootSectorWritten(g: Geometry, b: seq<byte>, b2: seq<byte>, s: nat, sec: seq<byte>)
    requires GeometryOk(g, |b|) && s < g.rootSectors && |sec| == SECTOR && (g.rootLBA + s) * SECTOR + SECTOR <= |b|
    requires b2 == Splice(b, (g.rootLBA + s) * SECTOR, sec)
    ensures |View(g, b).data| > 0 && s * SECTOR + SECTOR <= |View(g, b).data[0]|
    ensures Sealed(g, b2) == Sealed(g, b) && (Mirrored(g, b) ==> Mirrored(g, b2))
    ensures View(g, b2) == View(g, b).(data := View(g, b).data[0 := Splice(View(g, b).data[0], s * SECTOR, sec)])
  {
    hide GeometryOk, Mirrored, Sealed, Splice, Table, Copy, Entries;
    LayoutBounds(g, |b|);
    SectorInRoot(g, |b|, s);
    SpliceSlice(b, g.rootLBA * SECTOR, g.rootSectors * SECTOR, s * SECTOR, sec);
    WriteInRoot(g, b, b2);
  }

  lemma SpliceSlice(m: seq<byte>, o: nat, len: nat, at: nat, x: seq<byte>)
    requires o + len <= |m| && at + |x| <= len
    ensures Splice(m, o + at, x)[o..o + len] == Splice(m[o..o + len], at, x)
    ensures SameOutside(m, Splice(m, o + at, x), o, o + len)
  {
  }

  /** One mirror write, at offset `so` of a copy, replaces one entry in that copy. */
  lemma CopyWrite(g: Geometry, m: seq<byte>, m2: seq<byte>, f: nat, so: nat, sec: seq<byte>, t: seq<byte>, eo: nat,
                  x: seq<byte>)
    requires |t| == FatBytes(g) && so + SECTOR <= |t| && eo + |x| <= SECTOR
    requires sec == Splice(t[so..so + SECTOR], eo, x) && CopyFits(g, |m|, f) && Copy(g, m, f) == t
    requires m2 == Splice(m, CopyOff(g, f) + so, sec)
    ensures Copy(g, m2, f) == Splice(t, so + eo, x)
    ensures forall k: nat | k < g.numFATs && k != f && CopyFits(g, |m|, k) :: Copy(g, m2, k) == Copy(g, m, k)
    ensures SameOutside(m, m2, CopyOff(g, f), CopyOff(g, f) + FatBytes(g))
  {
    hide CopyOff, FatBytes, Splice, SameOutside;
    SectorSplice(t, so, eo, x);
    SpliceSlice(m, CopyOff(g, f), FatBytes(g), so, sec);
    OtherCopies(g, m, m2, f);
    SameLength(m, m2, CopyOff(g, f), CopyOff(g, f) + FatBytes(g));
  }

  lemma OtherCopies(g: Geometry, m: seq<byte>, m2: seq<byte>, f: nat)
    requires SameOutside(m, m2, CopyOff(g, f), CopyOff(g, f) + FatBytes(g))
    ensures forall k: nat | k != f && CopyFits(g, |m|, k) :: Copy(g, m2, k) == Copy(g, m, k)
  {
    forall k: nat | k != f && CopyFits(g, |m|, k)
      ensures Copy(g, m2, k) == Copy(g, m, k)
    {
      if k < f { CopiesApart(g, k, f); } else { CopiesApart(g, f, k); }
      SliceSame(m, m2, CopyOff(g, f), CopyOff(g, f) + FatBytes(g), CopyOff(g, k), CopyOff(g, k) + FatBytes(g));
    }
  }
}

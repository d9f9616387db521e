/**
  The on-disk picture of a volume: where the table copies, the FAT16 root directory and the clusters
  lie in the sectors of the device, and how a byte range written there changes the volume read back.
*/
module FatImage {
  import opened Bytes
  import opened FatVolume

  const SECTOR: nat := 512

  lemma SectorMul(s: nat)
    ensures s * SECTOR == s * 512 && s * SECTOR % 32 == 0
  {
    assert s * 512 == 32 * (16 * s);
  }

  const MASK28: nat := 0x1000_0000

  /** The mount-time constants (LBAs in sectors); `wide` selects 4-byte FAT32 entries. `clusters` counts the
      table entries that stand for a cluster of the device, the two reserved ones included: tables are rounded
      up to whole sectors, so there can be entries past it, and the drivers do not know where it lies. */
  datatype Geometry = Geometry(wide: bool, fatStart: nat, numFATs: nat, sectorsPerFAT: nat, rootLBA: nat,
                               rootSectors: nat, dataStart: nat, sectorsPerCluster: nat, clusters: nat)

  function Width(g: Geometry): nat {
    if g.wide then 4 else 2
  }

  /** The first value read as end of chain. */
  function Eoc(g: Geometry): nat {
    if g.wide then 0x0FFF_FFF8 else 0xFFF8
  }

  function FatBytes(g: Geometry): nat {
    g.sectorsPerFAT * SECTOR
  }

  /** All entries of one copy of the table. */
  function TableEntries(g: Geometry): nat {
    FatBytes(g) / Width(g)
  }

  /** The entries with a cluster behind them. */
  function Entries(g: Geometry): nat {
    g.clusters
  }

  function ClusterSize(g: Geometry): nat {
    g.sectorsPerCluster * SECTOR
  }

  function CopyOff(g: Geometry, k: nat): nat {
    (g.fatStart + k * g.sectorsPerFAT) * SECTOR
  }

  function ClusterToLBA(g: Geometry, c: nat): nat
    requires c >= 2
  {
    g.dataStart + (c - 2) * g.sectorsPerCluster
  }

  function ClOff(g: Geometry, c: nat): nat
    requires c >= 2
  {
    ClusterToLBA(g, c) * SECTOR
  }

  /** The regions follow each other and the device holds the clusters. */
  ghost predicate GeometryOk(g: Geometry, len: nat) {
    && g.numFATs >= 1 && g.sectorsPerFAT >= 1 && g.sectorsPerCluster >= 1
    && g.rootLBA == g.fatStart + g.numFATs * g.sectorsPerFAT
    && g.dataStart == g.rootLBA + g.rootSectors
    && 2 <= Entries(g) <= Eoc(g) && Entries(g) <= TableEntries(g)
    && ClOff(g, Entries(g)) <= len
  }

  function Table(wide: bool, t: seq<byte>): (r: seq<nat>)
    ensures |r| == |t| / (if wide then 4 else 2)
  {
    if wide then seq(|t| / 4, c requires 0 <= c < |t| / 4 => U32(t, 4 * c) % MASK28)
    else seq(|t| / 2, c requires 0 <= c < |t| / 2 => U16(t, 2 * c))
  }

  ghost function Copy(g: Geometry, b: seq<byte>, k: nat): (r: seq<byte>)
    requires CopyOff(g, k) + FatBytes(g) <= |b|
    ensures |r| == FatBytes(g)
  {
    b[CopyOff(g, k)..CopyOff(g, k) + FatBytes(g)]
  }

  /** The first copy of the table, entries without a cluster included. */
  ghost function FullTable(g: Geometry, b: seq<byte>): (t: seq<nat>)
    requires CopyOff(g, 0) + FatBytes(g) <= |b|
    ensures |t| == TableEntries(g)
  {
    Table(g.wide, Copy(g, b, 0))
  }

  /** No entry past the last cluster is 0, the mark of a free cluster. */
  ghost predicate Sealed(g: Geometry, b: seq<byte>)
    requires GeometryOk(g, |b|)
  {
    CopyBounds(g, |b|, 0);
    NoneBeyond(FullTable(g, b), Entries(g))
  }

  ghost predicate NoneBeyond(t: seq<nat>, count: nat) {
    forall c | count <= c < |t| :: t[c] != 0
  }

  ghost function ClusterBytes(g: Geometry, b: seq<byte>, c: nat): (r: seq<byte>)
    requires GeometryOk(g, |b|) && c < Entries(g)
    ensures c >= 2 ==> |r| == ClusterSize(g)
    ensures c == 0 ==> |r| == g.rootSectors * SECTOR
  {
    LayoutBounds(g, |b|);
    if c == 0 then b[g.rootLBA * SECTOR..g.dataStart * SECTOR]
    else if c == 1 then []
    else
      ClusterBounds(g, |b|, c);
      b[ClOff(g, c)..ClOff(g, c) + ClusterSize(g)]
  }

  ghost function View(g: Geometry, b: seq<byte>): (v: Vol)
    requires GeometryOk(g, |b|)
    ensures |v.fat| == |v.data| == Entries(g) && v.eoc == Eoc(g) && v.wide == g.wide
    ensures forall c | 2 <= c < |v.data| :: |v.data[c]| == ClusterSize(g)
    ensures |v.data| > 0 ==> |v.data[0]| == g.rootSectors * SECTOR
  {
    LayoutBounds(g, |b|);
    CopyBounds(g, |b|, 0);
    Vol(g.wide, Eoc(g), FullTable(g, b)[..Entries(g)],
        seq(Entries(g), c requires 0 <= c < Entries(g) => ClusterBytes(g, b, c)))
  }

  /** All copies of the table are the same bytes. */
  ghost predicate Mirrored(g: Geometry, b: seq<byte>)
    requires GeometryOk(g, |b|)
  {
    CopyBounds(g, |b|, 0);
    forall k: nat | k < g.numFATs :: CopyFits(g, |b|, k) && Copy(g, b, k) == Copy(g, b, 0)
  }

  ghost predicate CopyFits(g: Geometry, len: nat, k: nat) {
    CopyOff(g, k) + FatBytes(g) <= len
  }

  // ---- Bounds ----

  lemma MulMono(a: nat, b: nat, m: nat)
    requires a < b
    ensures a * m + m <= b * m
  {
    assert (b - a - 1) * m >= 0;
    assert b * m == a * m + m + (b - a - 1) * m;
  }

  lemma LayoutBounds(g: Geometry, len: nat)
    requires GeometryOk(g, len)
    ensures CopyOff(g, 0) == g.fatStart * SECTOR
    ensures g.rootLBA * SECTOR <= g.dataStart * SECTOR <= len
    ensures TableEntries(g) * Width(g) == FatBytes(g) && Entries(g) >= 2
  {
    hide CopyOff, FatBytes, Width, TableEntries, Eoc, ClOff;
    FirstOff(g);
    WholeTable(g);
    SectorMul(g.rootLBA);
    SectorMul(g.dataStart);
    DataInside(g, len);
  }

  lemma FirstOff(g: Geometry)
    ensures CopyOff(g, 0) == g.fatStart * SECTOR
  {
    assert g.fatStart + 0 * g.sectorsPerFAT == g.fatStart;
  }

  lemma WholeTable(g: Geometry)
    ensures TableEntries(g) * Width(g) == FatBytes(g)
  {
    SectorMul(g.sectorsPerFAT);
    if g.wide {
      assert FatBytes(g) == g.sectorsPerFAT * 128 * 4;
      Divides(FatBytes(g), 4, g.sectorsPerFAT * 128);
    } else {
      assert FatBytes(g) == g.sectorsPerFAT * 256 * 2;
      Divides(FatBytes(g), 2, g.sectorsPerFAT * 256);
    }
  }

  lemma Divides(a: nat, w: nat, q: nat)
    requires w > 0 && a == q * w
    ensures a / w * w == a
  {
    ModOf(q, w, 0);
  }

  lemma DataInside(g: Geometry, len: nat)
    requires Entries(g) >= 2 && ClOff(g, Entries(g)) <= len
    ensures g.dataStart * SECTOR <= len
  {
    var clusters: nat := Times(Entries(g) - 2, g.sectorsPerCluster);
    SectorMul(g.dataStart);
    SectorMul(g.dataStart + clusters);
  }

  /** A product of naturals is natural. */
  function Times(a: nat, b: nat): nat {
    a * b
  }

  lemma CopyBounds(g: Geometry, len: nat, k: nat)
    requires GeometryOk(g, len) && k < g.numFATs
    ensures CopyFits(g, len, k)
    ensures CopyOff(g, 0) <= CopyOff(g, k) && CopyOff(g, k) + FatBytes(g) <= g.rootLBA * SECTOR
  {
    assert k * g.sectorsPerFAT >= 0;
    LayoutBounds(g, len);
    MulMono(k, g.numFATs, g.sectorsPerFAT);
  }

  lemma CopiesApart(g: Geometry, j: nat, k: nat)
    requires j < k
    ensures CopyOff(g, j) + FatBytes(g) <= CopyOff(g, k)
  {
    MulMono(j, k, g.sectorsPerFAT);
  }

  lemma ClusterBounds(g: Geometry, len: nat, c: nat)
    requires GeometryOk(g, len) && 2 <= c < Entries(g)
    ensures g.dataStart * SECTOR <= ClOff(g, c) && ClOff(g, c) + ClusterSize(g) <= len
  {
    MulMono(c - 2, Entries(g) - 2, g.sectorsPerCluster);
  }

  lemma ClustersApart(g: Geometry, a: nat, b: nat)
    requires 2 <= a < b
    ensures ClOff(g, a) + ClusterSize(g) <= ClOff(g, b)
  {
    MulMono(a - 2, b - 2, g.sectorsPerCluster);
  }

  // ---- Writing a range ----

  ghost predicate SameOutside(b: seq<byte>, b2: seq<byte>, lo: nat, hi: nat) {
    |b| == |b2| && forall i | 0 <= i < |b| && !(lo <= i < hi) :: b2[i] == b[i]
  }

  lemma SliceSame(b: seq<byte>, b2: seq<byte>, lo: nat, hi: nat, x: nat, y: nat)
    requires SameOutside(b, b2, lo, hi) && x <= y <= |b| && (y <= lo || hi <= x)
    ensures b2[x..y] == b[x..y]
  {
  }

  lemma TableKept(g: Geometry, b: seq<byte>, b2: seq<byte>, lo: nat, hi: nat)
    requires GeometryOk(g, |b|) && SameOutside(b, b2, lo, hi) && g.rootLBA * SECTOR <= lo
    ensures View(g, b2).fat == View(g, b).fat && Sealed(g, b2) == Sealed(g, b)
    ensures Mirrored(g, b) ==> Mirrored(g, b2)
  {
    CopyBounds(g, |b|, 0);
    SliceSame(b, b2, lo, hi, CopyOff(g, 0), CopyOff(g, 0) + FatBytes(g));
    if Mirrored(g, b) {
      forall k: nat | k < g.numFATs
        ensures CopyFits(g, |b2|, k) && Copy(g, b2, k) == Copy(g, b2, 0)
      {
        CopyBounds(g, |b|, k);
        SliceSame(b, b2, lo, hi, CopyOff(g, k), CopyOff(g, k) + FatBytes(g));
      }
    }
  }

  /** A write inside cluster `c` changes that cluster of the volume and nothing else. */
  lemma WriteInCluster(g: Geometry, b: seq<byte>, b2: seq<byte>, c: nat)
    requires GeometryOk(g, |b|) && 2 <= c < Entries(g)
    requires SameOutside(b, b2, ClOff(g, c), ClOff(g, c) + ClusterSize(g))
    ensures View(g, b2) == View(g, b).(data := View(g, b).data[c := ClusterBytes(g, b2, c)])
    ensures Sealed(g, b2) == Sealed(g, b) && (Mirrored(g, b) ==> Mirrored(g, b2))
  {
    var lo, hi := ClOff(g, c), ClOff(g, c) + ClusterSize(g);
    LayoutBounds(g, |b|);
    ClusterBounds(g, |b|, c);
    TableKept(g, b, b2, lo, hi);
    forall x | 0 <= x < Entries(g) && x != c
      ensures ClusterBytes(g, b2, x) == ClusterBytes(g, b, x)
    {
      if x == 0 {
        SliceSame(b, b2, lo, hi, g.rootLBA * SECTOR, g.dataStart * SECTOR);
      } else if x >= 2 {
        ClusterBounds(g, |b|, x);
        if x < c { ClustersApart(g, x, c); } else { ClustersApart(g, c, x); }
        SliceSame(b, b2, lo, hi, ClOff(g, x), ClOff(g, x) + ClusterSize(g));
      }
    }
    assert View(g, b2).data == View(g, b).data[c := ClusterBytes(g, b2, c)];
  }

  /** A write inside the root region changes pseudo-cluster 0 and nothing else. */
  lemma WriteInRoot(g: Geometry, b: seq<byte>, b2: seq<byte>)
    requires GeometryOk(g, |b|)
    requires SameOutside(b, b2, g.rootLBA * SECTOR, g.dataStart * SECTOR)
    ensures View(g, b2) == View(g, b).(data := View(g, b).data[0 := ClusterBytes(g, b2, 0)])
    ensures Sealed(g, b2) == Sealed(g, b) && (Mirrored(g, b) ==> Mirrored(g, b2))
  {
    var lo, hi := g.rootLBA * SECTOR, g.dataStart * SECTOR;
    LayoutBounds(g, |b|);
    TableKept(g, b, b2, lo, hi);
    forall x | 1 <= x < Entries(g)
      ensures ClusterBytes(g, b2, x) == ClusterBytes(g, b, x)
    {
      if x >= 2 {
        ClusterBounds(g, |b|, x);
        SliceSame(b, b2, lo, hi, ClOff(g, x), ClOff(g, x) + ClusterSize(g));
      }
    }
    assert View(g, b2).data == View(g, b).data[0 := ClusterBytes(g, b2, 0)];
  }

  /** A write inside the table region changes no cluster. */
  lemma WriteInTable(g: Geometry, b: seq<byte>, b2: seq<byte>)
    requires GeometryOk(g, |b|)
    requires SameOutside(b, b2, CopyOff(g, 0), g.rootLBA * SECTOR)
    ensures View(g, b2).data == View(g, b).data
  {
    var lo, hi := CopyOff(g, 0), g.rootLBA * SECTOR;
    LayoutBounds(g, |b|);
    forall x | 0 <= x < Entries(g)
      ensures ClusterBytes(g, b2, x) == ClusterBytes(g, b, x)
    {
      if x == 0 {
        SliceSame(b, b2, lo, hi, g.rootLBA * SECTOR, g.dataStart * SECTOR);
      } else if x >= 2 {
        ClusterBounds(g, |b|, x);
        SliceSame(b, b2, lo, hi, ClOff(g, x), ClOff(g, x) + ClusterSize(g));
      }
    }
    assert View(g, b2).data == View(g, b).data;
  }

  /** Rewriting one sector with one entry changed is changing that entry in place. */
  lemma SectorSplice(b: seq<byte>, so: nat, eo: nat, x: seq<byte>)
    requires so + SECTOR <= |b| && eo + |x| <= SECTOR
    ensures Splice(b, so, Splice(b[so..so + SECTOR], eo, x)) == Splice(b, so + eo, x)
  {
    var sec := b[so..so + SECTOR];
    var l, r := Splice(b, so, Splice(sec, eo, x)), Splice(b, so + eo, x);
    assert l == b[..so] + sec[..eo] + x + sec[eo + |x|..] + b[so + SECTOR..];
    assert b[..so] + sec[..eo] == b[..so + eo];
    assert sec[eo + |x|..] + b[so + SECTOR..] == b[so + eo + |x|..];
  }

  lemma TableSplice(wide: bool, t: seq<byte>, c: nat, x: seq<byte>)
    requires |x| == (if wide then 4 else 2) && c < |t| / |x|
    ensures |x| * c + |x| <= |t|
    ensures Table(wide, Splice(t, |x| * c, x)) ==
            Table(wide, t)[c := if wide then U32(x, 0) % MASK28 else U16(x, 0)]
  {
    var u := Splice(t, |x| * c, x);
    if wide {
      assert u[4 * c..4 * c + 4] == x;
      assert x[0] == u[4 * c] && x[1] == u[4 * c + 1] && x[2] == u[4 * c + 2] && x[3] == u[4 * c + 3];
      assert Table(wide, u) == Table(wide, t)[c := U32(x, 0) % MASK28];
    } else {
      assert u[2 * c..2 * c + 2] == x;
      assert x[0] == u[2 * c] && x[1] == u[2 * c + 1];
      assert Table(wide, u) == Table(wide, t)[c := U16(x, 0)];
    }
  }

  // ---- Which cluster an allocation takes ----

  /** The least free entry from `c` on, or 0 when there is none. */
  ghost function FreeFrom(t: seq<nat>, c: nat): (r: nat)
    requires c >= 2
    ensures r == 0 ==> forall x | c <= x < |t| :: t[x] != 0
    ensures r != 0 ==> c <= r < |t| && t[r] == 0 && forall x | c <= x < r :: t[x] != 0
    decreases |t| - c
  {
    if c >= |t| then 0 else if t[c] == 0 then c else FreeFrom(t, c + 1)
  }

  /** The drivers search the whole table. However the clusters of the device are in use, they take one of those or
      none exactly when no entry past the last cluster is 0. */
  lemma AllocationInside(t: seq<nat>, count: nat)
    requires 2 <= count <= |t|
    ensures (forall u: seq<nat> | |u| == |t| && u[count..] == t[count..] :: FreeFrom(u, 2) < count) <==>
              NoneBeyond(t, count)
  {
    if NoneBeyond(t, count) {
      forall u: seq<nat> | |u| == |t| && u[count..] == t[count..]
        ensures FreeFrom(u, 2) < count
      {
        SameBeyond(t, u, count);
      }
    } else {
      var u := seq(count, i => 1) + t[count..];
      SameBeyond(u, t, count);
      assert u[count..] == t[count..] && FreeFrom(u, 2) >= count;
    }
  }

  lemma SameBeyond(t: seq<nat>, u: seq<nat>, count: nat)
    requires |u| == |t| && count <= |t| && u[count..] == t[count..]
    ensures NoneBeyond(t, count) ==> NoneBeyond(u, count)
  {
    assert forall c | count <= c < |u| :: u[c] == u[count..][c - count] && t[c] == t[count..][c - count];
  }
}

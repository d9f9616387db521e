/** An empty volume: the theorems about the drivers start from volumes like this one. */
module FatFormat {
  import opened Bytes
  import opened ShortName
  import opened FatVolume
  import opened FatTree
  import opened FatImage
  import opened FatScan
  import opened FatDevice
  import opened FatDriver

  /** Entry `c` of a fresh table is set: it is reserved, has no cluster behind it, or ends the FAT32 root directory. */
  predicate Preset(g: Geometry, c: nat) {
    c < 2 || c >= Entries(g) || (g.wide && c == 2)
  }

  function Fill(g: Geometry, c: nat): byte {
    if Preset(g, c) then 0xFF else 0
  }

  /** One copy of the fresh table. */
  function FreshTable(g: Geometry): (t: seq<byte>)
    ensures |t| == FatBytes(g)
  {
    seq(FatBytes(g), o requires 0 <= o => Fill(g, o / Width(g)))
  }

  /** Byte `i` of a fresh volume: everything but the copies of the table is 0. */
  function FreshByte(g: Geometry, i: nat): byte
    requires g.sectorsPerFAT > 0
  {
    if g.fatStart * SECTOR <= i < g.rootLBA * SECTOR
    then Fill(g, Wrap(i - g.fatStart * SECTOR, g.sectorsPerFAT) / Width(g))
    else 0
  }

  /** An offset in a run of copies, as an offset in one copy of `sectors` sectors. */
  function Wrap(o: nat, sectors: nat): nat
    requires sectors > 0
  {
    o % (sectors * SECTOR)
  }

  function RootOf(g: Geometry): nat {
    if g.wide then 2 else 0
  }

  /** Nothing but an empty root directory. */
  ghost function EmptyLayout(root: nat): Layout {
    Layout(map[root := [root]], map[root := Owner(root, 0)], map[root := map[]], map[], NOBODY)
  }

  /** A fresh volume of any geometry meets what the drivers ask for, and it is empty. */
  method Formatted(g: Geometry, len: nat) returns (fs: Fat)
    requires GeometryOk(g, len) && (g.wide ==> Entries(g) > 2)
    ensures fresh(fs) && fs.Valid() && fs.vol.g == g && fs.Names() == imap[]
  {
    hide GeometryOk, Mirrored, Sealed, View, Wf, Tree, Rooted, FreshByte;
    GeometryHasTable(g, len);
    var disk := new byte[len](i requires 0 <= i => FreshByte(g, i));
    var vol := new Volume(g, disk);
    FreshVolume(g, disk[..]);
    fs := new Fat(vol, RootOf(g), EmptyLayout(RootOf(g)));
  }

  lemma GeometryHasTable(g: Geometry, len: nat)
    requires GeometryOk(g, len)
    ensures g.sectorsPerFAT > 0
  {
  }

  ghost predicate IsFresh(g: Geometry, b: seq<byte>)
    requires g.sectorsPerFAT > 0
  {
    forall i | 0 <= i < |b| :: b[i] == FreshByte(g, i)
  }

  lemma FreshVolume(g: Geometry, b: seq<byte>)
    requires GeometryOk(g, |b|) && (g.wide ==> Entries(g) > 2) && IsFresh(g, b)
    ensures Mirrored(g, b) && Sealed(g, b)
    ensures var v, lay := View(g, b), EmptyLayout(RootOf(g));
            Wf(v, lay) && Tree(v, lay) == imap[] && Rooted(imap[], RootOf(g))
  {
    hide IsFresh, Wf, Tree, Table;
    forall k: nat | k < g.numFATs
      ensures CopyFits(g, |b|, k) && Copy(g, b, k) == FreshTable(g)
    {
      FreshCopy(g, b, k);
    }
    FreshEntries(g);
    FreshData(g, b);
    EmptyWf(View(g, b), RootOf(g));
  }

  lemma FreshCopy(g: Geometry, b: seq<byte>, k: nat)
    requires GeometryOk(g, |b|) && IsFresh(g, b) && k < g.numFATs
    ensures CopyFits(g, |b|, k) && Copy(g, b, k) == FreshTable(g)
  {
    hide GeometryOk, Wrap;
    GeometryHasTable(g, |b|);
    CopyBounds(g, |b|, k);
    forall o: nat | o < FatBytes(g)
      ensures Copy(g, b, k)[o] == Fill(g, o / Width(g))
    {
      InCopy(g, k, o);
      assert b[CopyOff(g, k) + o] == FreshByte(g, CopyOff(g, k) + o);
    }
  }

  lemma InCopy(g: Geometry, k: nat, o: nat)
    requires g.sectorsPerFAT > 0 && o < FatBytes(g)
    ensures g.fatStart * SECTOR <= CopyOff(g, k) + o
    ensures Wrap(CopyOff(g, k) + o - g.fatStart * SECTOR, g.sectorsPerFAT) == o
  {
    assert (g.fatStart + k * g.sectorsPerFAT) * SECTOR == g.fatStart * SECTOR + k * (g.sectorsPerFAT * SECTOR);
    ModOf(k, g.sectorsPerFAT * SECTOR, o);
  }

  /** The entries that the fresh table shows. */
  lemma FreshEntries(g: Geometry)
    ensures |Table(g.wide, FreshTable(g))| == TableEntries(g)
    ensures forall c | 0 <= c < TableEntries(g) ::
              Table(g.wide, FreshTable(g))[c] == if Preset(g, c) then (if g.wide then 0x0FFF_FFFF else 0xFFFF) else 0
  {
    forall c | 0 <= c < TableEntries(g)
      ensures Table(g.wide, FreshTable(g))[c] == if Preset(g, c) then (if g.wide then 0x0FFF_FFFF else 0xFFFF) else 0
    {
      FreshEntry(g, c);
    }
  }

  lemma FreshEntry(g: Geometry, c: nat)
    requires c < TableEntries(g)
    ensures Table(g.wide, FreshTable(g))[c] == if Preset(g, c) then (if g.wide then 0x0FFF_FFFF else 0xFFFF) else 0
  {
    hide Preset;
    var t := FreshTable(g);
    if g.wide {
      assert 4 * c / 4 == (4 * c + 1) / 4 == (4 * c + 2) / 4 == (4 * c + 3) / 4 == c;
      assert t[4 * c] == t[4 * c + 1] == t[4 * c + 2] == t[4 * c + 3] == Fill(g, c);
    } else {
      assert 2 * c / 2 == (2 * c + 1) / 2 == c;
      assert t[2 * c] == t[2 * c + 1] == Fill(g, c);
    }
  }

  /** A directory area without a slot ever used. */
  ghost predicate Blank(s: seq<byte>) {
    |s| % 32 == 0 && forall i | 0 <= i < |s| :: s[i] == 0
  }

  /** The root directory of a fresh volume is blank. */
  lemma FreshData(g: Geometry, b: seq<byte>)
    requires GeometryOk(g, |b|) && IsFresh(g, b) && RootOf(g) < Entries(g)
    ensures Blank(View(g, b).data[RootOf(g)])
  {
    LayoutBounds(g, |b|);
    SectorMul(g.rootSectors);
    SectorMul(g.sectorsPerCluster);
    if g.wide { ClusterBounds(g, |b|, 2); }
  }

  lemma EmptyWf(v: Vol, root: nat)
    requires 2 <= |v.fat| == |v.data| && |v.fat| <= v.eoc && root < |v.fat| && root != 1
    requires v.fat[0] >= v.eoc && (root >= 2 ==> v.fat[root] >= v.eoc)
    requires Blank(v.data[root])
    ensures Wf(v, EmptyLayout(root)) && Tree(v, EmptyLayout(root)) == imap[] && Rooted(imap[], root)
  {
    var lay := EmptyLayout(root);
    forall p: Pos | p.cl == root && SlotOk(v, p)
      ensures !Live(Slot(v, p))
    {
      assert Slot(v, p)[0] == v.data[root][p.off];
    }
    assert WfDir(v, [root], map[]);
    assert forall k: Key :: !Entry(lay, k);
  }
}

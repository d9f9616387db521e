/**
  A FAT volume as a value: one allocation table and the clusters it chains together.

  `Layout` is the bookkeeping that says which clusters belong to which file or directory and where
  each directory entry sits. `Wf` relates it to the raw table and bytes; `Tree` is what a reader sees.
  The FAT16 root directory, which is not a cluster chain, is kept as the bytes of pseudo-cluster 0.
*/
module FatVolume {
  import opened Bytes
  import opened ShortName

  datatype Vol = Vol(wide: bool, eoc: nat, fat: seq<nat>, data: seq<seq<byte>>)
  datatype Pos = Pos(cl: nat, off: nat)
  datatype Owner = Owner(head: nat, index: nat)
  datatype Key = Key(dir: nat, name: seq<byte>)
  /** A file node keeps the recorded size and everything its chain stores, slack included. */
  datatype Node = Dir(head: nat) | File(size: nat, store: seq<byte>)

  datatype Layout = Layout(
    chains: map<nat, seq<nat>>,
    own: map<nat, Owner>,
    names: map<nat, map<seq<byte>, Pos>>,
    refs: map<nat, Key>,
    lost: nat)

  /** No chain can start at cluster 1. As `lost` it says that entry 0 of the table, the media entry, leads nowhere. */
  const NOBODY: nat := 1

  // ---- Directory slots ----

  predicate Free(s: seq<byte>)
    requires |s| == 32
  {
    s[0] == 0x00 || s[0] == 0xE5
  }

  predicate Live(s: seq<byte>)
    requires |s| == 32
  {
    !Free(s) && s[11] != 0x0F
  }

  function NameOf(s: seq<byte>): (r: seq<byte>)
    requires |s| == 32
    ensures |r| == 11
  {
    s[..11]
  }

  function TextOf(s: seq<byte>): seq<byte>
    requires |s| == 32
  {
    Dotted(NameOf(s))
  }

  predicate DirBit(attr: byte) {
    attr / 16 % 2 == 1
  }

  predicate ArchiveBit(attr: byte) {
    attr / 32 % 2 == 1
  }

  /** The start clusters a slot can record. */
  function Span(wide: bool): nat {
    if wide then U32_LIMIT else 65536
  }

  function StartOf(wide: bool, s: seq<byte>): nat
    requires |s| == 32
  {
    U16(s, 26) + if wide then 65536 * U16(s, 20) else 0
  }

  function SizeOf(s: seq<byte>): (r: nat)
    requires |s| == 32
    ensures r < U32_LIMIT
  {
    U32(s, 28)
  }

  ghost predicate SlotOk(v: Vol, p: Pos) {
    p.cl < |v.data| && p.off % 32 == 0 && p.off + 32 <= |v.data[p.cl]|
  }

  ghost function Slot(v: Vol, p: Pos): (s: seq<byte>)
    requires SlotOk(v, p)
    ensures |s| == 32
  {
    v.data[p.cl][p.off..p.off + 32]
  }

  /** Once a slot says "no more entries", every later slot of the cluster says so too. */
  predicate ZeroTail(b: seq<byte>) {
    forall i, j | 0 <= i < j < |b| && i % 32 == 0 && j % 32 == 0 && b[i] == 0 :: b[j] == 0
  }

  // ---- Chains ----

  ghost predicate Linked(v: Vol, s: seq<nat>) {
    && |s| > 0
    && (forall i | 0 <= i < |s| :: 2 <= s[i] < |v.fat|)
    && (forall i | 0 <= i < |s| - 1 :: v.fat[s[i]] == s[i + 1])
    && v.fat[s[|s| - 1]] >= v.eoc
  }

  ghost predicate ChainAt(v: Vol, h: nat, s: seq<nat>) {
    if h == 0 then s == [0] else Linked(v, s) && s[0] == h
  }

  ghost predicate ChainsLinked(v: Vol, lay: Layout) {
    forall h | h in lay.chains :: ChainAt(v, h, lay.chains[h])
  }

  /** `own` inverts `chains`: each cluster has one owner and one place in its chain. */
  ghost predicate OwnersKnown(lay: Layout) {
    forall h, i | h in lay.chains && 0 <= i < |lay.chains[h]| ::
      lay.chains[h][i] in lay.own && lay.own[lay.chains[h][i]] == Owner(h, i)
  }

  ghost predicate OwnersReal(lay: Layout) {
    forall c | c in lay.own ::
      && lay.own[c].head in lay.chains
      && lay.own[c].index < |lay.chains[lay.own[c].head]|
      && lay.chains[lay.own[c].head][lay.own[c].index] == c
  }

  /** Entry 0 of the table reads as the end of a chain, or leads to the chain that appends to files without a
      start cluster have been filling. */
  ghost predicate MediaEntry(v: Vol, lay: Layout)
    requires |v.fat| > 0
  {
    if lay.lost == NOBODY then v.fat[0] == 0 || v.fat[0] >= v.eoc
    else v.fat[0] == lay.lost && lay.lost >= 2 && lay.lost in lay.chains
  }

  ghost predicate WfChains(v: Vol, lay: Layout) {
    && 2 <= |v.fat| == |v.data| && |v.fat| <= v.eoc && MediaEntry(v, lay)
    && ChainsLinked(v, lay) && OwnersKnown(lay) && OwnersReal(lay)
  }

  // ---- Directories ----

  ghost predicate NamedAt(v: Vol, s: seq<nat>, n: seq<byte>, p: Pos) {
    p.cl in s && SlotOk(v, p) && Live(Slot(v, p)) && Clean(NameOf(Slot(v, p))) && TextOf(Slot(v, p)) == n
  }

  /** `nm` maps each name in the directory held by the clusters `s` to its one live slot. */
  ghost predicate WfDir(v: Vol, s: seq<nat>, nm: map<seq<byte>, Pos>) {
    && (forall c | c in s :: c < |v.data| && |v.data[c]| % 32 == 0 && ZeroTail(v.data[c]))
    && (forall n | n in nm :: NamedAt(v, s, n, nm[n]))
    && (forall p: Pos | p.cl in s && SlotOk(v, p) && Live(Slot(v, p)) ::
          Clean(NameOf(Slot(v, p))) && TextOf(Slot(v, p)) in nm && nm[TextOf(Slot(v, p))] == p)
  }

  ghost predicate WfDirs(v: Vol, lay: Layout) {
    forall d | d in lay.names :: d in lay.chains && d != lay.lost && WfDir(v, lay.chains[d], lay.names[d])
  }

  /** `n` names an entry of directory `d`; the dot entries are not part of the tree. */
  ghost predicate Entry(lay: Layout, k: Key) {
    k.dir in lay.names && k.name in lay.names[k.dir] && !IsDot(k.name)
  }

  ghost function At(lay: Layout, k: Key): Pos
    requires Entry(lay, k)
  {
    lay.names[k.dir][k.name]
  }

  ghost predicate EntryOk(v: Vol, lay: Layout, k: Key) {
    Entry(lay, k) && SlotOk(v, At(lay, k))
  }

  ghost function EntrySlot(v: Vol, lay: Layout, k: Key): (s: seq<byte>)
    requires EntryOk(v, lay, k)
    ensures |s| == 32
  {
    Slot(v, At(lay, k))
  }

  ghost function Head(v: Vol, lay: Layout, k: Key): nat
    requires EntryOk(v, lay, k)
  {
    StartOf(v.wide, EntrySlot(v, lay, k))
  }

  /** A directory entry leads to a directory, a file entry to a file chain of its own or to none. A file without a
      chain is empty, unless the data appended to it was lost. FAT32 tells files by the archive bit, so there a
      directory does not carry it. */
  ghost predicate RefOk(v: Vol, lay: Layout, s: seq<byte>)
    requires |s| == 32
  {
    var h := StartOf(v.wide, s);
    if DirBit(s[11]) then 2 <= h && h in lay.names && (v.wide ==> !ArchiveBit(s[11]))
    else if h == 0 then SizeOf(s) == 0 || lay.lost != NOBODY
    else 2 <= h && h in lay.chains && h !in lay.names && h != lay.lost
  }

  ghost predicate WfRefs(v: Vol, lay: Layout) {
    forall k: Key | Entry(lay, k) :: EntryOk(v, lay, k) && RefOk(v, lay, EntrySlot(v, lay, k))
  }

  /** No two entries lead to the same chain. */
  ghost predicate Unique(v: Vol, lay: Layout) {
    forall k: Key | EntryOk(v, lay, k) && Head(v, lay, k) >= 2 ::
      Head(v, lay, k) in lay.refs && lay.refs[Head(v, lay, k)] == k
  }

  /** Everything but uniqueness, which a move breaks between its two writes. */
  ghost predicate Sound(v: Vol, lay: Layout) {
    WfChains(v, lay) && WfDirs(v, lay) && WfRefs(v, lay)
  }

  ghost predicate Wf(v: Vol, lay: Layout) {
    Sound(v, lay) && Unique(v, lay)
  }

  // ---- What a reader sees ----

  ghost function Concat(data: seq<seq<byte>>, s: seq<nat>): seq<byte>
    requires forall i | 0 <= i < |s| :: s[i] < |data|
  {
    if s == [] then [] else Concat(data, s[..|s| - 1]) + data[s[|s| - 1]]
  }

  ghost function Cut(b: seq<byte>, size: nat): seq<byte> {
    if size <= |b| then b[..size] else b
  }

  /** The bytes a reader gets from a file. */
  ghost function Contents(n: Node): seq<byte>
    requires n.File?
  {
    Cut(n.store, n.size)
  }

  /** The end of the file lies in the last cluster of its chain. */
  ghost predicate Tight(n: Node, clusterSize: nat) {
    n.File? && |n.store| < n.size + clusterSize && n.size <= |n.store|
  }

  /** The bytes of the chain that starts at `h`; none when `h` heads no chain. */
  ghost function ChainBytes(v: Vol, lay: Layout, h: nat): seq<byte> {
    if h >= 2 && h in lay.chains && Within(v, lay.chains[h]) then Concat(v.data, lay.chains[h]) else []
  }

  ghost predicate Within(v: Vol, s: seq<nat>) {
    forall i | 0 <= i < |s| :: s[i] < |v.data|
  }

  ghost function NodeAt(v: Vol, lay: Layout, k: Key): Node
    requires EntryOk(v, lay, k)
  {
    var s := EntrySlot(v, lay, k);
    if DirBit(s[11]) then Dir(Head(v, lay, k)) else File(SizeOf(s), ChainBytes(v, lay, Head(v, lay, k)))
  }

  /** The volume as a map from (directory, name) to subdirectory or file contents. */
  ghost function Tree(v: Vol, lay: Layout): imap<Key, Node> {
    imap k: Key | EntryOk(v, lay, k) :: NodeAt(v, lay, k)
  }

  // ---- Derived facts about chains ----

  /** Chains are pairwise disjoint and visit no cluster twice. */
  lemma ChainsDisjoint(v: Vol, lay: Layout, h1: nat, i: nat, h2: nat, j: nat)
    requires WfChains(v, lay)
    requires h1 in lay.chains && i < |lay.chains[h1]| && h2 in lay.chains && j < |lay.chains[h2]|
    requires lay.chains[h1][i] == lay.chains[h2][j]
    ensures h1 == h2 && i == j
  {
    assert lay.own[lay.chains[h1][i]] == Owner(h1, i) && lay.own[lay.chains[h2][j]] == Owner(h2, j);
  }

  lemma OwnedIsMarked(v: Vol, lay: Layout, c: nat)
    requires WfChains(v, lay) && c in lay.own && c != 0
    ensures 2 <= c < |v.fat| && v.fat[c] != 0
  {
    var h, i := lay.own[c].head, lay.own[c].index;
    var s := lay.chains[h];
    assert ChainAt(v, h, s) && s[i] == c;
    assert i < |s| - 1 ==> v.fat[s[i]] == s[i + 1];
  }

  /** A cluster whose table entry is 0 belongs to no chain. */
  lemma FreeIsUnowned(v: Vol, lay: Layout, c: nat)
    requires WfChains(v, lay) && 2 <= c < |v.fat| && v.fat[c] == 0
    ensures c !in lay.own
  {
    if c in lay.own {
      OwnedIsMarked(v, lay, c);
    }
  }

  /** The table alone determines a chain from its first cluster. */
  lemma {:induction false} ChainDetermined(v: Vol, s: seq<nat>, t: seq<nat>)
    requires |v.fat| <= v.eoc && Linked(v, s) && Linked(v, t) && s[0] == t[0]
    ensures s == t
    decreases |s|
  {
    assert |s| > 1 ==> v.fat[s[0]] == s[1];
    assert |t| > 1 ==> v.fat[t[0]] == t[1];
    if |s| > 1 {
      ChainDetermined(v, s[1..], t[1..]);
      assert s == [s[0]] + s[1..] && t == [t[0]] + t[1..];
    }
  }

  lemma {:induction false} ConcatFrame(d1: seq<seq<byte>>, d2: seq<seq<byte>>, s: seq<nat>)
    requires forall i | 0 <= i < |s| :: s[i] < |d1| && s[i] < |d2| && d1[s[i]] == d2[s[i]]
    ensures Concat(d1, s) == Concat(d2, s)
  {
    if s != [] {
      ConcatFrame(d1, d2, s[..|s| - 1]);
    }
  }

  lemma ConcatSnoc(data: seq<seq<byte>>, s: seq<nat>, c: nat)
    requires c < |data| && forall i | 0 <= i < |s| :: s[i] < |data|
    ensures Concat(data, s + [c]) == Concat(data, s) + data[c]
  {
    assert (s + [c])[..|s|] == s;
  }

  lemma ChainClusters(v: Vol, lay: Layout, h: nat)
    requires WfChains(v, lay) && h in lay.chains
    ensures forall c | c in lay.chains[h] :: c < |v.data| && c in lay.own && lay.own[c].head == h
  {
    assert ChainAt(v, h, lay.chains[h]);
  }
}

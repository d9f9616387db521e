/** Adding an entry to a directory, as steps on values. */
module FatInsert {
  import opened Bytes
  import opened ShortName
  import opened FatVolume
  import opened FatSteps
  import opened FatLink
  import opened FatFile
  import opened FatTree
  import opened FatImage
  import opened FatScan

  lemma ClusterAligned(g: Geometry, len: nat)
    requires GeometryOk(g, len)
    ensures ClusterSize(g) >= SECTOR && ClusterSize(g) % 32 == 0
  {
    assert g.sectorsPerCluster * SECTOR == 32 * (g.sectorsPerCluster * 16);
    assert (g.sectorsPerCluster - 1) * SECTOR >= 0;
  }

  /** No cluster is left to allocate. */
  ghost predicate NoneFree(v: Vol) {
    forall x | 2 <= x < |v.fat| :: v.fat[x] != 0
  }

  // ---- A volume seen without one entry ----

  function Erased(s: seq<byte>): (t: seq<byte>)
    requires |s| == 32
    ensures |t| == 32
  {
    s[0 := 0xE5]
  }

  /** The volume as it will be once the slot at `hole` is marked deleted. */
  ghost function Seen(v: Vol, hole: Option<Pos>): Vol {
    if hole.Some? && SlotOk(v, hole.value) then Put(v, hole.value, Erased(Slot(v, hole.value))) else v
  }

  /** The hole lies in a cluster of another chain than `d`'s. */
  ghost predicate HoleOk(v: Vol, lay: Layout, d: nat, hole: Option<Pos>) {
    hole.Some? ==>
      SlotOk(v, hole.value) && hole.value.cl in lay.own && lay.own[hole.value.cl].head != d
  }

  lemma SeenChain(v: Vol, lay: Layout, d: nat, i: nat, hole: Option<Pos>)
    requires WfChains(Seen(v, hole), lay) && HoleOk(v, lay, d, hole) && d in lay.chains && i < |lay.chains[d]|
    requires lay.chains[d][i] < |v.data|
    ensures Seen(v, hole).fat == v.fat && |Seen(v, hole).data| == |v.data| && SameShape(v, Seen(v, hole))
    ensures Seen(v, hole).data[lay.chains[d][i]] == v.data[lay.chains[d][i]]
    ensures hole.Some? ==> hole.value.cl != lay.chains[d][i]
  {
  }

  lemma SeenWrite(v: Vol, c: nat, b: seq<byte>, hole: Option<Pos>)
    requires c < |v.data| && (hole.Some? ==> SlotOk(v, hole.value) && hole.value.cl != c)
    ensures Seen(v.(data := v.data[c := b]), hole) == Seen(v, hole).(data := Seen(v, hole).data[c := b])
  {
    if hole.Some? {
      var p := hole.value;
      assert v.data[c := b][p.cl] == v.data[p.cl];
    }
  }

  lemma SeenLink(v: Vol, last: nat, c: nat, mark: nat, b: seq<byte>, lay: Layout, hole: Option<Pos>, d: nat)
    requires WfChains(Seen(v, hole), lay) && HoleOk(v, lay, d, hole)
    requires last < |v.fat| == |v.data| && 2 <= c < |v.fat| && v.fat[c] == 0
    ensures Seen(Link(v, last, c, mark, b), hole) == Link(Seen(v, hole), last, c, mark, b)
  {
    FreeIsUnowned(Seen(v, hole), lay, c);
    hide WfChains;
    var w := v.(data := v.data[c := b]);
    SeenWrite(v, c, b, hole);
    assert Link(v, last, c, mark, b).data == w.data;
  }

  // ---- Insertion, as steps on values ----

  /** An entry `name` leading to `start` may be added to directory `d`. */
  ghost predicate Naming(v: Vol, lay: Layout, d: nat, name: seq<byte>, attr: byte, start: nat, size: nat) {
    && d in lay.names && Regular(name) && name[0] != 0xE5
    && !Entry(lay, Key(d, Dotted(name))) && CanHead(v, lay, attr, start, size)
  }

  /** `(v, lay)` shows `v0`'s tree with the one entry added. */
  ghost predicate Added(v: Vol, lay: Layout, v0: Vol, lay0: Layout, d: nat, name: seq<byte>, attr: byte, start: nat,
                        size: nat) {
    && Wf(v, lay) && lay.names.Keys == lay0.names.Keys && |name| == 11
    && Tree(v, lay) == Tree(v0, lay0)[Key(d, Dotted(name)) := HeadNode(v0, lay0, attr, start, size)]
  }

  /** The volume still shows `v0`'s tree, and the entry to be added is still addable. */
  ghost predicate Pending(v: Vol, lay: Layout, v0: Vol, lay0: Layout, d: nat, name: seq<byte>, attr: byte, start: nat,
                          size: nat) {
    && Wf(v, lay) && lay.names == lay0.names && d >= 2 && d in lay.chains && start != d
    && Tree(v, lay) == Tree(v0, lay0) && Naming(v, lay, d, name, attr, start, size)
    && HeadNode(v, lay, attr, start, size) == HeadNode(v0, lay0, attr, start, size)
  }

  /** `(cur, off)` is the first free slot of the `i`-th cluster of `d`. */
  ghost predicate FreeAt(v: Vol, lay: Layout, d: nat, i: nat, cur: nat, off: nat) {
    && Wf(v, lay) && d in lay.names && d in lay.chains && i < |lay.chains[d]| && cur == lay.chains[d][i]
    && FirstFree(v, Pos(cur, off))
  }

  lemma NamingName(v: Vol, lay: Layout, d: nat, name: seq<byte>, attr: byte, start: nat, size: nat)
    requires Naming(v, lay, d, name, attr, start, size)
    ensures |name| == 11
  {
    hide CanHead, Dotted;
  }

  lemma NamingStart(v: Vol, lay: Layout, d: nat, name: seq<byte>, attr: byte, start: nat, size: nat)
    requires Naming(v, lay, d, name, attr, start, size)
    ensures attr == 0x10 ==> start >= 2
  {
    hide Dotted, Regular, Unreferenced;
  }

  lemma TakenNone(b: seq<byte>)
    ensures Taken(b, 0)
  {
  }

  lemma PendingInit(v: Vol, lay: Layout, d: nat, name: seq<byte>, attr: byte, start: nat, size: nat)
    requires Wf(v, lay) && d >= 2 && start != d && Naming(v, lay, d, name, attr, start, size)
    ensures Pending(v, lay, v, lay, d, name, attr, start, size) && |name| == 11
  {
    hide Wf, Dotted, CanHead, Tree, HeadNode;
    DirHasChain(v, lay, d);
  }

  lemma PendingStart(v: Vol, lay: Layout, v0: Vol, lay0: Layout, d: nat, name: seq<byte>, attr: byte, start: nat,
                     size: nat)
    requires Pending(v, lay, v0, lay0, d, name, attr, start, size)
    ensures d in lay.chains && |lay.chains[d]| > 0 && lay.chains[d][0] == d
  {
    hide Wf, Naming, Tree, HeadNode;
    ChainStart(v, lay, d);
  }

  lemma PendingStep(v: Vol, lay: Layout, v0: Vol, lay0: Layout, d: nat, i: nat, name: seq<byte>, attr: byte,
                    start: nat, size: nat)
    requires Pending(v, lay, v0, lay0, d, name, attr, start, size) && d in lay.chains && i < |lay.chains[d]|
    ensures var c := lay.chains[d][i];
            && 2 <= c < |v.fat| == |v.data| && |v.data[c]| % 32 == 0
            && (if i == |lay.chains[d]| - 1 then v.fat[c] >= v.eoc
                else v.fat[c] == lay.chains[d][i + 1] && 2 <= v.fat[c] < v.eoc)
  {
    hide Wf, Dotted, CanHead, Tree, HeadNode, Regular;
    ChainStep(v, lay, d, i);
    DirCluster(v, lay, d, i);
  }

  lemma PendingSlot(v: Vol, lay: Layout, v0: Vol, lay0: Layout, d: nat, i: nat, off: nat, name: seq<byte>, attr: byte,
                    start: nat, size: nat)
    requires Pending(v, lay, v0, lay0, d, name, attr, start, size) && d in lay.chains && i < |lay.chains[d]|
    requires lay.chains[d][i] < |v.data| && SlotAt(v.data[lay.chains[d][i]], off)
    requires Free(v.data[lay.chains[d][i]][off..off + 32])
    requires Taken(v.data[lay.chains[d][i]], off)
    ensures FreeAt(v, lay, d, i, lay.chains[d][i], off) && Naming(v, lay, d, name, attr, start, size)
  {
    hide Wf, Dotted, CanHead, Tree, HeadNode, Regular;
  }

  lemma PendingAdded(w: Vol, lay2: Layout, v: Vol, lay: Layout, v0: Vol, lay0: Layout, d: nat, name: seq<byte>,
                     attr: byte, start: nat, size: nat)
    requires Pending(v, lay, v0, lay0, d, name, attr, start, size) && Added(w, lay2, v, lay, d, name, attr, start, size)
    ensures Added(w, lay2, v0, lay0, d, name, attr, start, size)
  {
    hide Wf, Naming, Tree, HeadNode, Dotted;
  }

  lemma AddedMeans(v: Vol, lay: Layout, v0: Vol, lay0: Layout, d: nat, name: seq<byte>, attr: byte, start: nat,
                   size: nat)
    requires Added(v, lay, v0, lay0, d, name, attr, start, size)
    ensures Wf(v, lay) && lay.names.Keys == lay0.names.Keys && |name| == 11
    ensures Tree(v, lay) == Tree(v0, lay0)[Key(d, Dotted(name)) := HeadNode(v0, lay0, attr, start, size)]
  {
    hide Wf, Tree, HeadNode, Dotted;
  }

  lemma PendingGrow(v: Vol, w: Vol, lay: Layout, v0: Vol, lay0: Layout, d: nat, c: nat, n: nat,
                    name: seq<byte>, attr: byte, start: nat, size: nat, mark: nat)
    requires Pending(v, lay, v0, lay0, d, name, attr, start, size) && n % 32 == 0 && d in lay.chains
             && |lay.chains[d]| > 0
    requires Last(lay, d) < |v.fat| == |v.data| && 2 <= c < |v.fat| && v.fat[c] == 0 && v.eoc <= mark
    requires w == Link(v, Last(lay, d), c, mark, Zeros(n))
    ensures Pending(w, Extended(lay, d, c), v0, lay0, d, name, attr, start, size)
    ensures Extended(lay, d, c).chains[d] == lay.chains[d] + [c] && w.data[c] == Zeros(n)
  {
    hide Wf, Tree, CanHead, HeadNode, Link, Zeros, Regular, Dotted;
    GrowForEntry(v, w, lay, d, c, n, attr, start, size, mark);
    hide Extended;
  }

  /** Extending the directory keeps everything the insertion relies on. */
  lemma GrowForEntry(v: Vol, w: Vol, lay: Layout, d: nat, c: nat, n: nat, attr: byte, start: nat, size: nat, mark: nat)
    requires CanLink(v, lay, d, c, mark) && d in lay.names && n % 32 == 0
    requires CanHead(v, lay, attr, start, size) && start != d
    requires w == Link(v, Last(lay, d), c, mark, Zeros(n))
    ensures var lay2 := Extended(lay, d, c);
            && Wf(w, lay2) && lay2.names == lay.names && Tree(w, lay2) == Tree(v, lay)
            && lay2.chains[d] == lay.chains[d] + [c] && w.data[c] == Zeros(n)
            && CanHead(w, lay2, attr, start, size)
            && HeadNode(w, lay2, attr, start, size) == HeadNode(v, lay, attr, start, size)
            && w.wide == v.wide && w.eoc == v.eoc && d in lay2.chains
  {
    LinkDir(v, lay, d, c, mark, n);
    if start != 0 {
      assert start in lay.chains by { if attr == 0x10 { DirHasChain(v, lay, start); } }
      LinkDirFrame(v, lay, d, c, mark, n, start);
    }
    hide Wf, Tree, Unreferenced, ChainBytes, OthersKept;
  }

  /** The slot written at a scanned offset adds exactly the new entry; the result is the new layout. */
  lemma Inserted(v: Vol, w: Vol, lay: Layout, d: nat, i: nat, cur: nat, off: nat,
                 name: seq<byte>, attr: byte, start: nat, size: nat) returns (lay2: Layout)
    requires FreeAt(v, lay, d, i, cur, off) && Naming(v, lay, d, name, attr, start, size) && cur < |v.data|
    requires |name| == 11 && off + 32 <= |v.data[cur]|
    requires var b := v.data[cur];
             w == v.(data := v.data[cur := Splice(b, off, NewSlot(v.wide, b[off..off + 32], name, attr, start, size))])
    ensures Added(w, lay2, v, lay, d, name, attr, start, size)
  {
    var p := Pos(cur, off);
    var t := NewSlot(v.wide, Slot(v, p), name, attr, start, size);
    assert p.cl in lay.chains[d] && w == Put(v, p, t);
    NewSlotFields(v.wide, Slot(v, p), name, attr, start, size);
    hide Wf, Regular, Dotted, CanHead, Tree, HeadNode, FirstFree, NewSlot, Put, StartOf, SizeOf;
    AddSlot(v, lay, d, p, t, name, attr, start, size);
    lay2 := PutLayout(v, lay, d, p, t);
  }

  // ---- Insertion seen past the hole ----

  lemma SeenStep(phys: Vol, v: Vol, lay: Layout, v0: Vol, lay0: Layout, d: nat, i: nat,
                 name: seq<byte>, attr: byte, start: nat, size: nat, hole: Option<Pos>)
    requires v == Seen(phys, hole) && HoleOk(phys, lay, d, hole)
    requires Pending(v, lay, v0, lay0, d, name, attr, start, size) && d in lay.chains && i < |lay.chains[d]|
    ensures var c := lay.chains[d][i];
            && c < |phys.data| == |v.data| && v.fat == phys.fat && SameShape(phys, v) && v.data[c] == phys.data[c]
            && (hole.Some? ==> SlotOk(phys, hole.value) && hole.value.cl != c)
  {
    hide Naming, Tree, HeadNode, WfDirs, WfRefs, Unique;
    PendingStep(v, lay, v0, lay0, d, i, name, attr, start, size);
    SeenChain(phys, lay, d, i, hole);
  }

  lemma SeenLinked(phys: Vol, phys2: Vol, v: Vol, lay: Layout, v0: Vol, lay0: Layout, d: nat, c: nat, n: nat,
                   name: seq<byte>, attr: byte, start: nat, size: nat, mark: nat, hole: Option<Pos>)
    requires v == Seen(phys, hole) && HoleOk(phys, lay, d, hole) && v.fat == phys.fat && SameShape(phys, v)
    requires Pending(v, lay, v0, lay0, d, name, attr, start, size) && n % 32 == 0 && d in lay.chains
             && |lay.chains[d]| > 0
    requires Last(lay, d) < |phys.fat| == |phys.data| && 2 <= c < |phys.fat| && phys.fat[c] == 0 && phys.eoc <= mark
    requires phys2 == Link(phys, Last(lay, d), c, mark, Zeros(n))
    ensures Pending(Seen(phys2, hole), Extended(lay, d, c), v0, lay0, d, name, attr, start, size)
    ensures Extended(lay, d, c).chains[d] == lay.chains[d] + [c] && phys2.data[c] == Zeros(n)
    ensures HoleOk(phys2, Extended(lay, d, c), d, hole)
    ensures hole.Some? ==>
          SlotOk(phys, hole.value) && SlotOk(phys2, hole.value)
          && Slot(phys2, hole.value) == Slot(phys, hole.value)
  {
    hide Naming, Tree, HeadNode, WfDirs, WfRefs, Unique, WfChains, Seen;
    PendingGrow(v, Seen(phys2, hole), lay, v0, lay0, d, c, n, name, attr, start, size, mark) by {
      SeenLink(phys, Last(lay, d), c, mark, Zeros(n), lay, hole, d);
    }
    SeenHole(phys, c, Last(lay, d), mark, n, lay, d, hole);
  }

  lemma SeenHole(v: Vol, c: nat, last: nat, mark: nat, n: nat, lay: Layout, d: nat, hole: Option<Pos>)
    requires WfChains(Seen(v, hole), lay) && HoleOk(v, lay, d, hole) && d in lay.chains
    requires last < |v.fat| == |v.data| && 2 <= c < |v.fat| && v.fat[c] == 0
    ensures var w := Link(v, last, c, mark, Zeros(n));
            && HoleOk(w, Extended(lay, d, c), d, hole) && w.data[c] == Zeros(n)
            && (hole.Some? ==>
                  SlotOk(v, hole.value) && SlotOk(w, hole.value)
                  && Slot(w, hole.value) == Slot(v, hole.value))
  {
    FreeIsUnowned(Seen(v, hole), lay, c);
  }
}

/** The compound writes of both drivers, as steps from one well-formed volume to the next. */
module FatLink {
  import opened Bytes
  import opened ShortName
  import opened FatVolume
  import opened FatSteps

  /** Allocating `c`, linking it behind `last` and filling it with `buf`. */
  ghost function Link(v: Vol, last: nat, c: nat, mark: nat, buf: seq<byte>): Vol
    requires last < |v.fat| && c < |v.fat| && c < |v.data|
  {
    v.(fat := v.fat[c := mark][last := c][c := mark], data := v.data[c := buf])
  }

  lemma LastOwned(v: Vol, lay: Layout, h: nat)
    requires Wf(v, lay) && h in lay.chains && h >= 2
    ensures |lay.chains[h]| > 0 && 2 <= Last(lay, h) < |v.fat| == |v.data|
    ensures Last(lay, h) in lay.own && lay.own[Last(lay, h)].head == h
  {
    assert ChainAt(v, h, lay.chains[h]);
    assert lay.own[Last(lay, h)] == Owner(h, |lay.chains[h]| - 1);
  }

  lemma LinkGrown(v: Vol, lay: Layout, h: nat, c: nat, mark: nat, buf: seq<byte>)
    requires CanLink(v, lay, h, c, mark)
    ensures Grown(v, Link(v, Last(lay, h), c, mark, buf), lay, h, c)
    ensures Last(lay, h) != c
  {
    FreeIsUnowned(v, lay, c);
    LastOwned(v, lay, h);
  }

  /** Appending a cluster to a file chain: its store grows, every other node stays. */
  lemma LinkFile(v: Vol, lay: Layout, h: nat, c: nat, mark: nat, buf: seq<byte>)
    requires CanLink(v, lay, h, c, mark) && h !in lay.names
    ensures var w, lay2 := Link(v, Last(lay, h), c, mark, buf), Extended(lay, h, c);
            && Wf(w, lay2) && OthersKept(v, lay, w, lay2, h)
            && lay2.chains[h] == lay.chains[h] + [c] && Last(lay2, h) == c
            && ChainBytes(w, lay2, h) == ChainBytes(v, lay, h) + buf
  {
    hide Wf, OthersKept, ChainBytes;
    LinkGrown(v, lay, h, c, mark, buf);
    ExtendFile(v, Link(v, Last(lay, h), c, mark, buf), lay, h, c);
  }

  ghost predicate CanLink(v: Vol, lay: Layout, h: nat, c: nat, mark: nat) {
    && Wf(v, lay) && h in lay.chains && h >= 2 && |lay.chains[h]| > 0 && Last(lay, h) < |v.fat| == |v.data|
    && 2 <= c < |v.fat| && v.fat[c] == 0 && mark >= v.eoc
  }

  /** Appending a zeroed cluster to a directory chain changes no node. */
  lemma LinkDir(v: Vol, lay: Layout, d: nat, c: nat, mark: nat, n: nat)
    requires CanLink(v, lay, d, c, mark) && d in lay.names && n % 32 == 0
    ensures var w, lay2 := Link(v, Last(lay, d), c, mark, Zeros(n)), Extended(lay, d, c);
            Wf(w, lay2) && Tree(w, lay2) == Tree(v, lay) && OthersKept(v, lay, w, lay2, NOBODY)
  {
    hide Grown, WfChains, WfDirs, WfRefs, Unique, OthersKept, Unreferenced, Tree;
    var w, lay2 := Link(v, Last(lay, d), c, mark, Zeros(n)), Extended(lay, d, c);
    LinkGrown(v, lay, d, c, mark, Zeros(n));
    ExtendDir(v, w, lay, d, c);
    UnreferencedNobody(v, lay);
    TreeKept(v, lay, w, lay2, NOBODY);
  }

  /** ... and leaves the other chains as they were. */
  lemma LinkDirFrame(v: Vol, lay: Layout, d: nat, c: nat, mark: nat, n: nat, s: nat)
    requires CanLink(v, lay, d, c, mark) && d in lay.names && n % 32 == 0 && s in lay.chains && s != d
    ensures var w, lay2 := Link(v, Last(lay, d), c, mark, Zeros(n)), Extended(lay, d, c);
            && Wf(w, lay2) && ChainBytes(w, lay2, s) == ChainBytes(v, lay, s)
            && (Unreferenced(v, lay, s) ==> Unreferenced(w, lay2, s))
  {
    hide Grown, WfChains, WfDirs, WfRefs, Unique, OthersKept, Unreferenced, Tree, ChainBytes, AgreeBut;
    var w, lay2 := Link(v, Last(lay, d), c, mark, Zeros(n)), Extended(lay, d, c);
    LinkGrown(v, lay, d, c, mark, Zeros(n));
    GrownChains(v, w, lay, d, c);
    LinkDir(v, lay, d, c, mark, n);
    assert lay2.chains[s] == lay.chains[s];
    FrameBytes(v, w, lay, lay2, d, s);
    if Unreferenced(v, lay, s) { StaysUnreferenced(v, lay, w, lay2, NOBODY, s); }
  }

  lemma StaysUnreferenced(v: Vol, lay: Layout, w: Vol, lay2: Layout, h: nat, s: nat)
    requires WfChains(v, lay) && WfChains(w, lay2) && OthersKept(v, lay, w, lay2, h) && Unreferenced(v, lay, s)
    ensures Unreferenced(w, lay2, s)
  {
    forall k: Key | EntryOk(w, lay2, k)
      ensures Head(w, lay2, k) != s
    {
      assert Entry(lay, k);
      assert Kept(v, lay, w, lay2, h, k);
    }
  }

  // ---- Directory entries ----

  /** The slot an insertion writes: name, attribute, start cluster and size; the rest stays. */
  function NewSlot(wide: bool, was: seq<byte>, name: seq<byte>, attr: byte, start: nat, size: nat): (t: seq<byte>)
    requires |was| == 32 && |name| == 11
    ensures |t| == 32
  {
    if wide then name + [attr] + was[12..20] + Le16(start / 65536) + was[22..26] + Le16(start) + Le32(size)
    else name + [attr] + was[12..26] + Le16(start) + Le32(size)
  }

  lemma NewSlotFields(wide: bool, was: seq<byte>, name: seq<byte>, attr: byte, start: nat, size: nat)
    requires |was| == 32 && |name| == 11 && start < Span(wide)
    ensures var t := NewSlot(wide, was, name, attr, start, size);
            && NameOf(t) == name && t[0] == name[0] && t[11] == attr
            && StartOf(wide, t) == start && SizeOf(t) == size % U32_LIMIT
  {
    var t := NewSlot(wide, was, name, attr, start, size);
    assert t[28..32] == Le32(size) && t[26..28] == Le16(start);
    assert t[28] == Le32(size)[0] && t[29] == Le32(size)[1] && t[30] == Le32(size)[2] && t[31] == Le32(size)[3];
    assert t[26] == Le16(start)[0] && t[27] == Le16(start)[1];
    if wide {
      assert t[20] == Le16(start / 65536)[0] && t[21] == Le16(start / 65536)[1];
    }
  }

  /** `start` can head a new entry: a directory or a file chain that no entry leads to yet, or 0 for a file. */
  ghost predicate CanHead(v: Vol, lay: Layout, attr: byte, start: nat, size: nat) {
    if attr == 0x20 && start == 0 then size % U32_LIMIT == 0 || lay.lost != NOBODY
    else
      && 2 <= start < Span(v.wide) && Unreferenced(v, lay, start)
      && if attr == 0x10 then start in lay.names
         else attr == 0x20 && start in lay.chains && start !in lay.names && start != lay.lost
  }

  ghost function HeadNode(v: Vol, lay: Layout, attr: byte, start: nat, size: nat): Node {
    if attr == 0x10 then Dir(start) else File(size % U32_LIMIT, ChainBytes(v, lay, start))
  }

  /** A slot below which every slot of the cluster is taken. */
  ghost predicate FirstFree(v: Vol, p: Pos) {
    && SlotOk(v, p) && Free(Slot(v, p))
    && forall o: nat | o < p.off && o % 32 == 0 && o < |v.data[p.cl]| :: v.data[p.cl][o] != 0
  }

  ghost predicate SlotFor(wide: bool, t: seq<byte>, name: seq<byte>, attr: byte, start: nat, size: nat) {
    && |t| == 32 && NameOf(t) == name && t[0] == name[0] && t[11] == attr
    && StartOf(wide, t) == start && SizeOf(t) == size % U32_LIMIT
  }

  lemma NewSlotLive(v: Vol, lay: Layout, t: seq<byte>, name: seq<byte>, attr: byte, start: nat, size: nat)
    requires SlotFor(v.wide, t, name, attr, start, size) && Regular(name) && name[0] != 0xE5
    requires CanHead(v, lay, attr, start, size)
    ensures Live(t) && t[0] != 0 && Clean(NameOf(t)) && TextOf(t) == Dotted(name) && !IsDot(TextOf(t))
    ensures RefOk(v, lay, t)
  {
    hide Dotted, StartOf, SizeOf, Padded, Unreferenced;
    RegularNotDot(name);
    assert Plain(name[0]);
  }

  lemma AddSlot(v: Vol, lay: Layout, d: nat, p: Pos, t: seq<byte>, name: seq<byte>, attr: byte, start: nat, size: nat)
    requires Wf(v, lay) && d in lay.names && d in lay.chains && p.cl in lay.chains[d] && FirstFree(v, p)
    requires Regular(name) && name[0] != 0xE5 && !Entry(lay, Key(d, Dotted(name))) && CanHead(v, lay, attr, start, size)
    requires SlotFor(v.wide, t, name, attr, start, size)
    ensures var w, lay2 := Put(v, p, t), PutLayout(v, lay, d, p, t);
            && Wf(w, lay2) && lay2.names.Keys == lay.names.Keys && lay2.chains == lay.chains
            && Tree(w, lay2) == Tree(v, lay)[Key(d, Dotted(name)) := HeadNode(v, lay, attr, start, size)]
  {
    hide Wf, Regular, Fits, Leads, TextOf, Dotted, StartOf, SizeOf, FirstFree, CanHead, RefOk;
    NewSlotLive(v, lay, t, name, attr, start, size);
    AddSlotFits(v, lay, d, p, t, name, attr, start, size);
    AddEntry(v, lay, d, p, t);
  }

  lemma AddSlotFits(v: Vol, lay: Layout, d: nat, p: Pos, t: seq<byte>, name: seq<byte>, attr: byte, start: nat,
                    size: nat)
    requires Wf(v, lay) && d in lay.names && FirstFree(v, p) && |name| == 11 && !Entry(lay, Key(d, Dotted(name)))
    requires SlotFor(v.wide, t, name, attr, start, size) && CanHead(v, lay, attr, start, size) && RefOk(v, lay, t)
    requires Live(t) && t[0] != 0 && Clean(NameOf(t)) && TextOf(t) == Dotted(name) && !IsDot(TextOf(t))
    ensures Fits(v, lay.names[d], p, t) && Free(Slot(v, p)) && Leads(v, lay, p, t)
    ensures Unshared(v, lay, d, p, t) && Key(d, TextOf(t)) !in Tree(v, lay)
    ensures SlotNode(v, lay, t) == HeadNode(v, lay, attr, start, size)
  {
    hide WfChains, WfDirs, WfRefs, Unique, Dotted, TextOf, StartOf, SizeOf, Clean, RefOk, ChainBytes;
  }
}

/** What each elementary write does to a well-formed volume and to the tree it shows. */
module FatSteps {
  import opened Bytes
  import opened ShortName
  import opened FatVolume

  ghost predicate SameShape(v: Vol, w: Vol) {
    && v.wide == w.wide && v.eoc == w.eoc && |v.fat| == |w.fat| && |v.data| == |w.data|
    && (|v.fat| > 0 ==> w.fat[0] == v.fat[0])
  }

  /** `w` differs from `v` only in clusters that `h` owns or that nobody owns. */
  ghost predicate AgreeBut(v: Vol, w: Vol, lay: Layout, h: nat) {
    && SameShape(v, w)
    && forall c | c in lay.own && lay.own[c].head != h && c < |v.fat| && c < |v.data| ::
         w.fat[c] == v.fat[c] && w.data[c] == v.data[c]
  }

  ghost predicate Kept(v: Vol, lay: Layout, w: Vol, lay2: Layout, h: nat, k: Key) {
    && EntryOk(v, lay, k) && EntryOk(w, lay2, k)
    && EntrySlot(w, lay2, k) == EntrySlot(v, lay, k)
    && (Head(v, lay, k) != h ==> NodeAt(w, lay2, k) == NodeAt(v, lay, k))
  }

  /** Every entry keeps its slot, and every entry not leading to `h` keeps its node. */
  ghost predicate OthersKept(v: Vol, lay: Layout, w: Vol, lay2: Layout, h: nat) {
    && v.wide == w.wide && lay2.names == lay.names
    && forall k: Key | Entry(lay, k) :: Kept(v, lay, w, lay2, h, k)
  }

  lemma DirFrame(v: Vol, w: Vol, s: seq<nat>, nm: map<seq<byte>, Pos>)
    requires WfDir(v, s, nm) && SameShape(v, w)
    requires forall c | c in s :: c < |v.data| && w.data[c] == v.data[c]
    ensures WfDir(w, s, nm)
    ensures forall n | n in nm :: SlotOk(w, nm[n]) && Slot(w, nm[n]) == Slot(v, nm[n])
  {
    forall n | n in nm
      ensures NamedAt(w, s, n, nm[n]) && Slot(w, nm[n]) == Slot(v, nm[n])
    {
      assert NamedAt(v, s, n, nm[n]);
    }
    forall p: Pos | p.cl in s && SlotOk(w, p) && Live(Slot(w, p))
      ensures Clean(NameOf(Slot(w, p))) && TextOf(Slot(w, p)) in nm && nm[TextOf(Slot(w, p))] == p
    {
      assert SlotOk(v, p) && Slot(v, p) == Slot(w, p);
    }
  }

  lemma EntriesOk(v: Vol, lay: Layout, k: Key)
    requires WfDirs(v, lay) && Entry(lay, k)
    ensures EntryOk(v, lay, k) && NamedAt(v, lay.chains[k.dir], k.name, At(lay, k))
  {
    assert WfDir(v, lay.chains[k.dir], lay.names[k.dir]);
  }

  /** The hypotheses shared by the frame lemmas: a change confined to `h`'s clusters and unowned ones. */
  ghost predicate Confined(v: Vol, w: Vol, lay: Layout, lay2: Layout, h: nat) {
    && Sound(v, lay) && AgreeBut(v, w, lay, h) && WfChains(w, lay2)
    && h !in lay.names && lay2.names == lay.names && lay2.refs == lay.refs && lay2.lost == lay.lost
    && lay.chains.Keys <= lay2.chains.Keys
    && forall x | x in lay.chains && x != h :: lay2.chains[x] == lay.chains[x]
  }

  ghost predicate SlotsKept(v: Vol, w: Vol, lay: Layout) {
    forall d, n | d in lay.names && n in lay.names[d] ::
      && SlotOk(v, lay.names[d][n]) && SlotOk(w, lay.names[d][n])
      && Slot(w, lay.names[d][n]) == Slot(v, lay.names[d][n])
  }

  lemma FrameDirs(v: Vol, w: Vol, lay: Layout, lay2: Layout, h: nat)
    requires Confined(v, w, lay, lay2, h)
    ensures WfDirs(w, lay2) && SlotsKept(v, w, lay)
  {
    forall d | d in lay.names
      ensures d in lay2.chains && d != lay2.lost && WfDir(w, lay2.chains[d], lay2.names[d])
      ensures forall n | n in lay.names[d] ::
                && SlotOk(v, lay.names[d][n]) && SlotOk(w, lay.names[d][n])
                && Slot(w, lay.names[d][n]) == Slot(v, lay.names[d][n])
    {
      assert WfDir(v, lay.chains[d], lay.names[d]);
      ChainClusters(v, lay, d);
      DirFrame(v, w, lay.chains[d], lay.names[d]);
      assert forall n | n in lay.names[d] :: NamedAt(v, lay.chains[d], n, lay.names[d][n]);
    }
  }

  lemma FrameBytes(v: Vol, w: Vol, lay: Layout, lay2: Layout, h: nat, x: nat)
    requires WfChains(v, lay) && WfChains(w, lay2) && AgreeBut(v, w, lay, h)
    requires x in lay.chains && x in lay2.chains && lay2.chains[x] == lay.chains[x] && x != h
    ensures ChainBytes(w, lay2, x) == ChainBytes(v, lay, x)
  {
    var s: seq<nat> := lay.chains[x];
    assert ChainAt(v, x, s);
    if x >= 2 {
      forall i | 0 <= i < |s|
        ensures s[i] < |v.data| && w.data[s[i]] == v.data[s[i]]
      {
        assert lay.own[s[i]] == Owner(x, i);
      }
      ConcatFrame(v.data, w.data, s);
    }
  }

  lemma FrameNode(v: Vol, w: Vol, lay: Layout, lay2: Layout, h: nat, k: Key)
    requires WfChains(v, lay) && WfChains(w, lay2) && v.wide == w.wide
    requires EntryOk(v, lay, k) && EntryOk(w, lay2, k) && EntrySlot(w, lay2, k) == EntrySlot(v, lay, k)
    requires RefOk(v, lay, EntrySlot(v, lay, k))
    requires AgreeBut(v, w, lay, h)
    requires Head(v, lay, k) in lay.chains && Head(v, lay, k) != h ==>
               Head(v, lay, k) in lay2.chains && lay2.chains[Head(v, lay, k)] == lay.chains[Head(v, lay, k)]
    requires Head(v, lay, k) != h || Head(v, lay, k) < 2 || DirBit(EntrySlot(v, lay, k)[11])
    ensures NodeAt(w, lay2, k) == NodeAt(v, lay, k)
  {
    if Head(v, lay, k) in lay.chains && Head(v, lay, k) != h {
      FrameBytes(v, w, lay, lay2, h, Head(v, lay, k));
    }
  }

  /** What the change of one chain means for one entry. */
  lemma KeepEntry(v: Vol, w: Vol, lay: Layout, lay2: Layout, h: nat, k: Key)
    requires WfChains(v, lay) && WfChains(w, lay2) && AgreeBut(v, w, lay, h)
    requires lay2.names == lay.names && lay.chains.Keys <= lay2.chains.Keys && lay2.lost == lay.lost
    requires forall x | x in lay.chains && x != h :: lay2.chains[x] == lay.chains[x]
    requires EntryOk(v, lay, k) && SlotOk(w, At(lay, k)) && Slot(w, At(lay, k)) == Slot(v, At(lay, k))
    requires RefOk(v, lay, EntrySlot(v, lay, k))
    ensures Kept(v, lay, w, lay2, if h in lay.names then NOBODY else h, k)
    ensures RefOk(w, lay2, EntrySlot(w, lay2, k))
  {
    hide StartOf, SizeOf, NodeAt, ChainsLinked, OwnersKnown, OwnersReal;
    if Head(v, lay, k) != h || h in lay.names {
      FrameNode(v, w, lay, lay2, h, k);
    }
  }

  /** With all slots kept, only the nodes whose bytes lie in the chain of `h` can change. */
  lemma Reassemble(v: Vol, w: Vol, lay: Layout, lay2: Layout, h: nat)
    requires Sound(v, lay) && AgreeBut(v, w, lay, h) && WfChains(w, lay2) && WfDirs(w, lay2)
    requires lay2.names == lay.names && lay.chains.Keys <= lay2.chains.Keys && lay2.lost == lay.lost
    requires forall x | x in lay.chains && x != h :: lay2.chains[x] == lay.chains[x]
    requires SlotsKept(v, w, lay)
    ensures Sound(w, lay2) && OthersKept(v, lay, w, lay2, if h in lay.names then NOBODY else h)
  {
    hide WfDirs, WfChains, Kept;
    forall k: Key | Entry(lay2, k)
      ensures EntryOk(w, lay2, k) && RefOk(w, lay2, EntrySlot(w, lay2, k))
      ensures Kept(v, lay, w, lay2, if h in lay.names then NOBODY else h, k)
    {
      assert Entry(lay, k);
      KeepEntry(v, w, lay, lay2, h, k);
    }
  }

  lemma UniqueKept(v: Vol, w: Vol, lay: Layout, lay2: Layout, h: nat)
    requires Sound(v, lay) && WfChains(w, lay2) && OthersKept(v, lay, w, lay2, h)
    requires Unique(v, lay) && lay2.refs == lay.refs
    ensures Unique(w, lay2)
  {
    forall k: Key | EntryOk(w, lay2, k) && Head(w, lay2, k) >= 2
      ensures Head(w, lay2, k) in lay2.refs && lay2.refs[Head(w, lay2, k)] == k
    {
      assert Entry(lay, k);
      assert Kept(v, lay, w, lay2, h, k);
    }
  }

  /** Writes confined to a file's own clusters, or to unowned ones, disturb nothing else. */
  lemma FileFrame(v: Vol, w: Vol, lay: Layout, lay2: Layout, h: nat)
    requires Confined(v, w, lay, lay2, h)
    ensures Sound(w, lay2) && OthersKept(v, lay, w, lay2, h)
    ensures Unique(v, lay) ==> Unique(w, lay2)
  {
    FrameDirs(v, w, lay, lay2, h);
    Reassemble(v, w, lay, lay2, h);
    if Unique(v, lay) { UniqueKept(v, w, lay, lay2, h); }
  }

  // ---- Growing chains ----

  ghost function WithHead(lay: Layout, c: nat): Layout {
    lay.(chains := lay.chains[c := [c]], own := lay.own[c := Owner(c, 0)])
  }

  ghost function Extended(lay: Layout, h: nat, c: nat): Layout
    requires h in lay.chains
  {
    lay.(chains := lay.chains[h := lay.chains[h] + [c]], own := lay.own[c := Owner(h, |lay.chains[h]|)])
  }

  ghost function Last(lay: Layout, h: nat): nat
    requires h in lay.chains && |lay.chains[h]| > 0
  {
    lay.chains[h][|lay.chains[h]| - 1]
  }

  lemma NobodyOwns(v: Vol, lay: Layout)
    requires WfChains(v, lay)
    ensures NOBODY !in lay.chains
  {
    assert NOBODY in lay.chains ==> ChainAt(v, NOBODY, lay.chains[NOBODY]);
  }

  lemma HeadOwned(v: Vol, lay: Layout, c: nat)
    requires WfChains(v, lay)
    ensures c in lay.chains ==> c in lay.own
  {
    if c in lay.chains {
      assert ChainAt(v, c, lay.chains[c]);
      assert lay.own[lay.chains[c][0]] == Owner(c, 0);
    }
  }

  lemma HeadLinked(v: Vol, w: Vol, lay: Layout, c: nat)
    requires WfChains(v, lay) && 2 <= c < |v.fat|
    requires SameShape(v, w) && w.fat[c] >= w.eoc
    requires forall x | x in lay.own && x < |v.fat| :: w.fat[x] == v.fat[x]
    ensures ChainsLinked(w, WithHead(lay, c))
  {
    var lay2 := WithHead(lay, c);
    forall h | h in lay2.chains
      ensures ChainAt(w, h, lay2.chains[h])
    {
      if h != c { KeepChain(v, w, lay, h); }
    }
  }

  lemma HeadOwners(lay: Layout, c: nat)
    requires OwnersKnown(lay) && OwnersReal(lay) && c !in lay.own && c !in lay.chains
    ensures OwnersKnown(WithHead(lay, c)) && OwnersReal(WithHead(lay, c))
  {
  }

  /** A fresh cluster marked end-of-chain becomes a chain of its own. */
  lemma NewHead(v: Vol, w: Vol, lay: Layout, c: nat)
    requires Wf(v, lay) && c !in lay.own && 2 <= c < |v.fat|
    requires AgreeBut(v, w, lay, NOBODY) && w.fat[c] >= w.eoc
    ensures Wf(w, WithHead(lay, c)) && OthersKept(v, lay, w, WithHead(lay, c), NOBODY)
    ensures c !in lay.chains
  {
    hide WfChains, WfDirs, WfRefs, Unique, OthersKept;
    NobodyOwns(v, lay);
    HeadOwned(v, lay, c);
    NamedIsChain(v, lay, NOBODY);
    HeadChains(v, w, lay, c);
    FileFrame(v, w, lay, WithHead(lay, c), NOBODY);
  }

  lemma NamedIsChain(v: Vol, lay: Layout, d: nat)
    requires WfDirs(v, lay)
    ensures d in lay.names ==> d in lay.chains
  {
  }

  lemma HeadChains(v: Vol, w: Vol, lay: Layout, c: nat)
    requires WfChains(v, lay) && c !in lay.own && c !in lay.chains && NOBODY !in lay.chains && 2 <= c < |v.fat|
    requires AgreeBut(v, w, lay, NOBODY) && w.fat[c] >= w.eoc
    ensures WfChains(w, WithHead(lay, c))
  {
    hide OwnersKnown, ChainsLinked;
    HeadAgree(v, w, lay);
    HeadLinked(v, w, lay, c);
    HeadOwners(lay, c);
  }

  lemma HeadAgree(v: Vol, w: Vol, lay: Layout)
    requires WfChains(v, lay) && NOBODY !in lay.chains && AgreeBut(v, w, lay, NOBODY)
    ensures forall x | x in lay.own && x < |v.fat| :: w.fat[x] == v.fat[x]
  {
    hide OwnersKnown, ChainsLinked;
  }

  lemma KeepChain(v: Vol, w: Vol, lay: Layout, h: nat)
    requires WfChains(v, lay) && h in lay.chains && SameShape(v, w)
    requires forall x | x in lay.own && lay.own[x].head == h && x < |v.fat| :: w.fat[x] == v.fat[x]
    ensures ChainAt(w, h, lay.chains[h])
  {
    var s: seq<nat> := lay.chains[h];
    assert ChainAt(v, h, s);
    if h != 0 {
      forall i | 0 <= i < |s|
        ensures s[i] < |v.fat| && w.fat[s[i]] == v.fat[s[i]]
      {
        assert lay.own[s[i]] == Owner(h, i);
      }
    }
  }

  /** `w` is `v` with the unowned cluster `c` linked behind the last cluster of `h`. */
  ghost predicate Grown(v: Vol, w: Vol, lay: Layout, h: nat, c: nat) {
    && WfChains(v, lay) && h in lay.chains && h >= 2 && c !in lay.own && 2 <= c < |v.fat| && SameShape(v, w)
    && |lay.chains[h]| > 0 && Last(lay, h) < |v.fat|
    && w.fat[c] >= w.eoc && w.fat[Last(lay, h)] == c
    && (forall x | x in lay.own && x < |v.fat| && x != Last(lay, h) :: w.fat[x] == v.fat[x])
    && (forall x | x in lay.own && x < |v.data| :: w.data[x] == v.data[x])
  }

  lemma GrownChains(v: Vol, w: Vol, lay: Layout, h: nat, c: nat)
    requires Grown(v, w, lay, h, c)
    ensures WfChains(w, Extended(lay, h, c)) && AgreeBut(v, w, lay, h)
  {
    assert ChainAt(v, h, lay.chains[h]);
    assert lay.own[Last(lay, h)] == Owner(h, |lay.chains[h]| - 1);
    ExtendLinked(v, w, lay, h, c);
    ExtendOwners(lay, h, c);
  }

  /** Linking an unowned end-of-chain cluster behind the last one keeps every chain well formed. */
  lemma ExtendLinked(v: Vol, w: Vol, lay: Layout, h: nat, c: nat)
    requires WfChains(v, lay) && h in lay.chains && h >= 2 && c !in lay.own && 2 <= c < |v.fat|
    requires ChainAt(v, h, lay.chains[h])
    requires SameShape(v, w) && w.fat[c] >= w.eoc && w.fat[Last(lay, h)] == c
    requires forall x | x in lay.own && x < |v.fat| && x != Last(lay, h) :: w.fat[x] == v.fat[x]
    ensures ChainsLinked(w, Extended(lay, h, c))
  {
    var lay2 := Extended(lay, h, c);
    var s: seq<nat> := lay.chains[h];
    var t: seq<nat> := s + [c];
    assert lay.own[s[|s| - 1]] == Owner(h, |s| - 1);
    forall i | 0 <= i < |t| - 1
      ensures w.fat[t[i]] == t[i + 1]
    {
      assert lay.own[s[i]] == Owner(h, i);
      if i < |s| - 1 {
        assert v.fat[s[i]] == s[i + 1];
      }
    }
    assert Linked(w, t);
    forall x | x in lay2.chains
      ensures ChainAt(w, x, lay2.chains[x])
    {
      if x != h { KeepChain(v, w, lay, x); }
    }
  }

  lemma ExtendOwners(lay: Layout, h: nat, c: nat)
    requires OwnersKnown(lay) && OwnersReal(lay) && c !in lay.own && h in lay.chains
    ensures OwnersKnown(Extended(lay, h, c)) && OwnersReal(Extended(lay, h, c))
  {
  }

  /** One append step: the file's chain gains a cluster, and its bytes gain that cluster's bytes. */
  lemma ExtendFile(v: Vol, w: Vol, lay: Layout, h: nat, c: nat)
    requires Wf(v, lay) && Grown(v, w, lay, h, c) && h !in lay.names
    ensures Wf(w, Extended(lay, h, c)) && OthersKept(v, lay, w, Extended(lay, h, c), h)
    ensures ChainBytes(w, Extended(lay, h, c), h) == ChainBytes(v, lay, h) + w.data[c]
  {
    hide WfChains, WfDirs, WfRefs, Unique, Kept, ChainBytes, AgreeBut;
    GrownChains(v, w, lay, h, c);
    ExtendBytes(v, w, lay, h, c);
    FileFrame(v, w, lay, Extended(lay, h, c), h);
  }

  lemma ExtendBytes(v: Vol, w: Vol, lay: Layout, h: nat, c: nat)
    requires Grown(v, w, lay, h, c)
    ensures ChainBytes(w, Extended(lay, h, c), h) == ChainBytes(v, lay, h) + w.data[c]
  {
    SameBytes(v, w, lay, h);
    ConcatSnoc(w.data, lay.chains[h], c);
  }

  lemma SameBytes(v: Vol, w: Vol, lay: Layout, h: nat)
    requires WfChains(v, lay) && h in lay.chains && SameShape(v, w)
    requires forall x | x in lay.own && x < |v.data| :: w.data[x] == v.data[x]
    ensures forall i | 0 <= i < |lay.chains[h]| :: lay.chains[h][i] < |v.data|
    ensures Concat(w.data, lay.chains[h]) == Concat(v.data, lay.chains[h])
  {
    var s: seq<nat> := lay.chains[h];
    assert ChainAt(v, h, s);
    forall i | 0 <= i < |s|
      ensures s[i] < |v.data| && w.data[s[i]] == v.data[s[i]]
    {
      assert lay.own[s[i]] == Owner(h, i);
    }
    ConcatFrame(v.data, w.data, s);
  }

  /** Rewriting a file's own clusters leaves everything else alone. */
  lemma RewriteFile(v: Vol, w: Vol, lay: Layout, h: nat)
    requires Wf(v, lay) && h !in lay.names && AgreeBut(v, w, lay, h) && w.fat == v.fat
    ensures Wf(w, lay) && OthersKept(v, lay, w, lay, h)
  {
    forall x | x in lay.chains
      ensures ChainAt(w, x, lay.chains[x])
    {
      KeepChain(v, w, lay, x);
    }
    FileFrame(v, w, lay, lay, h);
  }

  lemma KeptTrans(v0: Vol, lay0: Layout, v1: Vol, lay1: Layout, v2: Vol, lay2: Layout, h: nat)
    requires Sound(v0, lay0) && Sound(v1, lay1) && Sound(v2, lay2)
    requires v0.wide == v1.wide
    requires OthersKept(v0, lay0, v1, lay1, h) && OthersKept(v1, lay1, v2, lay2, h)
    ensures OthersKept(v0, lay0, v2, lay2, h)
  {
  }

  /** A directory grows by a zeroed cluster, which holds no entry. */
  lemma ExtendDir(v: Vol, w: Vol, lay: Layout, d: nat, c: nat)
    requires Wf(v, lay) && Grown(v, w, lay, d, c) && d in lay.names
    requires |w.data[c]| % 32 == 0 && forall i | 0 <= i < |w.data[c]| :: w.data[c][i] == 0
    ensures Wf(w, Extended(lay, d, c)) && OthersKept(v, lay, w, Extended(lay, d, c), NOBODY)
  {
    hide WfChains, WfDirs, WfRefs, Kept, SlotsKept, AgreeBut, Unique;
    var lay2 := Extended(lay, d, c);
    GrownChains(v, w, lay, d, c);
    ExtendDirDirs(v, w, lay, d, c);
    Reassemble(v, w, lay, lay2, d);
    UniqueKept(v, w, lay, lay2, NOBODY);
  }

  lemma ExtendDirDirs(v: Vol, w: Vol, lay: Layout, d: nat, c: nat)
    requires WfChains(v, lay) && WfDirs(v, lay) && d in lay.names && d in lay.chains && c < |v.data| && SameShape(v, w)
    requires forall x | x in lay.own && x < |v.data| :: w.data[x] == v.data[x]
    requires |w.data[c]| % 32 == 0 && forall i | 0 <= i < |w.data[c]| :: w.data[c][i] == 0
    ensures WfDirs(w, Extended(lay, d, c)) && SlotsKept(v, w, lay)
  {
    var lay2 := Extended(lay, d, c);
    forall x | x in lay.names
      ensures x in lay2.chains && WfDir(w, lay2.chains[x], lay2.names[x])
      ensures forall n | n in lay.names[x] ::
                && SlotOk(v, lay.names[x][n]) && SlotOk(w, lay.names[x][n])
                && Slot(w, lay.names[x][n]) == Slot(v, lay.names[x][n])
    {
      assert WfDir(v, lay.chains[x], lay.names[x]);
      ChainClusters(v, lay, x);
      DirFrame(v, w, lay.chains[x], lay.names[x]);
      assert forall n | n in lay.names[x] :: NamedAt(v, lay.chains[x], n, lay.names[x][n]);
      if x == d { GrowDir(w, lay.chains[d], lay.names[d], c); }
    }
  }

  lemma GrowDir(w: Vol, s: seq<nat>, nm: map<seq<byte>, Pos>, c: nat)
    requires WfDir(w, s, nm) && c < |w.data|
    requires |w.data[c]| % 32 == 0 && forall i | 0 <= i < |w.data[c]| :: w.data[c][i] == 0
    ensures WfDir(w, s + [c], nm)
  {
    forall p: Pos | p.cl in s + [c] && SlotOk(w, p) && Live(Slot(w, p))
      ensures Clean(NameOf(Slot(w, p))) && TextOf(Slot(w, p)) in nm && nm[TextOf(Slot(w, p))] == p
    {
      assert p.cl != c;
    }
    forall n | n in nm
      ensures NamedAt(w, s + [c], n, nm[n])
    {
      assert NamedAt(w, s, n, nm[n]);
    }
  }

  // ---- Writing one directory slot ----

  ghost function Put(v: Vol, p: Pos, t: seq<byte>): (w: Vol)
    requires SlotOk(v, p) && |t| == 32
  {
    v.(data := v.data[p.cl := Splice(v.data[p.cl], p.off, t)])
  }

  lemma PutSlot(v: Vol, p: Pos, t: seq<byte>, q: Pos)
    requires SlotOk(v, p) && |t| == 32
    ensures SlotOk(Put(v, p, t), q) <==> SlotOk(v, q)
    ensures SlotOk(v, q) ==> Slot(Put(v, p, t), q) == if q == p then t else Slot(v, q)
  {
  }

  ghost function Without(nm: map<seq<byte>, Pos>, was: seq<byte>): map<seq<byte>, Pos>
    requires |was| == 32
  {
    if Live(was) then nm - {TextOf(was)} else nm
  }

  /** The names of a directory after slot `p`, which held `was`, is overwritten by `t`. */
  ghost function NamesAfter(nm: map<seq<byte>, Pos>, was: seq<byte>, t: seq<byte>, p: Pos): map<seq<byte>, Pos>
    requires |was| == 32 && |t| == 32
  {
    if Live(t) then Without(nm, was)[TextOf(t) := p] else Without(nm, was)
  }

  /** `t` may be written at `p`: no end marker lies before, and a live `t` brings a new clean name. */
  ghost predicate Fits(v: Vol, nm: map<seq<byte>, Pos>, p: Pos, t: seq<byte>) {
    && SlotOk(v, p) && |t| == 32 && t[0] != 0
    && (forall o | 0 <= o < p.off && o % 32 == 0 :: v.data[p.cl][o] != 0)
    && (Live(t) ==> Clean(NameOf(t)) && TextOf(t) !in Without(nm, Slot(v, p)))
  }

  lemma PutTail(b: seq<byte>, o: nat, t: seq<byte>)
    requires ZeroTail(b) && o + 32 <= |b| && o % 32 == 0 && |t| == 32 && t[0] != 0
    requires forall x | 0 <= x < o && x % 32 == 0 :: b[x] != 0
    ensures ZeroTail(Splice(b, o, t))
  {
    var c := Splice(b, o, t);
    assert c[o] == c[o..o + 32][0] == t[0];
    forall i, j | 0 <= i < j < |c| && i % 32 == 0 && j % 32 == 0 && c[i] == 0
      ensures c[j] == 0
    {
      assert i > o;
      assert c[i] == b[i] && c[j] == b[j];
    }
  }

  lemma PutDir(v: Vol, s: seq<nat>, nm: map<seq<byte>, Pos>, p: Pos, t: seq<byte>)
    requires WfDir(v, s, nm) && p.cl in s && Fits(v, nm, p, t)
    ensures WfDir(Put(v, p, t), s, NamesAfter(nm, Slot(v, p), t, p))
  {
    hide TextOf, Clean, ZeroTail;
    var w, nm2 := Put(v, p, t), NamesAfter(nm, Slot(v, p), t, p);
    PutTail(v.data[p.cl], p.off, t);
    forall n | n in nm2
      ensures NamedAt(w, s, n, nm2[n])
    {
      PutSlot(v, p, t, nm2[n]);
      if !(Live(t) && n == TextOf(t)) {
        assert NamedAt(v, s, n, nm[n]);
      }
    }
    forall q: Pos | q.cl in s && SlotOk(w, q) && Live(Slot(w, q))
      ensures Clean(NameOf(Slot(w, q))) && TextOf(Slot(w, q)) in nm2 && nm2[TextOf(Slot(w, q))] == q
    {
      PutSlot(v, p, t, q);
      if q != p {
        assert TextOf(Slot(v, q)) in nm && nm[TextOf(Slot(v, q))] == q;
        assert Live(Slot(v, p)) ==> nm[TextOf(Slot(v, p))] == p;
      }
    }
  }

  ghost function PutLayout(v: Vol, lay: Layout, d: nat, p: Pos, t: seq<byte>): Layout
    requires d in lay.names && SlotOk(v, p) && |t| == 32
  {
    lay.(names := lay.names[d := NamesAfter(lay.names[d], Slot(v, p), t, p)],
         refs := if Live(t) then lay.refs[StartOf(v.wide, t) := Key(d, TextOf(t))] else lay.refs)
  }

  lemma PutChains(v: Vol, lay: Layout, d: nat, p: Pos, t: seq<byte>)
    requires WfChains(v, lay) && d in lay.names && d in lay.chains && p.cl in lay.chains[d]
    requires SlotOk(v, p) && |t| == 32
    ensures WfChains(Put(v, p, t), PutLayout(v, lay, d, p, t))
    ensures AgreeBut(v, Put(v, p, t), lay, d)
  {
    var w, lay2 := Put(v, p, t), PutLayout(v, lay, d, p, t);
    ChainClusters(v, lay, d);
    forall h | h in lay2.chains
      ensures ChainAt(w, h, lay2.chains[h])
    {
      KeepChain(v, w, lay, h);
    }
  }

  lemma PutDirs(v: Vol, lay: Layout, d: nat, p: Pos, t: seq<byte>)
    requires WfChains(v, lay) && WfDirs(v, lay) && d in lay.names && d in lay.chains
    requires p.cl in lay.chains[d] && Fits(v, lay.names[d], p, t)
    ensures WfDirs(Put(v, p, t), PutLayout(v, lay, d, p, t))
  {
    hide WfDir, NamesAfter, TextOf;
    var w, lay2 := Put(v, p, t), PutLayout(v, lay, d, p, t);
    ChainClusters(v, lay, d);
    forall x | x in lay2.names
      ensures x in lay2.chains && WfDir(w, lay2.chains[x], lay2.names[x])
    {
      assert WfDir(v, lay.chains[x], lay.names[x]);
      if x == d {
        PutDir(v, lay.chains[d], lay.names[d], p, t);
      } else {
        ChainClusters(v, lay, x);
        DirFrame(v, w, lay.chains[x], lay.names[x]);
      }
    }
  }

  /** The entry, if any, that the old contents of slot `p` of directory `d` stood for. */
  ghost predicate Replaced(v: Vol, d: nat, p: Pos, k: Key)
    requires SlotOk(v, p)
  {
    Live(Slot(v, p)) && k == Key(d, TextOf(Slot(v, p)))
  }

  lemma NameKept(nm: map<seq<byte>, Pos>, was: seq<byte>, t: seq<byte>, p: Pos, n: seq<byte>)
    requires |was| == 32 && |t| == 32 && n in nm && !(Live(was) && n == TextOf(was))
    requires Live(t) ==> TextOf(t) !in Without(nm, was)
    ensures n in NamesAfter(nm, was, t, p) && NamesAfter(nm, was, t, p)[n] == nm[n]
  {
    hide TextOf, Live;
  }

  lemma PutAt(v: Vol, lay: Layout, d: nat, p: Pos, t: seq<byte>, k: Key)
    requires d in lay.names && Fits(v, lay.names[d], p, t) && Entry(lay, k) && !Replaced(v, d, p, k)
    ensures Entry(PutLayout(v, lay, d, p, t), k) && At(PutLayout(v, lay, d, p, t), k) == At(lay, k)
  {
    if k.dir == d { NameKept(lay.names[d], Slot(v, p), t, p, k.name); }
  }

  lemma PutKeep(v: Vol, lay: Layout, d: nat, p: Pos, t: seq<byte>, k: Key)
    requires Sound(v, lay) && d in lay.names && p.cl in lay.chains[d] && Fits(v, lay.names[d], p, t)
    requires WfChains(Put(v, p, t), PutLayout(v, lay, d, p, t)) && AgreeBut(v, Put(v, p, t), lay, d)
    requires Entry(lay, k) && !Replaced(v, d, p, k)
    ensures Kept(v, lay, Put(v, p, t), PutLayout(v, lay, d, p, t), NOBODY, k)
    ensures RefOk(Put(v, p, t), PutLayout(v, lay, d, p, t), EntrySlot(v, lay, k))
  {
    var w, lay2 := Put(v, p, t), PutLayout(v, lay, d, p, t);
    assert RefOk(v, lay, EntrySlot(v, lay, k));
    EntriesDistinct(v, lay, d, p, k);
    PutSlot(v, p, t, At(lay, k));
    PutAt(v, lay, d, p, t, k);
    assert v.wide == w.wide;
    assert RefOk(w, lay2, EntrySlot(v, lay, k));
    assert lay2.chains == lay.chains;
    hide Put, PutLayout, Sound, WfChains;
    FrameNode(v, w, lay, lay2, d, k);
  }

  lemma EntriesDistinct(v: Vol, lay: Layout, d: nat, p: Pos, k: Key)
    requires WfChains(v, lay) && WfDirs(v, lay) && d in lay.names && p.cl in lay.chains[d] && SlotOk(v, p)
    requires Entry(lay, k) && !Replaced(v, d, p, k)
    ensures At(lay, k) != p
  {
    EntriesOk(v, lay, k);
    ChainClusters(v, lay, d);
    ChainClusters(v, lay, k.dir);
  }

  /** `t` leads somewhere sensible, and neither it nor what it replaces is a dot entry. */
  ghost predicate Leads(v: Vol, lay: Layout, p: Pos, t: seq<byte>)
    requires SlotOk(v, p) && |t| == 32
  {
    && (Live(t) ==> !IsDot(TextOf(t)) && RefOk(v, lay, t))
    && (Live(Slot(v, p)) ==> !IsDot(TextOf(Slot(v, p))))
  }

  lemma PutEntries(v: Vol, lay: Layout, d: nat, p: Pos, t: seq<byte>, k: Key)
    requires WfDirs(v, lay) && d in lay.names && Fits(v, lay.names[d], p, t) && p.cl in lay.chains[d]
    requires Entry(PutLayout(v, lay, d, p, t), k)
    ensures (Live(t) && k == Key(d, TextOf(t))) || (Entry(lay, k) && !Replaced(v, d, p, k))
  {
    assert WfDir(v, lay.chains[d], lay.names[d]);
  }

  lemma PutNew(v: Vol, lay: Layout, d: nat, p: Pos, t: seq<byte>)
    requires d in lay.names && SlotOk(v, p) && |t| == 32 && Live(t) && !IsDot(TextOf(t)) && RefOk(v, lay, t)
    ensures var w, lay2, k := Put(v, p, t), PutLayout(v, lay, d, p, t), Key(d, TextOf(t));
            EntryOk(w, lay2, k) && EntrySlot(w, lay2, k) == t && RefOk(w, lay2, t)
  {
    PutSlot(v, p, t, p);
  }

  /** Overwriting one slot of one directory: exactly the entry it held and the entry it now holds change. */
  lemma PutSound(v: Vol, lay: Layout, d: nat, p: Pos, t: seq<byte>)
    requires Sound(v, lay) && d in lay.names && p.cl in lay.chains[d]
    requires Fits(v, lay.names[d], p, t) && Leads(v, lay, p, t)
    ensures Sound(Put(v, p, t), PutLayout(v, lay, d, p, t))
    ensures forall k: Key | Entry(lay, k) && !Replaced(v, d, p, k) ::
              Kept(v, lay, Put(v, p, t), PutLayout(v, lay, d, p, t), NOBODY, k)
  {
    var w, lay2 := Put(v, p, t), PutLayout(v, lay, d, p, t);
    PutChains(v, lay, d, p, t);
    PutDirs(v, lay, d, p, t);
    hide WfChains, WfDirs, WfDir, Put, PutLayout, Kept, Fits;
    forall k: Key | Entry(lay, k) && !Replaced(v, d, p, k)
      ensures Kept(v, lay, w, lay2, NOBODY, k) && EntryOk(w, lay2, k) && RefOk(w, lay2, EntrySlot(w, lay2, k))
    {
      PutKeep(v, lay, d, p, t, k);
      KeptSlot(v, lay, w, lay2, NOBODY, k);
    }
    forall k: Key | Entry(lay2, k)
      ensures EntryOk(w, lay2, k) && RefOk(w, lay2, EntrySlot(w, lay2, k))
    {
      PutEntries(v, lay, d, p, t, k);
      if Live(t) && k == Key(d, TextOf(t)) { PutNew(v, lay, d, p, t); }
    }
  }

  lemma KeptSlot(v: Vol, lay: Layout, w: Vol, lay2: Layout, h: nat, k: Key)
    requires WfChains(v, lay) && WfChains(w, lay2) && Kept(v, lay, w, lay2, h, k)
    ensures EntryOk(v, lay, k) && EntryOk(w, lay2, k) && EntrySlot(w, lay2, k) == EntrySlot(v, lay, k)
  {
  }

  // ---- The tree after a slot is written ----

  ghost function SlotNode(v: Vol, lay: Layout, t: seq<byte>): Node
    requires |t| == 32
  {
    if DirBit(t[11]) then Dir(StartOf(v.wide, t))
    else File(SizeOf(t), ChainBytes(v, lay, StartOf(v.wide, t)))
  }

  lemma NewNode(v: Vol, lay: Layout, d: nat, p: Pos, t: seq<byte>)
    requires Sound(v, lay) && d in lay.names && p.cl in lay.chains[d] && Fits(v, lay.names[d], p, t)
    requires Live(t) && !IsDot(TextOf(t)) && RefOk(v, lay, t)
    ensures var w, lay2, k := Put(v, p, t), PutLayout(v, lay, d, p, t), Key(d, TextOf(t));
            WfChains(w, lay2) && EntryOk(w, lay2, k) && NodeAt(w, lay2, k) == SlotNode(v, lay, t)
  {
    var w, lay2, k := Put(v, p, t), PutLayout(v, lay, d, p, t), Key(d, TextOf(t));
    PutChains(v, lay, d, p, t);
    PutNew(v, lay, d, p, t);
    var h := StartOf(v.wide, t);
    if !DirBit(t[11]) && h != 0 {
      FrameBytes(v, w, lay, lay2, d, h);
    }
  }

  ghost predicate Brings(t: seq<byte>, d: nat, k: Key)
    requires |t| == 32
  {
    Live(t) && k == Key(d, TextOf(t))
  }

  lemma PutTree(v: Vol, lay: Layout, d: nat, p: Pos, t: seq<byte>)
    requires Sound(v, lay) && d in lay.names && p.cl in lay.chains[d]
    requires Fits(v, lay.names[d], p, t) && Leads(v, lay, p, t)
    ensures Sound(Put(v, p, t), PutLayout(v, lay, d, p, t))
    ensures forall k: Key :: k in Tree(Put(v, p, t), PutLayout(v, lay, d, p, t)) <==>
              Brings(t, d, k) || (k in Tree(v, lay) && !Replaced(v, d, p, k))
    ensures forall k: Key | Brings(t, d, k) ::
              Tree(Put(v, p, t), PutLayout(v, lay, d, p, t))[k] == SlotNode(v, lay, t)
    ensures forall k: Key | k in Tree(v, lay) && !Replaced(v, d, p, k) ::
              Tree(Put(v, p, t), PutLayout(v, lay, d, p, t))[k] == Tree(v, lay)[k]
  {
    hide Put, PutLayout, WfChains, WfDirs, WfRefs, NodeAt, Kept, Leads, SlotNode, TextOf;
    var w, lay2 := Put(v, p, t), PutLayout(v, lay, d, p, t);
    PutSound(v, lay, d, p, t);
    forall k: Key | k in Tree(v, lay) && !Replaced(v, d, p, k)
      ensures k in Tree(w, lay2) && Tree(w, lay2)[k] == Tree(v, lay)[k]
    {
      KeptNode(v, lay, w, lay2, k);
    }
    if Live(t) {
      LeadsLive(v, lay, p, t);
      NewNode(v, lay, d, p, t);
    }
    forall k: Key | k in Tree(w, lay2)
      ensures Brings(t, d, k) || (k in Tree(v, lay) && !Replaced(v, d, p, k))
    {
      PutEntries(v, lay, d, p, t, k);
      if !Brings(t, d, k) { EntriesOk(v, lay, k); }
    }
  }

  lemma LeadsLive(v: Vol, lay: Layout, p: Pos, t: seq<byte>)
    requires SlotOk(v, p) && |t| == 32 && Live(t) && Leads(v, lay, p, t)
    ensures !IsDot(TextOf(t)) && RefOk(v, lay, t)
  {
    hide TextOf, RefOk;
  }

  lemma KeptNode(v: Vol, lay: Layout, w: Vol, lay2: Layout, k: Key)
    requires WfRefs(v, lay) && Kept(v, lay, w, lay2, NOBODY, k)
    ensures EntryOk(v, lay, k) && EntryOk(w, lay2, k) && NodeAt(w, lay2, k) == NodeAt(v, lay, k)
  {
    hide NodeAt;
    assert RefOk(v, lay, EntrySlot(v, lay, k));
  }

  ghost predicate Unreferenced(v: Vol, lay: Layout, h: nat) {
    forall k: Key | EntryOk(v, lay, k) :: Head(v, lay, k) != h
  }

  /** When no entry leads to `h`, keeping the others is keeping the tree. */
  lemma TreeKept(v: Vol, lay: Layout, w: Vol, lay2: Layout, h: nat)
    requires Sound(v, lay) && Sound(w, lay2) && OthersKept(v, lay, w, lay2, h) && Unreferenced(v, lay, h)
    ensures Tree(w, lay2) == Tree(v, lay)
    ensures Unreferenced(w, lay2, h)
  {
    hide WfChains, WfDirs, NodeAt;
    forall k: Key | Entry(lay, k)
      ensures EntryOk(w, lay2, k) && Head(w, lay2, k) != h && NodeAt(w, lay2, k) == NodeAt(v, lay, k)
    {
      assert Kept(v, lay, w, lay2, h, k);
    }
    assert forall k: Key :: Entry(lay2, k) <==> Entry(lay, k);
  }

  lemma UnreferencedNobody(v: Vol, lay: Layout)
    requires WfRefs(v, lay)
    ensures Unreferenced(v, lay, NOBODY)
  {
    forall k: Key | EntryOk(v, lay, k)
      ensures Head(v, lay, k) != NOBODY
    {
      assert RefOk(v, lay, EntrySlot(v, lay, k));
    }
  }

  /** A chain nobody mentions yet has no entry leading to it. */
  lemma FreshUnreferenced(v: Vol, lay: Layout, h: nat)
    requires Sound(v, lay) && h !in lay.chains && h >= 2
    ensures Unreferenced(v, lay, h)
  {
    forall k: Key | EntryOk(v, lay, k)
      ensures Head(v, lay, k) != h
    {
      assert RefOk(v, lay, EntrySlot(v, lay, k));
    }
  }

  /** The start cluster of `t`, if any, is not the start of another entry. */
  ghost predicate Unshared(v: Vol, lay: Layout, d: nat, p: Pos, t: seq<byte>)
    requires SlotOk(v, p) && |t| == 32
  {
    Live(t) ==> forall k: Key | EntryOk(v, lay, k) && !Replaced(v, d, p, k) ::
      Head(v, lay, k) != StartOf(v.wide, t) || Head(v, lay, k) < 2
  }

  lemma UniqueKey(v: Vol, lay: Layout, d: nat, p: Pos, t: seq<byte>, w: Vol, lay2: Layout, k: Key)
    requires WfChains(v, lay) && WfChains(w, lay2) && v.wide == w.wide && SlotOk(v, p) && |t| == 32
    requires Unique(v, lay) && Unshared(v, lay, d, p, t)
    requires Entry(lay, k) && !Replaced(v, d, p, k) && Kept(v, lay, w, lay2, NOBODY, k)
    requires lay2.refs == if Live(t) then lay.refs[StartOf(v.wide, t) := Key(d, TextOf(t))] else lay.refs
    requires EntryOk(w, lay2, k) && Head(w, lay2, k) >= 2
    ensures Head(w, lay2, k) in lay2.refs && lay2.refs[Head(w, lay2, k)] == k
  {
    hide TextOf, Live, StartOf;
  }

  lemma UniquePut(v: Vol, lay: Layout, d: nat, p: Pos, t: seq<byte>)
    requires Sound(v, lay) && d in lay.names && p.cl in lay.chains[d]
    requires Fits(v, lay.names[d], p, t) && Leads(v, lay, p, t) && Unique(v, lay) && Unshared(v, lay, d, p, t)
    ensures Unique(Put(v, p, t), PutLayout(v, lay, d, p, t))
  {
    var w, lay2 := Put(v, p, t), PutLayout(v, lay, d, p, t);
    PutSound(v, lay, d, p, t);
    assert v.wide == w.wide && SlotOk(v, p);
    assert lay2.refs == if Live(t) then lay.refs[StartOf(v.wide, t) := Key(d, TextOf(t))] else lay.refs;
    hide Put, PutLayout, WfChains, WfDirs, WfRefs, Kept, Unshared, Unique, TextOf;
    forall k: Key | EntryOk(w, lay2, k) && Head(w, lay2, k) >= 2
      ensures Head(w, lay2, k) in lay2.refs && lay2.refs[Head(w, lay2, k)] == k
    {
      PutEntries(v, lay, d, p, t, k);
      if Brings(t, d, k) {
        PutNew(v, lay, d, p, t);
      } else {
        UniqueKey(v, lay, d, p, t, w, lay2, k);
      }
    }
    UniqueIntro(w, lay2);
  }

  lemma UniqueIntro(w: Vol, lay: Layout)
    requires forall k: Key | EntryOk(w, lay, k) && Head(w, lay, k) >= 2 ::
               Head(w, lay, k) in lay.refs && lay.refs[Head(w, lay, k)] == k
    ensures Unique(w, lay)
  {
  }

  lemma TreeUpdate(t: imap<Key, Node>, t2: imap<Key, Node>, k: Key, n: Node)
    requires forall x: Key :: x in t2 <==> x == k || x in t
    requires t2[k] == n && forall x: Key | x in t && x != k :: t2[x] == t[x]
    ensures t2 == t[k := n]
  {
  }

  /** Filling a free slot adds one node to the tree. */
  lemma AddEntry(v: Vol, lay: Layout, d: nat, p: Pos, t: seq<byte>)
    requires Wf(v, lay) && d in lay.names && p.cl in lay.chains[d]
    requires Fits(v, lay.names[d], p, t) && Free(Slot(v, p)) && Live(t) && Leads(v, lay, p, t)
    requires Unshared(v, lay, d, p, t) && Key(d, TextOf(t)) !in Tree(v, lay)
    ensures Wf(Put(v, p, t), PutLayout(v, lay, d, p, t))
    ensures Tree(Put(v, p, t), PutLayout(v, lay, d, p, t)) ==
            Tree(v, lay)[Key(d, TextOf(t)) := SlotNode(v, lay, t)]
  {
    PutTree(v, lay, d, p, t);
    UniquePut(v, lay, d, p, t);
    var w, lay2 := Put(v, p, t), PutLayout(v, lay, d, p, t);
    assert forall k: Key :: !Replaced(v, d, p, k);
    hide Put, PutLayout, Sound, TextOf, Tree, SlotNode;
    assert forall k: Key :: Brings(t, d, k) <==> k == Key(d, TextOf(t));
    TreeUpdate(Tree(v, lay), Tree(w, lay2), Key(d, TextOf(t)), SlotNode(v, lay, t));
  }

  /** Rewriting a live slot under the same name changes at most that node. */
  lemma UpdateEntry(v: Vol, lay: Layout, d: nat, p: Pos, t: seq<byte>)
    requires Wf(v, lay) && d in lay.names && p.cl in lay.chains[d]
    requires Fits(v, lay.names[d], p, t) && Live(Slot(v, p)) && Live(t) && Leads(v, lay, p, t)
    requires TextOf(t) == TextOf(Slot(v, p)) && StartOf(v.wide, t) == StartOf(v.wide, Slot(v, p))
    ensures Wf(Put(v, p, t), PutLayout(v, lay, d, p, t))
    ensures Tree(Put(v, p, t), PutLayout(v, lay, d, p, t)) ==
            Tree(v, lay)[Key(d, TextOf(t)) := SlotNode(v, lay, t)]
  {
    PutTree(v, lay, d, p, t);
    SameStartUnshared(v, lay, d, p, t);
    UniquePut(v, lay, d, p, t);
    var w, lay2 := Put(v, p, t), PutLayout(v, lay, d, p, t);
    assert Key(d, TextOf(t)) in Tree(v, lay) by { SlotIsEntry(v, lay, d, p); }
    assert forall k: Key :: Replaced(v, d, p, k) <==> k == Key(d, TextOf(t));
    hide Put, PutLayout, Sound, TextOf, Tree, SlotNode;
    assert forall k: Key :: Brings(t, d, k) <==> k == Key(d, TextOf(t));
    TreeUpdate(Tree(v, lay), Tree(w, lay2), Key(d, TextOf(t)), SlotNode(v, lay, t));
  }

  lemma SameStartUnshared(v: Vol, lay: Layout, d: nat, p: Pos, t: seq<byte>)
    requires Wf(v, lay) && d in lay.names && p.cl in lay.chains[d] && SlotOk(v, p) && |t| == 32
    requires Live(Slot(v, p)) && !IsDot(TextOf(Slot(v, p))) && StartOf(v.wide, t) == StartOf(v.wide, Slot(v, p))
    ensures Unshared(v, lay, d, p, t)
  {
    SlotIsEntry(v, lay, d, p);
    hide TextOf, StartOf;
  }

  /** A live slot of a directory is the slot of the entry it names. */
  lemma SlotIsEntry(v: Vol, lay: Layout, d: nat, p: Pos)
    requires Sound(v, lay) && d in lay.names && p.cl in lay.chains[d] && SlotOk(v, p) && Live(Slot(v, p))
    requires !IsDot(TextOf(Slot(v, p)))
    ensures EntryOk(v, lay, Key(d, TextOf(Slot(v, p)))) && At(lay, Key(d, TextOf(Slot(v, p)))) == p
  {
    assert WfDir(v, lay.chains[d], lay.names[d]);
  }
}

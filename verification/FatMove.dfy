/** Renaming and erasing a directory entry, as steps on values, and what they do to paths. */
module FatMove {
  import opened Bytes
  import opened ShortName
  import opened FatVolume
  import opened FatSteps
  import opened FatLink
  import opened FatFile
  import opened FatTree
  import opened FatInsert

  ghost function Minus(t: Namespace, k: Key): Namespace {
    imap x: Key | x in t && x != k :: t[x]
  }

  /** The tree after the entry `k` becomes the entry `k2`. */
  ghost function Moved(t: Namespace, k: Key, k2: Key): Namespace
    requires k in t
  {
    Minus(t, k)[k2 := t[k]]
  }

  // ---- Slots ----

  function Renamed(s: seq<byte>, name: seq<byte>): (t: seq<byte>)
    requires |s| == 32 && |name| == 11
    ensures |t| == 32
  {
    name + s[11..]
  }

  /** `p` holds the live, ordinary entry `k`. */
  ghost predicate HeldAt(v: Vol, lay: Layout, k: Key, p: Pos) {
    && EntryOk(v, lay, k) && At(lay, k) == p && k.dir in lay.chains && p.cl in lay.chains[k.dir]
    && Live(Slot(v, p)) && TextOf(Slot(v, p)) == k.name && RefOk(v, lay, Slot(v, p))
    && (forall o | 0 <= o < p.off && o % 32 == 0 :: v.data[p.cl][o] != 0)
  }

  lemma EntryHeld(v: Vol, lay: Layout, k: Key)
    requires Wf(v, lay) && Entry(lay, k)
    ensures EntryOk(v, lay, k) && HeldAt(v, lay, k, At(lay, k))
    ensures k.dir in lay.chains && At(lay, k).cl in lay.own && lay.own[At(lay, k).cl].head == k.dir
  {
    hide Wf, TextOf, Clean, RefOk, ZeroTail, Live;
    EntryNamed(v, lay, k);
    EntryFacts(v, lay, k);
    DirClusters(v, lay, k.dir);
  }

  lemma EntryNamed(v: Vol, lay: Layout, k: Key)
    requires Wf(v, lay) && Entry(lay, k)
    ensures EntryOk(v, lay, k)
  {
    hide WfChains, WfDirs, Unique, RefOk;
  }

  lemma DirClusters(v: Vol, lay: Layout, d: nat)
    requires Wf(v, lay) && d in lay.chains
    ensures forall c | c in lay.chains[d] :: c in lay.own && lay.own[c].head == d
  {
    hide WfDirs, WfRefs, Unique;
    ChainClusters(v, lay, d);
  }

  lemma RenamedFields(wide: bool, s: seq<byte>, name: seq<byte>)
    requires |s| == 32 && |name| == 11 && Live(s) && Regular(name) && name[0] != 0xE5
    ensures var t := Renamed(s, name);
            && NameOf(t) == name && t[11] == s[11] && StartOf(wide, t) == StartOf(wide, s) && SizeOf(t) == SizeOf(s)
            && Live(t) && t[0] != 0 && Clean(NameOf(t)) && TextOf(t) == Dotted(name) && !IsDot(Dotted(name))
  {
    hide Dotted, Padded;
    var t := Renamed(s, name);
    assert forall i | 11 <= i < 32 :: t[i] == s[i];
    assert NameOf(t) == name && t[0] == name[0];
    assert Plain(name[0]);
    RegularNotDot(name);
    RegularIsClean(name);
  }

  /** Overwriting the 11 name bytes of an entry by a name the directory does not hold renames the entry. */
  lemma RenameSlot(v: Vol, lay: Layout, k: Key, p: Pos, name: seq<byte>)
    requires Wf(v, lay) && HeldAt(v, lay, k, p) && |name| == 11 && Regular(name) && name[0] != 0xE5
    requires !Entry(lay, Key(k.dir, Dotted(name)))
    ensures var t := Renamed(Slot(v, p), name);
            var w, lay2 := Put(v, p, t), PutLayout(v, lay, k.dir, p, t);
            && Wf(w, lay2) && lay2.names.Keys == lay.names.Keys && k in Tree(v, lay)
            && Tree(w, lay2) == Moved(Tree(v, lay), k, Key(k.dir, Dotted(name)))
  {
    hide Wf, RefOk, NodeAt, TextOf, Dotted, StartOf, SizeOf, Regular, Clean, SlotNode, Live;
    var s := Slot(v, p);
    var t := Renamed(s, name);
    RenamedFields(v.wide, s, name);
    RenameFits(v, lay, k, p, name, t);
    RenameWf(v, lay, k, p, t);
    hide Put, PutLayout, Fits, Leads, HeldAt, Renamed;
    RenameTree(v, lay, k, p, t);
  }

  lemma RenameFits(v: Vol, lay: Layout, k: Key, p: Pos, name: seq<byte>, t: seq<byte>)
    requires HeldAt(v, lay, k, p) && |name| == 11 && !Entry(lay, Key(k.dir, Dotted(name))) && |t| == 32
    requires NameOf(t) == name && t[11] == Slot(v, p)[11] && StartOf(v.wide, t) == StartOf(v.wide, Slot(v, p))
    requires SizeOf(t) == SizeOf(Slot(v, p))
    requires Live(t) && t[0] != 0 && Clean(NameOf(t)) && TextOf(t) == Dotted(name) && !IsDot(Dotted(name))
    ensures Fits(v, lay.names[k.dir], p, t) && Leads(v, lay, p, t)
  {
    hide TextOf, Dotted, StartOf, SizeOf, Clean, RefOk, Live;
    RefOkSame(v, lay, Slot(v, p), t);
  }

  lemma RefOkSame(v: Vol, lay: Layout, s: seq<byte>, t: seq<byte>)
    requires |s| == 32 && |t| == 32 && t[11] == s[11] && StartOf(v.wide, t) == StartOf(v.wide, s)
             && SizeOf(t) == SizeOf(s)
    requires RefOk(v, lay, s)
    ensures RefOk(v, lay, t)
  {
    hide StartOf, SizeOf, DirBit, ArchiveBit;
  }

  lemma RenameWf(v: Vol, lay: Layout, k: Key, p: Pos, t: seq<byte>)
    requires Wf(v, lay) && HeldAt(v, lay, k, p) && Fits(v, lay.names[k.dir], p, t) && Leads(v, lay, p, t)
    requires Live(t) ==> StartOf(v.wide, t) == StartOf(v.wide, Slot(v, p))
    ensures Wf(Put(v, p, t), PutLayout(v, lay, k.dir, p, t))
    ensures PutLayout(v, lay, k.dir, p, t).names.Keys == lay.names.Keys
  {
    hide WfChains, WfDirs, WfRefs, Unique, RefOk, TextOf, StartOf, SizeOf, Leads, Clean;
    assert !IsDot(TextOf(Slot(v, p)));
    PutSound(v, lay, k.dir, p, t);
    if Live(t) {
      SameStartUnshared(v, lay, k.dir, p, t);
    }
    UniquePut(v, lay, k.dir, p, t);
  }

  lemma RenameTree(v: Vol, lay: Layout, k: Key, p: Pos, t: seq<byte>)
    requires Wf(v, lay) && HeldAt(v, lay, k, p) && Fits(v, lay.names[k.dir], p, t) && Leads(v, lay, p, t) && Live(t)
    requires StartOf(v.wide, t) == StartOf(v.wide, Slot(v, p)) && SizeOf(t) == SizeOf(Slot(v, p))
             && t[11] == Slot(v, p)[11]
    ensures k in Tree(v, lay)
    ensures Tree(Put(v, p, t), PutLayout(v, lay, k.dir, p, t)) == Moved(Tree(v, lay), k, Key(k.dir, TextOf(t)))
  {
    hide WfChains, WfDirs, WfRefs, Unique, RefOk, TextOf, StartOf, SizeOf, Leads, Put, PutLayout, SlotNode, Tree,
         Moved, Live;
    SameSlotNode(v, lay, k, p, t);
    var w, lay2 := Put(v, p, t), PutLayout(v, lay, k.dir, p, t);
    PutTree(v, lay, k.dir, p, t);
    assert forall x: Key :: Brings(t, k.dir, x) <==> x == Key(k.dir, TextOf(t));
    TreeMoved(Tree(v, lay), Tree(w, lay2), k, Key(k.dir, TextOf(t)));
  }

  lemma SameSlotNode(v: Vol, lay: Layout, k: Key, p: Pos, t: seq<byte>)
    requires HeldAt(v, lay, k, p) && |t| == 32
    requires StartOf(v.wide, t) == StartOf(v.wide, Slot(v, p)) && SizeOf(t) == SizeOf(Slot(v, p))
             && t[11] == Slot(v, p)[11]
    ensures k in Tree(v, lay) && SlotNode(v, lay, t) == Tree(v, lay)[k]
    ensures forall x: Key :: Replaced(v, k.dir, p, x) <==> x == k
  {
    hide TextOf, StartOf, SizeOf, RefOk, ChainBytes, DirBit, Live;
  }

  lemma TreeMoved(t: Namespace, t2: Namespace, k: Key, k2: Key)
    requires k in t && (forall x: Key :: x in t2 <==> x == k2 || (x in t && x != k))
    requires t2[k2] == t[k] && forall x: Key | x in t && x != k :: t2[x] == t[x]
    ensures t2 == Moved(t, k, k2)
  {
  }

  /** Marking an entry deleted removes it from the tree; a file's chain is then free to be named again. */
  lemma EraseSlot(v: Vol, lay: Layout, k: Key, p: Pos)
    requires Wf(v, lay) && HeldAt(v, lay, k, p)
    ensures var t := Erased(Slot(v, p));
            var w, lay2 := Put(v, p, t), PutLayout(v, lay, k.dir, p, t);
            && Wf(w, lay2) && lay2.names.Keys == lay.names.Keys && lay2.chains == lay.chains && lay2.own == lay.own
            && k in Tree(v, lay) && Tree(w, lay2) == Minus(Tree(v, lay), k)
  {
    hide WfChains, WfDirs, WfRefs, Unique, RefOk, TextOf, StartOf, SizeOf, SlotNode, NodeAt;
    var t := Erased(Slot(v, p));
    var w, lay2 := Put(v, p, t), PutLayout(v, lay, k.dir, p, t);
    assert !Live(t) && t[0] != 0;
    RenameWf(v, lay, k, p, t);
    PutTree(v, lay, k.dir, p, t);
    assert forall x: Key :: Replaced(v, k.dir, p, x) <==> x == k;
    hide Put, PutLayout, Fits, Leads, HeldAt;
    assert Tree(w, lay2) == Minus(Tree(v, lay), k);
  }

  lemma ErasedHead(v: Vol, lay: Layout, k: Key, p: Pos)
    requires Wf(v, lay) && HeldAt(v, lay, k, p) && !DirBit(Slot(v, p)[11])
    ensures var t := Erased(Slot(v, p));
            var w, lay2, h := Put(v, p, t), PutLayout(v, lay, k.dir, p, t), StartOf(v.wide, Slot(v, p));
            && CanHead(w, lay2, 0x20, h, SizeOf(Slot(v, p)))
            && HeadNode(w, lay2, 0x20, h, SizeOf(Slot(v, p))) == Tree(v, lay)[k]
  {
    hide Wf, TextOf, SizeOf, Unreferenced, Put, PutLayout, RefOk, ChainBytes, WfChains, AgreeBut;
    var s := Slot(v, p);
    var t := Erased(s);
    assert !Live(t) && t[0] != 0;
    SameSlotNode(v, lay, k, p, s);
    FileHead(v, lay, k, p);
    PutLost(v, lay, k.dir, p, t);
    var h := StartOf(v.wide, s);
    hide StartOf;
    if h >= 2 {
      ErasedUnreferenced(v, lay, k, p, t, h);
      ErasedBytes(v, lay, k, p, t, h);
    } else {
      NoChain(v, lay);
      NoChain(Put(v, p, t), PutLayout(v, lay, k.dir, p, t));
    }
  }

  lemma PutLost(v: Vol, lay: Layout, d: nat, p: Pos, t: seq<byte>)
    requires d in lay.names && SlotOk(v, p) && |t| == 32
    ensures PutLayout(v, lay, d, p, t).lost == lay.lost
  {
    hide NamesAfter;
  }

  lemma FileHead(v: Vol, lay: Layout, k: Key, p: Pos)
    requires HeldAt(v, lay, k, p) && !DirBit(Slot(v, p)[11])
    ensures var h := StartOf(v.wide, Slot(v, p));
            h < Span(v.wide) && (h == 0 || (h >= 2 && h in lay.chains && h !in lay.names && h != lay.lost))
            && (h == 0 ==> SizeOf(Slot(v, p)) == 0 || lay.lost != NOBODY)
  {
    hide TextOf;
  }

  lemma ErasedBytes(v: Vol, lay: Layout, k: Key, p: Pos, t: seq<byte>, h: nat)
    requires Wf(v, lay) && HeldAt(v, lay, k, p) && |t| == 32 && h >= 2 && h in lay.chains && h !in lay.names
    ensures var w, lay2 := Put(v, p, t), PutLayout(v, lay, k.dir, p, t);
            && w.wide == v.wide && h in lay2.chains && h !in lay2.names
            && ChainBytes(w, lay2, h) == ChainBytes(v, lay, h)
  {
    hide TextOf, RefOk, WfDirs, WfRefs, Unique, AgreeBut;
    PutChains(v, lay, k.dir, p, t);
    FrameBytes(v, Put(v, p, t), lay, PutLayout(v, lay, k.dir, p, t), k.dir, h);
  }

  /** Deleting the entry `k` leaves every other entry as it was. */
  lemma ErasedKeeps(v: Vol, lay: Layout, k: Key, p: Pos, t: seq<byte>, x: Key)
    requires Sound(v, lay) && HeldAt(v, lay, k, p) && |t| == 32 && !Live(t) && Fits(v, lay.names[k.dir], p, t)
    requires Entry(PutLayout(v, lay, k.dir, p, t), x)
    ensures x != k && Kept(v, lay, Put(v, p, t), PutLayout(v, lay, k.dir, p, t), NOBODY, x)
    ensures Sound(Put(v, p, t), PutLayout(v, lay, k.dir, p, t))
  {
    hide TextOf, StartOf, Put, PutLayout, Fits, Kept, WfChains, WfDirs, WfRefs, RefOk;
    PutEntries(v, lay, k.dir, p, t, x);
    PutSound(v, lay, k.dir, p, t);
  }

  lemma OtherHead(v: Vol, lay: Layout, k: Key, x: Key)
    requires Unique(v, lay) && EntryOk(v, lay, k) && EntryOk(v, lay, x) && x != k && Head(v, lay, k) >= 2
    ensures Head(v, lay, x) != Head(v, lay, k)
  {
    hide StartOf;
  }

  lemma ErasedOther(v: Vol, lay: Layout, k: Key, p: Pos, t: seq<byte>, x: Key)
    requires Wf(v, lay) && HeldAt(v, lay, k, p) && |t| == 32 && !Live(t) && Fits(v, lay.names[k.dir], p, t)
    requires StartOf(v.wide, Slot(v, p)) >= 2
    requires EntryOk(Put(v, p, t), PutLayout(v, lay, k.dir, p, t), x)
    ensures Head(Put(v, p, t), PutLayout(v, lay, k.dir, p, t), x) != StartOf(v.wide, Slot(v, p))
  {
    hide TextOf, StartOf, PutLayout, Fits, Kept, WfChains, WfDirs, WfRefs, RefOk, Unique;
    ErasedKeeps(v, lay, k, p, t, x);
    KeptSlot(v, lay, Put(v, p, t), PutLayout(v, lay, k.dir, p, t), NOBODY, x);
    OtherHead(v, lay, k, x);
  }

  lemma ErasedUnreferenced(v: Vol, lay: Layout, k: Key, p: Pos, t: seq<byte>, h: nat)
    requires Wf(v, lay) && HeldAt(v, lay, k, p) && |t| == 32 && !Live(t) && h >= 2 && h == StartOf(v.wide, Slot(v, p))
    requires Fits(v, lay.names[k.dir], p, t)
    ensures Unreferenced(Put(v, p, t), PutLayout(v, lay, k.dir, p, t), h)
  {
    hide Wf, Live, TextOf, RefOk, Head;
    forall x: Key | EntryOk(Put(v, p, t), PutLayout(v, lay, k.dir, p, t), x)
      ensures Head(Put(v, p, t), PutLayout(v, lay, k.dir, p, t), x) != h
    {
      ErasedOther(v, lay, k, p, t, x);
    }
  }

  // ---- Paths after a move ----

  /** Resolving `cs` from `d` looks up the entry `k` on the way. */
  ghost predicate Looks(t: Namespace, d: nat, cs: seq<seq<byte>>, k: Key)
    decreases |cs|
  {
    && cs != []
    && (Key(d, cs[0]) == k ||
        (Key(d, cs[0]) in t && t[Key(d, cs[0])].Dir? && Looks(t, t[Key(d, cs[0])].head, cs[1..], k)))
  }

  lemma {:induction false} LooksAt(t: Namespace, d: nat, cs: seq<seq<byte>>, k: Key) returns (i: nat)
    requires Looks(t, d, cs, k)
    ensures i < |cs| && Walk(t, d, cs[..i]) == Some(k.dir) && cs[i] == k.name
    decreases |cs|
  {
    if Key(d, cs[0]) == k {
      i := 0;
    } else {
      var j := LooksAt(t, t[Key(d, cs[0])].head, cs[1..], k);
      i := j + 1;
      assert cs[..i][0] == cs[0] && cs[..i][1..] == cs[1..][..j];
    }
  }

  lemma {:induction false} LooksMore(t: Namespace, d: nat, cs: seq<seq<byte>>, c: seq<byte>, k: Key)
    ensures Looks(t, d, cs, k) ==> Looks(t, d, cs + [c], k)
    ensures Walk(t, d, cs) == Some(k.dir) && c == k.name ==> Looks(t, d, cs + [c], k)
    decreases |cs|
  {
    if cs == [] {
      assert (cs + [c])[0] == c;
    } else {
      assert (cs + [c])[0] == cs[0] && (cs + [c])[1..] == cs[1..] + [c];
      if Key(d, cs[0]) in t && t[Key(d, cs[0])].Dir? {
        LooksMore(t, t[Key(d, cs[0])].head, cs[1..], c, k);
      }
    }
  }

  /** A walk that looks up neither name of the moved entry is not affected. */
  lemma {:induction false} WalkMoved(t: Namespace, d: nat, cs: seq<seq<byte>>, k: Key, k2: Key)
    requires k in t && !Looks(t, d, cs, k) && !Looks(t, d, cs, k2)
    ensures Walk(Moved(t, k, k2), d, cs) == Walk(t, d, cs)
    decreases |cs|
  {
    if cs != [] && Key(d, cs[0]) in t && t[Key(d, cs[0])].Dir? {
      WalkMoved(t, t[Key(d, cs[0])].head, cs[1..], k, k2);
    }
  }

  /** Every path that meets neither name reads as before. */
  lemma ReadElsewhere(t: Namespace, root: nat, cs: seq<seq<byte>>, k: Key, k2: Key, max: nat)
    requires k in t && !Looks(t, root, cs, k) && !Looks(t, root, cs, k2)
    ensures ReadPath(Moved(t, k, k2), root, cs, max) == ReadPath(t, root, cs, max)
  {
    hide Looks, Walk, Contents, Cut;
    if cs != [] {
      var p := cs[..|cs| - 1];
      assert cs == p + [FinalName(cs)];
      LooksMore(t, root, p, FinalName(cs), k);
      LooksMore(t, root, p, FinalName(cs), k2);
      WalkMoved(t, root, p, k, k2);
    }
  }

  /** The parent walk of a name never passes through an entry of that same parent. */
  lemma ParentAvoids(t: Namespace, root: nat, p: seq<seq<byte>>, k: Key, k2: Key)
    requires DirsUnique(t) && Rooted(t, root) && Walk(t, root, p).Some? && k in t && k2 !in t
    requires t[k].Dir? ==> Walk(t, root, p) == Some(k.dir)
    ensures !Looks(t, root, p, k) && !Looks(t, root, p, k2)
  {
    hide Looks, Walk;
    if Looks(t, root, p, k) {
      var i := LooksAt(t, root, p, k);
      StepInWalk(t, root, p, i, k);
      WalkInjective(t, root, p[..i], p);
      assert false;
    }
    if Looks(t, root, p, k2) {
      var i := LooksAt(t, root, p, k2);
      StepInWalk(t, root, p, i, k2);
    }
  }

  /** A key looked up inside a successful walk is a directory entry. */
  lemma StepInWalk(t: Namespace, d: nat, cs: seq<seq<byte>>, i: nat, k: Key)
    requires i < |cs| && Walk(t, d, cs).Some? && Walk(t, d, cs[..i]) == Some(k.dir) && cs[i] == k.name
    ensures k in t && t[k].Dir?
  {
    hide Walk;
    WalkPrefix(t, d, cs, i + 1);
    assert cs[..i + 1] == cs[..i] + [cs[i]];
    WalkSnoc(t, d, cs[..i], cs[i]);
  }

  /** A move seen through paths: the new path reads what the old one read, the old one is gone. */
  lemma MoveThenRead(t: Namespace, root: nat, sp: seq<seq<byte>>, dp: seq<seq<byte>>, k: Key, k2: Key, max: nat)
    requires DirsUnique(t) && Rooted(t, root) && k in t && k2 !in t
    requires Walk(t, root, sp) == Some(k.dir) && Walk(t, root, dp) == Some(k2.dir)
    requires t[k].Dir? ==> k.dir == k2.dir
    ensures ReadPath(Moved(t, k, k2), root, dp + [k2.name], max) == ReadPath(t, root, sp + [k.name], max)
    ensures ReadPath(Moved(t, k, k2), root, sp + [k.name], max) == None
    ensures t[k].Dir? ==> Walk(Moved(t, k, k2), root, dp + [k2.name]) == Walk(t, root, sp + [k.name])
    ensures Walk(Moved(t, k, k2), root, sp + [k.name]) == None
    ensures Walk(Moved(t, k, k2), root, sp) == Some(k.dir) && Walk(Moved(t, k, k2), root, dp) == Some(k2.dir)
  {
    hide Looks, Walk, Contents, Cut;
    var t2 := Moved(t, k, k2);
    ParentAvoids(t, root, sp, k, k2);
    ParentAvoids(t, root, dp, k, k2);
    WalkMoved(t, root, sp, k, k2);
    WalkMoved(t, root, dp, k, k2);
    assert (sp + [k.name])[..|sp|] == sp && (dp + [k2.name])[..|dp|] == dp;
    WalkSnoc(t, root, sp, k.name);
    WalkSnoc(t2, root, sp, k.name);
    WalkSnoc(t2, root, dp, k2.name);
  }

  lemma WfDirsUnique(v: Vol, lay: Layout)
    requires Wf(v, lay)
    ensures DirsUnique(Tree(v, lay))
  {
    hide WfChains, WfDirs, RefOk;
    forall x: Key, y: Key | x in Tree(v, lay) && y in Tree(v, lay) && Tree(v, lay)[x].Dir? && Tree(v, lay)[y].Dir?
                            && Tree(v, lay)[x].head == Tree(v, lay)[y].head
      ensures x == y
    {
      EntryHeads(v, lay, x);
      EntryHeads(v, lay, y);
    }
  }

  lemma EntryHeads(v: Vol, lay: Layout, x: Key)
    requires Wf(v, lay) && EntryOk(v, lay, x) && NodeAt(v, lay, x).Dir?
    ensures var h := NodeAt(v, lay, x).head; h in lay.refs && lay.refs[h] == x
  {
    hide WfChains, WfDirs;
    assert RefOk(v, lay, EntrySlot(v, lay, x));
  }
}

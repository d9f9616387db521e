/** The slot loops inside one directory cluster, shared by all lookups and insertions. */
module FatScan {
  import opened Bytes
  import opened ShortName
  import opened FatVolume
  import opened FatImage

  ghost predicate SlotAt(buf: seq<byte>, off: nat) {
    off % 32 == 0 && off + 32 <= |buf|
  }

  ghost predicate DirBuffer(buf: seq<byte>) {
    |buf| % 32 == 0 && ZeroTail(buf)
  }

  lemma SlotPrefix(buf: seq<byte>, off: nat)
    requires off + 32 <= |buf|
    ensures NameOf(buf[off..off + 32]) == buf[off..off + 11]
    ensures buf[off..off + 32][0] == buf[off] && buf[off..off + 32][11] == buf[off + 11]
  {
  }

  lemma TailDead(buf: seq<byte>, off: nat)
    requires DirBuffer(buf) && SlotAt(buf, off) && buf[off] == 0
    ensures forall o: nat | SlotAt(buf, o) && off <= o :: !Live(buf[o..o + 32])
  {
  }

  /** No live slot below `lim` has this text. */
  ghost predicate NoText(buf: seq<byte>, lim: nat, text: seq<byte>) {
    forall o: nat | SlotAt(buf, o) && o < lim && Live(buf[o..o + 32]) :: TextOf(buf[o..o + 32]) != text
  }

  ghost predicate NoShort(buf: seq<byte>, lim: nat, short11: seq<byte>) {
    forall o: nat | SlotAt(buf, o) && o < lim && Live(buf[o..o + 32]) :: NameOf(buf[o..o + 32]) != short11
  }

  /** A hit at `off`: a live slot with this text. */
  ghost predicate HitText(buf: seq<byte>, off: nat, text: seq<byte>) {
    SlotAt(buf, off) && Live(buf[off..off + 32]) && TextOf(buf[off..off + 32]) == text
  }

  ghost predicate HitShort(buf: seq<byte>, off: nat, short11: seq<byte>) {
    SlotAt(buf, off) && Live(buf[off..off + 32]) && NameOf(buf[off..off + 32]) == short11
  }

  /** First live slot whose 11 name bytes are `short11`. */
  method ScanShort(buf: seq<byte>, short11: seq<byte>) returns (found: bool, off: nat, ended: bool)
    requires DirBuffer(buf) && |short11| == 11
    ensures ended ==> !found && SlotAt(buf, off) && buf[off] == 0
    ensures found ==> HitShort(buf, off, short11)
    ensures !found ==> NoShort(buf, |buf|, short11)
  {
    off := 0;
    while off < |buf|
      invariant off % 32 == 0
      invariant NoShort(buf, off, short11)
    {
      var fb := buf[off];
      if fb == 0x00 {
        TailDead(buf, off);
        return false, off, true;
      }
      if fb != 0xE5 && buf[off + 11] != 0x0F {
        if buf[off..off + 11] == short11 {
          return true, off, false;
        }
        SlotPrefix(buf, off);
      }
      off := off + 32;
    }
    found, ended := false, false;
  }

  /** First live slot whose rebuilt text is `text`; slot names hold no NUL. */
  method ScanText(buf: seq<byte>, text: CString) returns (found: bool, off: nat, ended: bool)
    requires DirBuffer(buf)
    ensures ended ==> !found && SlotAt(buf, off) && buf[off] == 0
    ensures found ==> HitText(buf, off, text)
    ensures !found ==> NoText(buf, |buf|, text)
  {
    hide Dotted;
    off := 0;
    while off < |buf|
      invariant off % 32 == 0
      invariant NoText(buf, off, text)
    {
      var first := buf[off];
      if first == 0x00 {
        TailDead(buf, off);
        return false, off, true;
      }
      if first != 0xE5 && buf[off + 11] != 0x0F {
        SlotPrefix(buf, off);
        var merged := MergedName(buf[off..off + 11]);
        if merged == text {
          return true, off, false;
        }
      }
      off := off + 32;
    }
    found, ended := false, false;
  }

  /** First free slot, or the buffer length when every slot is taken. */
  method ScanFree(buf: seq<byte>) returns (off: nat)
    requires |buf| % 32 == 0
    ensures off == |buf| || (SlotAt(buf, off) && Free(buf[off..off + 32]))
    ensures Taken(buf, off)
  {
    off := 0;
    while off < |buf|
      invariant off % 32 == 0 && off <= |buf|
      invariant Taken(buf, off)
    {
      var fb := buf[off];
      if fb == 0x00 || fb == 0xE5 {
        return;
      }
      off := off + 32;
    }
  }

  /** Every slot below `lim` is taken. */
  ghost predicate Taken(b: seq<byte>, lim: nat) {
    forall o: nat | o < lim && o % 32 == 0 && o < |b| :: b[o] != 0 && b[o] != 0xE5
  }

  // ---- From one cluster to the directory ----

  /** Cluster `c` of directory `d` is a buffer the scans accept. */
  lemma DirCluster(v: Vol, lay: Layout, d: nat, i: nat)
    requires Wf(v, lay) && d in lay.names && i < |lay.chains[d]|
    ensures lay.chains[d][i] < |v.data| && DirBuffer(v.data[lay.chains[d][i]])
  {
    assert WfDir(v, lay.chains[d], lay.names[d]);
    assert lay.chains[d][i] in lay.chains[d];
  }

  /** A live slot found by its text is the directory's entry of that name. */
  lemma FoundText(v: Vol, lay: Layout, d: nat, i: nat, off: nat)
    requires Sound(v, lay) && d in lay.names && i < |lay.chains[d]|
    requires lay.chains[d][i] < |v.data| && SlotAt(v.data[lay.chains[d][i]], off)
    requires Live(v.data[lay.chains[d][i]][off..off + 32])
    ensures var p := Pos(lay.chains[d][i], off);
            && SlotOk(v, p) && Clean(NameOf(Slot(v, p)))
            && TextOf(Slot(v, p)) in lay.names[d] && lay.names[d][TextOf(Slot(v, p))] == p
  {
    assert WfDir(v, lay.chains[d], lay.names[d]);
    var p := Pos(lay.chains[d][i], off);
    assert p.cl in lay.chains[d] && SlotOk(v, p) && Live(Slot(v, p));
  }

  /** Where a chain starts, and what the table says at each of its clusters. */
  lemma ChainStart(v: Vol, lay: Layout, h: nat)
    requires Wf(v, lay) && h in lay.chains
    ensures h == 0 ==> lay.chains[h] == [0]
    ensures |lay.chains[h]| > 0 && lay.chains[h][0] == h
    ensures h in lay.own && |v.fat| == |v.data|
  {
    assert ChainAt(v, h, lay.chains[h]);
    assert lay.own[lay.chains[h][0]] == Owner(h, 0);
  }

  lemma ChainStep(v: Vol, lay: Layout, h: nat, i: nat)
    requires Wf(v, lay) && h in lay.chains && h >= 2 && i < |lay.chains[h]|
    ensures var c := lay.chains[h][i];
            && 2 <= c < |v.fat| == |v.data| && c < v.eoc && c in lay.own && lay.own[c].head == h
            && (if i == |lay.chains[h]| - 1 then v.fat[c] >= v.eoc
                else v.fat[c] == lay.chains[h][i + 1] && 2 <= v.fat[c] < v.eoc)
  {
    assert ChainAt(v, h, lay.chains[h]);
    assert lay.own[lay.chains[h][i]] == Owner(h, i);
  }

  lemma DirHasChain(v: Vol, lay: Layout, d: nat)
    requires Wf(v, lay) && d in lay.names
    ensures d in lay.chains
  {
  }

  /** The fields of the slot of entry `k`. */
  ghost predicate IsSlot(v: Vol, lay: Layout, k: Key, start: nat, size: nat, attr: byte) {
    && EntryOk(v, lay, k)
    && var s := EntrySlot(v, lay, k); start == StartOf(v.wide, s) && size == SizeOf(s) && attr == s[11]
  }

  /** What the text lookups report about entry `k`. */
  ghost predicate FoundAs(v: Vol, lay: Layout, k: Key, start: nat, size: nat, isDir: bool) {
    && EntryOk(v, lay, k)
    && var s := EntrySlot(v, lay, k); start == StartOf(v.wide, s) && size == SizeOf(s) && isDir == DirBit(s[11])
  }

  /** A scan hit at offset `off` of the `i`-th cluster is the entry of that name. */
  lemma FoundEntry(v: Vol, lay: Layout, d: nat, i: nat, off: nat, text: seq<byte>)
    requires Wf(v, lay) && d in lay.names && d in lay.chains && i < |lay.chains[d]| && !IsDot(text)
    requires lay.chains[d][i] < |v.data| && HitText(v.data[lay.chains[d][i]], off, text)
    ensures Entry(lay, Key(d, text)) && At(lay, Key(d, text)) == Pos(lay.chains[d][i], off)
    ensures off + 32 <= |v.data[lay.chains[d][i]]| && EntryOk(v, lay, Key(d, text))
    ensures var s := v.data[lay.chains[d][i]][off..off + 32];
            && IsSlot(v, lay, Key(d, text), StartOf(v.wide, s), SizeOf(s), s[11])
            && FoundAs(v, lay, Key(d, text), StartOf(v.wide, s), SizeOf(s), DirBit(s[11]))
  {
    FoundText(v, lay, d, i, off);
    hide TextOf;
  }

  /** The clusters `s[..i]` hold no live slot with this text. */
  ghost predicate AbsentText(v: Vol, s: seq<nat>, i: nat, text: seq<byte>) {
    forall j | 0 <= j < i && j < |s| && s[j] < |v.data| :: NoText(v.data[s[j]], |v.data[s[j]]|, text)
  }

  lemma AbsentNone(v: Vol, lay: Layout, d: nat, text: seq<byte>)
    ensures d in lay.chains ==> AbsentText(v, lay.chains[d], 0, text)
  {
  }

  lemma NoTextYet(b: seq<byte>, text: seq<byte>)
    ensures NoText(b, 0, text)
  {
  }

  /** The FAT16 root directory is the single pseudo-cluster 0. */
  lemma RootIsDir(v: Vol, lay: Layout)
    requires Wf(v, lay) && 0 in lay.names
    ensures 0 in lay.chains && lay.chains[0] == [0] && |v.data| > 0 && DirBuffer(v.data[0])
  {
    ChainStart(v, lay, 0);
    DirCluster(v, lay, 0, 0);
  }

  lemma NotInRoot(v: Vol, lay: Layout, text: seq<byte>)
    requires Wf(v, lay) && 0 in lay.names && |v.data| > 0 && NoText(v.data[0], |v.data[0]|, text)
    ensures text !in lay.names[0]
  {
    RootIsDir(v, lay);
    NotFoundText(v, lay, 0, text);
  }

  lemma AbsentNext(v: Vol, s: seq<nat>, i: nat, text: seq<byte>)
    requires AbsentText(v, s, i, text) && i < |s| && s[i] < |v.data|
    requires NoText(v.data[s[i]], |v.data[s[i]]|, text)
    ensures AbsentText(v, s, i + 1, text)
  {
  }

  /** Every name of a directory is a hit in one of its clusters. */
  lemma NameHasHit(v: Vol, lay: Layout, d: nat, text: seq<byte>) returns (j: nat)
    requires Wf(v, lay) && d in lay.names && d in lay.chains && text in lay.names[d]
    ensures j < |lay.chains[d]| && lay.chains[d][j] < |v.data|
    ensures !NoText(v.data[lay.chains[d][j]], |v.data[lay.chains[d][j]]|, text)
  {
    assert WfDir(v, lay.chains[d], lay.names[d]);
    var p := lay.names[d][text];
    assert NamedAt(v, lay.chains[d], text, p);
    j :| 0 <= j < |lay.chains[d]| && lay.chains[d][j] == p.cl;
    hide TextOf, Wf;
    assert SlotAt(v.data[p.cl], p.off) && Live(v.data[p.cl][p.off..p.off + 32]);
  }

  lemma NotFoundText(v: Vol, lay: Layout, d: nat, text: seq<byte>)
    requires Wf(v, lay) && d in lay.names && d in lay.chains && AbsentText(v, lay.chains[d], |lay.chains[d]|, text)
    ensures text !in lay.names[d]
  {
    hide Wf, NoText;
    if text in lay.names[d] {
      var j := NameHasHit(v, lay, d, text);
    }
  }

  ghost predicate CleanSlots(b: seq<byte>) {
    forall o: nat | SlotAt(b, o) && Live(b[o..o + 32]) :: Clean(NameOf(b[o..o + 32]))
  }

  lemma DirClean(v: Vol, lay: Layout, d: nat, i: nat)
    requires Wf(v, lay) && d in lay.names && d in lay.chains && i < |lay.chains[d]| && lay.chains[d][i] < |v.data|
    ensures CleanSlots(v.data[lay.chains[d][i]])
  {
    var b := v.data[lay.chains[d][i]];
    forall o: nat | SlotAt(b, o) && Live(b[o..o + 32])
      ensures Clean(NameOf(b[o..o + 32]))
    {
      FoundText(v, lay, d, i, o);
    }
  }

  /** Among clean slots, having the same 11 bytes and having the same text are one thing. */
  lemma ShortIsText(b: seq<byte>, short11: seq<byte>, off: nat, lim: nat)
    requires CleanSlots(b) && Clean(short11)
    ensures HitShort(b, off, short11) <==> HitText(b, off, Dotted(short11))
    ensures NoShort(b, lim, short11) <==> NoText(b, lim, Dotted(short11))
  {
    hide Dotted;
    forall o: nat | SlotAt(b, o) && Live(b[o..o + 32])
      ensures NameOf(b[o..o + 32]) == short11 <==> TextOf(b[o..o + 32]) == Dotted(short11)
    {
      if TextOf(b[o..o + 32]) == Dotted(short11) { DottedInjective(NameOf(b[o..o + 32]), short11); }
    }
    hide TextOf, Live;
  }

  lemma SlotInside(b: seq<byte>, off: nat, short11: seq<byte>)
    requires HitShort(b, off, short11)
    ensures off + 32 <= |b|
  {
  }

  lemma CleanSector(b: seq<byte>, s: nat)
    requires CleanSlots(b) && s * SECTOR + SECTOR <= |b|
    ensures CleanSlots(b[s * SECTOR..s * SECTOR + SECTOR])
  {
    var c := b[s * SECTOR..s * SECTOR + SECTOR];
    forall o: nat | SlotAt(c, o) && Live(c[o..o + 32])
      ensures Clean(NameOf(c[o..o + 32]))
    {
      SlotOfSector(b, s, o);
    }
  }

  // ---- The FAT16 root, scanned sector by sector ----

  lemma SlotOfSlice(b: seq<byte>, o: nat, n: nat, off: nat)
    requires o + n <= |b| && o % 32 == 0 && SlotAt(b[o..o + n], off)
    ensures SlotAt(b, o + off)
    ensures b[o..o + n][off..off + 32] == b[o + off..o + off + 32] && b[o..o + n][off] == b[o + off]
  {
    PartOfPart(b, o, o + n, off, 32);
  }

  lemma SlotOfSector(b: seq<byte>, s: nat, off: nat)
    requires s * SECTOR + SECTOR <= |b| && SlotAt(b[s * SECTOR..s * SECTOR + SECTOR], off)
    ensures SlotAt(b, s * SECTOR + off)
    ensures b[s * SECTOR..s * SECTOR + SECTOR][off..off + 32] == b[s * SECTOR + off..s * SECTOR + off + 32]
    ensures b[s * SECTOR..s * SECTOR + SECTOR][off] == b[s * SECTOR + off]
  {
    SectorMul(s);
    SlotOfSlice(b, s * SECTOR, SECTOR, off);
  }

  lemma TailOfSlice(b: seq<byte>, o: nat, n: nat)
    requires ZeroTail(b) && o % 32 == 0 && o + n <= |b|
    ensures ZeroTail(b[o..o + n])
  {
    var c := b[o..o + n];
    forall i, j | 0 <= i < j < |c| && i % 32 == 0 && j % 32 == 0 && c[i] == 0
      ensures c[j] == 0
    {
      assert c[i] == b[o + i] && c[j] == b[o + j];
    }
  }

  lemma SectorOfRoot(b: seq<byte>, s: nat)
    requires DirBuffer(b) && s * SECTOR + SECTOR <= |b|
    ensures DirBuffer(b[s * SECTOR..s * SECTOR + SECTOR])
  {
    TailOfSlice(b, s * SECTOR, SECTOR);
  }

  /** A sector without the name extends the searched part; one with an end marker finishes the search. */
  lemma RootNoText(b: seq<byte>, s: nat, off: nat, ended: bool, text: seq<byte>)
    requires DirBuffer(b) && s * SECTOR + SECTOR <= |b| && NoText(b, s * SECTOR, text)
    requires NoText(b[s * SECTOR..s * SECTOR + SECTOR], SECTOR, text)
    requires ended ==> SlotAt(b[s * SECTOR..s * SECTOR + SECTOR], off) && b[s * SECTOR..s * SECTOR + SECTOR][off] == 0
    ensures NoText(b, if ended then |b| else (s + 1) * SECTOR, text)
  {
    hide TextOf, DirBuffer, Live;
    var base: nat := s * SECTOR;
    var c := b[base..base + SECTOR];
    if ended {
      SlotOfSector(b, s, off);
      TailDead(b, base + off);
    }
    forall o: nat | SlotAt(b, o) && Live(b[o..o + 32]) && o < if ended then |b| else base + SECTOR
      ensures TextOf(b[o..o + 32]) != text
    {
      if base <= o < base + SECTOR {
        SectorSlot(b, s, o);
      }
    }
  }

  lemma SectorSlot(b: seq<byte>, s: nat, o: nat)
    requires s * SECTOR + SECTOR <= |b| && SlotAt(b, o) && s * SECTOR <= o < s * SECTOR + SECTOR
    ensures SlotAt(b[s * SECTOR..s * SECTOR + SECTOR], o - s * SECTOR)
    ensures b[s * SECTOR..s * SECTOR + SECTOR][o - s * SECTOR..o - s * SECTOR + 32] == b[o..o + 32]
  {
    SectorMul(s);
    SlotWithin(o, s * SECTOR);
    PartOfPart(b, s * SECTOR, s * SECTOR + SECTOR, o - s * SECTOR, 32);
  }

  lemma SlotWithin(o: nat, base: nat)
    requires o % 32 == 0 && base % 32 == 0 && base <= o < base + SECTOR
    ensures (o - base) % 32 == 0 && o - base + 32 <= SECTOR
  {
    var i, j := o / 32, base / 32;
    assert o == 32 * i && base == 32 * j && o - base == 32 * (i - j);
  }

  lemma RootHit(b: seq<byte>, s: nat, off: nat, text: seq<byte>)
    requires s * SECTOR + SECTOR <= |b| && HitText(b[s * SECTOR..s * SECTOR + SECTOR], off, text)
    ensures HitText(b, s * SECTOR + off, text) && off + 32 <= SECTOR
    ensures b[s * SECTOR..s * SECTOR + SECTOR][off..off + 32] == b[s * SECTOR + off..s * SECTOR + off + 32]
  {
    SlotOfSector(b, s, off);
  }

  /** One sector of the text search, in terms of the whole root. */
  lemma RootText(b: seq<byte>, s: nat, sec: seq<byte>, text: seq<byte>, hit: bool, o: nat, ended: bool)
    requires DirBuffer(b) && NoText(b, s * SECTOR, text)
    requires s * SECTOR + SECTOR <= |b| && sec == b[s * SECTOR..s * SECTOR + SECTOR]
    requires hit ==> HitText(sec, o, text)
    requires !hit ==> NoText(sec, SECTOR, text)
    requires ended ==> !hit && SlotAt(sec, o) && sec[o] == 0
    ensures hit ==> HitText(b, s * SECTOR + o, text) && o + 32 <= SECTOR && s * SECTOR + o + 32 <= |b|
    ensures hit ==> sec[o..o + 32] == b[s * SECTOR + o..s * SECTOR + o + 32]
    ensures !hit ==> NoText(b, if ended then |b| else (s + 1) * SECTOR, text)
  {
    hide DirBuffer, NoText;
    if hit {
      RootHit(b, s, o, text);
    } else {
      RootNoText(b, s, o, ended, text);
    }
  }

  /** One sector of the packed-name search, in terms of the whole root and of texts. */
  lemma RootShort(b: seq<byte>, s: nat, sec: seq<byte>, short11: seq<byte>, hit: bool, o: nat, ended: bool)
    requires DirBuffer(b) && CleanSlots(b) && Regular(short11) && NoText(b, s * SECTOR, Dotted(short11))
    requires s * SECTOR + SECTOR <= |b| && sec == b[s * SECTOR..s * SECTOR + SECTOR]
    requires hit ==> HitShort(sec, o, short11)
    requires !hit ==> NoShort(sec, SECTOR, short11)
    requires ended ==> !hit && SlotAt(sec, o) && sec[o] == 0
    ensures hit ==> HitText(b, s * SECTOR + o, Dotted(short11)) && o + 32 <= SECTOR && s * SECTOR + o + 32 <= |b|
    ensures hit ==> sec[o..o + 32] == b[s * SECTOR + o..s * SECTOR + o + 32]
    ensures !hit ==> NoText(b, if ended then |b| else (s + 1) * SECTOR, Dotted(short11))
  {
    RegularIsClean(short11);
    CleanSector(b, s);
    ShortIsText(sec, short11, o, SECTOR);
    hide DirBuffer, CleanSlots, NoText, NoShort, Regular, Clean, Dotted, HitText, HitShort;
    RootText(b, s, sec, Dotted(short11), hit, o, ended);
  }

  /** A root sector without a free slot extends the taken part. */
  lemma RootTaken(b: seq<byte>, s: nat, o: nat)
    requires s * SECTOR + SECTOR <= |b| && Taken(b, s * SECTOR)
    requires o <= SECTOR && Taken(b[s * SECTOR..s * SECTOR + SECTOR], o)
    ensures Taken(b, s * SECTOR + o)
  {
    SectorMul(s);
    TakenJoin(b, s * SECTOR, SECTOR, o);
  }

  lemma TakenJoin(b: seq<byte>, base: nat, len: nat, o: nat)
    requires base + len <= |b| && base % 32 == 0 && o <= len && Taken(b, base) && Taken(b[base..base + len], o)
    ensures Taken(b, base + o)
  {
    var c := b[base..base + len];
    forall x: nat | x < base + o && x % 32 == 0 && x < |b|
      ensures b[x] != 0 && b[x] != 0xE5
    {
      if x >= base {
        var e: nat := x - base;
        assert e % 32 == 0 && c[e] == b[x];
      }
    }
  }

  lemma RootSplice(b: seq<byte>, s: nat, o: nat, x: seq<byte>)
    requires s * SECTOR + SECTOR <= |b| && o + |x| <= SECTOR
    ensures Splice(b, s * SECTOR, Splice(b[s * SECTOR..s * SECTOR + SECTOR], o, x)) == Splice(b, s * SECTOR + o, x)
  {
    SectorSplice(b, s * SECTOR, o, x);
  }

  lemma U16Slice(t: seq<byte>, o: nat, n: nat, e: nat)
    requires o + n <= |t| && e + 2 <= n
    ensures U16(t[o..o + n], e) == U16(t, o + e)
  {
  }

  lemma U32Slice(t: seq<byte>, o: nat, n: nat, e: nat)
    requires o + n <= |t| && e + 4 <= n
    ensures U32(t[o..o + n], e) == U32(t, o + e)
  {
  }

  /** The byte offset of entry `c` in a table copy. */
  function EntryPos(wide: bool, c: nat): nat {
    if wide then 4 * c else 2 * c
  }

  /** The sector of a table offset, and the offset in it. */
  function SectorOf(o: nat): nat {
    o / SECTOR
  }

  function RestOf(o: nat): nat {
    o % SECTOR
  }

  /** The table entry stored at offset `o` of a sector; FAT32 masks it to 28 bits. */
  function EntryIn(wide: bool, sec: seq<byte>, o: nat): nat
    requires o + (if wide then 4 else 2) <= |sec|
  {
    if wide then U32(sec, o) % MASK28 else U16(sec, o)
  }

  /** An entry lies within one sector of the table. */
  lemma EntryPlace(wide: bool, len: nat, c: nat)
    requires len % SECTOR == 0 && c < len / (if wide then 4 else 2)
    ensures var o := EntryPos(wide, c);
            && o / SECTOR * SECTOR + SECTOR <= len && o / SECTOR * SECTOR + o % SECTOR == o
            && o % SECTOR + (if wide then 4 else 2) <= SECTOR
  {
    if wide {
      Within512(c / 128, 4 * (c % 128), len / 512);
    } else {
      Within512(c / 256, 2 * (c % 256), len / 512);
    }
  }

  lemma Within512(k: nat, r: nat, m: nat)
    requires r < 512 && k < m
    ensures (512 * k + r) / 512 == k && (512 * k + r) % 512 == r && 512 * k + 512 <= 512 * m
  {
  }

  lemma TableRead(wide: bool, t: seq<byte>, c: nat)
    requires |t| % SECTOR == 0 && c < |Table(wide, t)|
    ensures var o := EntryPos(wide, c);
            && o / SECTOR * SECTOR + SECTOR <= |t| && o / SECTOR * SECTOR + o % SECTOR == o
            && o % SECTOR + (if wide then 4 else 2) <= SECTOR
            && Table(wide, t)[c] == EntryIn(wide, t[o / SECTOR * SECTOR..o / SECTOR * SECTOR + SECTOR], o % SECTOR)
  {
    hide U16, U32;
    EntryPlace(wide, |t|, c);
    var o := EntryPos(wide, c);
    if wide {
      U32Slice(t, o / SECTOR * SECTOR, SECTOR, o % SECTOR);
    } else {
      U16Slice(t, o / SECTOR * SECTOR, SECTOR, o % SECTOR);
    }
  }
}

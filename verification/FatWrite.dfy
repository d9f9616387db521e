/** Filling new chains, appending to old ones and starting directories, as steps on values. */
module FatWrite {
  import opened Bytes
  import opened ShortName
  import opened FatVolume
  import opened FatSteps
  import opened FatLink
  import opened FatFile
  import opened FatTree
  import opened FatImage
  import opened FatScan
  import opened FatInsert

  lemma CutNone(n: nat)
    ensures Cut([], n) == []
  {
  }

  lemma ChainWithin(v: Vol, lay: Layout, h: nat)
    requires Wf(v, lay) && h in lay.chains && h >= 2
    ensures |lay.chains[h]| > 0 && lay.chains[h][0] == h
    ensures forall i | 0 <= i < |lay.chains[h]| :: lay.chains[h][i] < |v.data|
    ensures ChainBytes(v, lay, h) == Concat(v.data, lay.chains[h])
  {
    assert ChainAt(v, h, lay.chains[h]);
  }

  lemma FillingStart(cb: seq<byte>, data: seq<byte>, n: nat)
    requires |data| > 0 && |cb| == n
    ensures Filling(cb, data, 0, n)
  {
  }

  lemma FillingEnd(cb: seq<byte>, data: seq<byte>, n: nat)
    requires Filling(cb, data, |data|, n)
    ensures Holds(cb, data, n)
  {
  }

  lemma HiddenWf(v: Vol, lay: Layout, h: nat)
    requires Hidden(v, lay, h)
    ensures Wf(v, lay)
  {
    hide Wf;
  }

  lemma HiddenLast(v: Vol, lay: Layout, h: nat)
    requires Hidden(v, lay, h)
    ensures 2 <= Last(lay, h) < |v.fat| == |v.data|
  {
    hide Wf, Unreferenced;
    LastOwned(v, lay, h);
  }

  lemma HiddenLink(v: Vol, lay: Layout, h: nat, c: nat, mark: nat)
    requires Hidden(v, lay, h) && 2 <= c < |v.fat| && v.fat[c] == 0 && mark >= v.eoc
    ensures CanLink(v, lay, h, c, mark)
  {
    hide Wf, Unreferenced;
    LastOwned(v, lay, h);
  }

  lemma HiddenRewritten(v: Vol, lay: Layout, h: nat, buf: seq<byte>, data: seq<byte>, done: nat, n: nat)
    requires Hidden(v, lay, h) && Last(lay, h) < |v.data| && |v.data[Last(lay, h)]| == n
    requires Filling(ChainBytes(v, lay, h), data, done, n) && done < |data|
    ensures done <= |ChainBytes(v, lay, h)|
    ensures ChainBytes(v.(data := v.data[Last(lay, h) := buf]), lay, h) == ChainBytes(v, lay, h)[..done] + buf
  {
    hide Wf, Unreferenced, ChainBytes;
    LastBytes(v, lay, h, buf);
  }

  /** 32-bit addition drops the carry. */
  function Wrapped(a: nat): (r: nat)
    ensures r < U32_LIMIT
  {
    a % U32_LIMIT
  }

  lemma WrapAdd(a: nat, b: nat)
    ensures Wrapped(Wrapped(a) + b) == Wrapped(a + b)
  {
  }

  lemma WrapSmall(a: nat)
    requires a < U32_LIMIT
    ensures Wrapped(a) == a
  {
  }

  lemma PlaceNone(store: seq<byte>, off: nat, n: nat, data: seq<byte>)
    requires off < n <= |store|
    ensures Placed(store, off, n, false, data, 0) == store
  {
  }

  lemma GrowingFacts(v: Vol, lay: Layout, v0: Vol, lay0: Layout, h: nat)
    requires Growing(v, lay, v0, lay0, h)
    ensures Wf(v, lay) && h >= 2 && h in lay.chains && h !in lay.names && |lay.chains[h]| > 0
    ensures 2 <= Last(lay, h) < |v.fat| == |v.data| && v.eoc == v0.eoc
  {
    hide Wf, OthersKept;
    LastOwned(v, lay, h);
  }

  lemma GrowingLink(v: Vol, lay: Layout, v0: Vol, lay0: Layout, h: nat, c: nat, mark: nat)
    requires Growing(v, lay, v0, lay0, h) && 2 <= c < |v.fat| && v.fat[c] == 0 && mark >= v.eoc
    ensures CanLink(v, lay, h, c, mark)
  {
    hide Wf, OthersKept;
    LastOwned(v, lay, h);
  }

  lemma GrowingLast(v: Vol, lay: Layout, v0: Vol, lay0: Layout, h: nat, buf: seq<byte>)
    requires Growing(v, lay, v0, lay0, h)
    ensures Last(lay, h) < |v.data| && |v.data[Last(lay, h)]| <= |ChainBytes(v, lay, h)|
    ensures var n := |ChainBytes(v, lay, h)| - |v.data[Last(lay, h)]|;
            && ChainBytes(v, lay, h)[n..] == v.data[Last(lay, h)]
            && ChainBytes(v.(data := v.data[Last(lay, h) := buf]), lay, h) == ChainBytes(v, lay, h)[..n] + buf
  {
    hide Wf, OthersKept, ChainBytes;
    LastBytes(v, lay, h, buf);
  }

  // ---- Appending to a file without a start cluster ----

  /** A file whose entry records start cluster 0. */
  ghost predicate Startless(t: Namespace, k: Key) {
    k in t && t[k].File? && t[k].store == []
  }

  /** ... reads as empty. */
  lemma NoContents(t: Namespace, k: Key, max: nat)
    ensures Startless(t, k) ==> Contents(t[k]) == []
    ensures Cut([], max) == []
  {
  }

  lemma NotStartless(v: Vol, lay: Layout, k: Key)
    requires !Entry(lay, k)
    ensures !Startless(Tree(v, lay), k)
  {
  }

  // ---- What a successful write does to the tree ----

  /** The head of the FAT16 root area. */
  const ROOT: nat := 0

  /** The file a write of `data` to `k` leaves. FAT16 records size 0 for a new file in the root. */
  ghost function WrittenNode(wide: bool, t0: Namespace, k: Key, data: seq<byte>, n: nat): Node
    requires n > 0 && (k in t0 ==> t0[k].File?)
  {
    if k in t0 then AppendedNode(wide, t0[k], data, n)
    else File(if !wide && k.dir == ROOT then 0 else |data|, InClusters(data, n))
  }

  /** A successful write: one node changes, and this is what it becomes. */
  ghost predicate Stored(wide: bool, t0: Namespace, t: Namespace, k: Key, data: seq<byte>, n: nat) {
    && n > 0 && 0 < |data| < U32_LIMIT && (k in t0 ==> t0[k].File? && |t0[k].store| % n == 0)
    && t == t0[k := WrittenNode(wide, t0, k, data, n)]
  }

  lemma StoredNew(wide: bool, t0: Namespace, t: Namespace, k: Key, cb: seq<byte>, data: seq<byte>, n: nat, m: nat)
    requires k !in t0 && 0 < |data| < U32_LIMIT && Holds(cb, data, n) && |cb| == m * n
    requires t == t0[k := File((if !wide && k.dir == ROOT then 0 else |data|) % U32_LIMIT, cb)]
    ensures Stored(wide, t0, t, k, data, n)
  {
    hide InClusters;
    InClustersIs(cb, data, n, m);
  }

  lemma StoredAppend(wide: bool, t0: Namespace, t: Namespace, k: Key, cb: seq<byte>, data: seq<byte>, n: nat,
                     m0: nat, m: nat)
    requires k in t0 && t0[k].File? && 0 < |data| < U32_LIMIT && n > 0 && |t0[k].store| == m0 * n && |cb| == m * n
    requires Appended(cb, t0[k].store, t0[k].size, n, Rewrites(wide, t0[k].size, n), data, true)
    requires t == t0[k := File((t0[k].size + |data|) % U32_LIMIT % U32_LIMIT, cb)]
    ensures Stored(wide, t0, t, k, data, n)
  {
    hide Appended, Rewrites, AppendedStore;
    ModOf(m0, n, 0);
    AppendedIs(wide, t0[k], data, n, cb, m);
  }

  lemma StoredStartless(wide: bool, t0: Namespace, t: Namespace, k: Key, data: seq<byte>, n: nat)
    requires Startless(t0, k) && 0 < |data| < U32_LIMIT && n > 0
    requires t == t0[k := File((t0[k].size + |data|) % U32_LIMIT % U32_LIMIT, [])]
    ensures Stored(wide, t0, t, k, data, n)
  {
  }

  /** What a reader sees of a successful write. A new file holds exactly `data`, but in the FAT16 root it reads as
      empty. A file that appends exactly holds its old contents and then `data`. */
  lemma StoredMeans(wide: bool, t0: Namespace, t: Namespace, k: Key, data: seq<byte>, n: nat)
    requires Stored(wide, t0, t, k, data, n)
    ensures n > 0 && 0 < |data| < U32_LIMIT && (k in t0 ==> t0[k].File?)
    ensures k in t && t[k].File? && t == t0[k := t[k]] && (Startless(t, k) <==> Startless(t0, k))
    ensures k !in t0 && (wide || k.dir != ROOT) ==> Contents(t[k]) == data && Tight(t[k], n)
    ensures k !in t0 && !wide && k.dir == ROOT ==> Contents(t[k]) == [] && t[k].size == 0
    ensures k in t0 && AppendsExactly(wide, t0[k], n) && t0[k].size + |data| < U32_LIMIT ==>
              Contents(t[k]) == Contents(t0[k]) + data && Tight(t[k], n)
  {
    hide AppendsExactly, AppendedStore, Placed;
    assert t == t0[k := t[k]];
    if k in t0 {
      StoredLength(wide, t0[k], data, n);
      if AppendsExactly(wide, t0[k], n) && t0[k].size + |data| < U32_LIMIT {
        ExactAppend(wide, t0[k], data, n);
      }
    }
  }

  lemma StoredNode(wide: bool, t0: Namespace, t: Namespace, k: Key, data: seq<byte>, n: nat)
    requires Stored(wide, t0, t, k, data, n)
    ensures n > 0 && k in t && (k in t0 ==> t0[k].File?) && t[k] == WrittenNode(wide, t0, k, data, n)
    ensures k in t0 && t0[k].size + |data| < U32_LIMIT ==> t[k].File? && t[k].size == t0[k].size + |data|
  {
    hide AppendedStore, InClusters;
  }

  lemma StoredLength(wide: bool, node: Node, data: seq<byte>, n: nat)
    requires node.File? && n > 0 && |node.store| % n == 0
    ensures AppendedStore(wide, node, data, n) == [] <==> node.store == []
  {
    if node.store != [] { WholeAtLeast(|node.store|, n); }
  }

  lemma WholeAtLeast(x: nat, n: nat)
    requires n > 0 && x % n == 0
    ensures x == x / n * n && (x > 0 ==> x >= n)
  {
  }

  lemma ExactAppend(wide: bool, node: Node, data: seq<byte>, n: nat)
    requires n > 0 && data != [] && AppendsExactly(wide, node, n) && |node.store| % n == 0
    ensures AppendReads(wide, node, data, n) == Contents(node) + data
    ensures node.size + |data| <= |AppendedStore(wide, node, data, n)| < node.size + |data| + n
  {
    hide AppendReads, AppendedStore;
    WholeAtLeast(|node.store|, n);
    PlaceMeans(wide, node, n, |node.store| / n);
    WrittenInPlace(wide, node, n, data);
    StaysTight(wide, node, n, data);
  }

  lemma NarrowExactly(t: Namespace, k: Key, n: nat)
    requires n > 0 && k in t && t[k].File?
    ensures AppendsExactly(false, t[k], n) <==> Tight(t[k], n) && !Startless(t, k)
  {
  }

  /** Whatever is appended to `k`, it then holds its old contents followed by the data. */
  ghost predicate AlwaysAppends(wide: bool, t0: Namespace, k: Key, n: nat)
    requires k in t0 && t0[k].File?
  {
    forall t: Namespace, data: seq<byte> | Stored(wide, t0, t, k, data, n) && t0[k].size + |data| < U32_LIMIT ::
      k in t && t[k].File? && Contents(t[k]) == Contents(t0[k]) + data
  }

  /** This is so exactly when `k` appends exactly: in FAT16, when its end lies in its last cluster and it has a start
      cluster. A size of 2^32 - 1 leaves nothing to append. */
  lemma AppendExact(wide: bool, t0: Namespace, k: Key, n: nat)
    requires n > 1 && k in t0 && t0[k].File? && |t0[k].store| % n == 0 && t0[k].size + 1 < U32_LIMIT
    ensures AlwaysAppends(wide, t0, k, n) <==> AppendsExactly(wide, t0[k], n)
    ensures !wide ==> (AppendsExactly(wide, t0[k], n) <==> Tight(t0[k], n) && !Startless(t0, k))
  {
    hide AppendedStore, AppendsExactly, AppendReads, Stored, AlwaysAppends;
    NarrowExactly(t0, k, n);
    WholeAtLeast(|t0[k].store|, n);
    AppendsAll(wide, t0[k], n, |t0[k].store| / n);
    if AppendsExactly(wide, t0[k], n) {
      AppendsAlways(wide, t0, k, n);
    } else {
      var x: byte :| AppendReads(wide, t0[k], [x], n) != Contents(t0[k]) + [x];
      AppendFails(wide, t0, k, n, x);
    }
  }

  lemma AppendsAlways(wide: bool, t0: Namespace, k: Key, n: nat)
    requires n > 0 && k in t0 && t0[k].File? && AppendsExactly(wide, t0[k], n)
    ensures AlwaysAppends(wide, t0, k, n)
  {
    hide AppendsExactly, Stored;
    forall t: Namespace, data: seq<byte> | Stored(wide, t0, t, k, data, n) && t0[k].size + |data| < U32_LIMIT
      ensures k in t && t[k].File? && Contents(t[k]) == Contents(t0[k]) + data
    {
      StoredMeans(wide, t0, t, k, data, n);
    }
  }

  lemma AppendFails(wide: bool, t0: Namespace, k: Key, n: nat, x: byte)
    requires n > 0 && k in t0 && t0[k].File? && |t0[k].store| % n == 0 && t0[k].size + 1 < U32_LIMIT
    requires AppendReads(wide, t0[k], [x], n) != Contents(t0[k]) + [x]
    ensures !AlwaysAppends(wide, t0, k, n)
  {
    hide AppendedStore;
    var t := t0[k := WrittenNode(wide, t0, k, [x], n)];
    assert Stored(wide, t0, t, k, [x], n);
    assert Contents(t[k]) == AppendReads(wide, t0[k], [x], n);
  }

  // ---- What a failed write does to the tree ----

  /** The write position does not lie before the end of the file. */
  ghost predicate WrittenBehind(wide: bool, node: Node, n: nat)
    requires n > 0
  {
    && node.File? && node.size <= |node.store|
    && (wide && node.size > 0 && node.size % n == 0 ==> node.size + n <= |node.store|)
  }

  /** A failed write: nothing changes, or the target keeps its size and its clusters up to the write position. */
  ghost predicate Unseen(wide: bool, t0: Namespace, t: Namespace, target: Option<Key>, n: nat) {
    t == t0 ||
    (&& n > 0 && target.Some? && target.value in t0 && t0[target.value].File?
     && target.value in t && t[target.value].File?
     && t == t0[target.value := t[target.value]] && t[target.value].size == t0[target.value].size
     && (Startless(t, target.value) <==> Startless(t0, target.value))
     && (WrittenBehind(wide, t0[target.value], n) ==> Contents(t[target.value]) == Contents(t0[target.value])))
  }

  lemma SameUnseen(wide: bool, t: Namespace, target: Option<Key>, n: nat)
    ensures Unseen(wide, t, t, target, n)
  {
  }

  lemma UnseenAppend(wide: bool, t0: Namespace, t: Namespace, k: Key, cb: seq<byte>, data: seq<byte>, n: nat, m: nat)
    requires k in t0 && t0[k].File? && t == t0[k := File(t0[k].size, cb)] && n > 0 && |t0[k].store| == m * n
    requires Appended(cb, t0[k].store, t0[k].size, n, Rewrites(wide, t0[k].size, n), data, false)
    ensures Unseen(wide, t0, t, Some(k), n)
  {
    assert t == t0[k := t[k]];
    if WrittenBehind(wide, t0[k], n) && t0[k].size % n != 0 { OffsetBehind(m, n, t0[k].size); }
  }

  lemma OffsetBehind(m: nat, n: nat, size: nat)
    requires n > 0 && size <= m * n && size % n != 0
    ensures size <= m * n - n + size % n
  {
    var q := size / n;
    assert size == q * n + size % n;
    assert q >= m ==> q * n >= m * n;
    assert q * n <= (m - 1) * n;
  }

  lemma SameTreeTrans(v0: Vol, lay0: Layout, v: Vol, lay: Layout, w: Vol, lay2: Layout)
    requires SameTree(v0, lay0, v, lay) && SameTree(v, lay, w, lay2)
    ensures SameTree(v0, lay0, w, lay2)
  {
    hide Tree;
  }

  /** The entry is where it was and still names a file. */
  lemma StillFile(v0: Vol, lay0: Layout, v: Vol, lay: Layout, k: Key)
    requires Wf(v0, lay0) && Wf(v, lay) && Tree(v, lay) == Tree(v0, lay0) && lay.names == lay0.names
    requires EntryOk(v0, lay0, k) && !DirBit(EntrySlot(v0, lay0, k)[11])
    ensures EntryOk(v, lay, k) && !DirBit(EntrySlot(v, lay, k)[11]) && At(lay, k) == At(lay0, k)
    ensures ChainBytes(v, lay, Head(v, lay, k)) == ChainBytes(v0, lay0, Head(v0, lay0, k))
  {
    hide WfChains, WfDirs, Unique, RefOk, ChainBytes, StartOf, SizeOf, DirBit;
    assert Tree(v0, lay0)[k] == NodeAt(v0, lay0, k);
    assert Tree(v, lay)[k] == NodeAt(v, lay, k);
  }

  /** Entry 0 of the table reads as the end of a chain until data is lost, and as a cluster from then on. */
  lemma MediaReads(v: Vol, lay: Layout)
    requires Wf(v, lay)
    ensures 2 <= v.fat[0] < v.eoc <==> lay.lost != NOBODY
  {
    hide WfDirs, WfRefs, Unique;
    if lay.lost != NOBODY { assert ChainAt(v, lay.lost, lay.chains[lay.lost]); }
  }

  /** Linking a hidden chain to entry 0 of the table makes it the lost chain. */
  lemma MediaSet(v: Vol, w: Vol, lay: Layout, c: nat)
    requires Hidden(v, lay, c) && lay.lost == NOBODY && |v.fat| > 0 && w == v.(fat := v.fat[0 := c])
    ensures Hidden(w, lay.(lost := c), c) && SameTree(v, lay, w, lay.(lost := c))
    ensures ChainBytes(w, lay.(lost := c), c) == ChainBytes(v, lay, c)
  {
    hide StartOf, SizeOf, TextOf, Clean, Concat;
    var lay2 := lay.(lost := c);
    MediaChains(v, w, lay, c);
    MediaDirs(v, w, lay, lay2);
    forall k: Key | Entry(lay2, k)
      ensures EntryOk(w, lay2, k) && RefOk(w, lay2, EntrySlot(w, lay2, k))
    {
      MediaRef(v, w, lay, lay2, c, k);
    }
    MediaUnique(v, w, lay, lay2, c);
    MediaTree(v, w, lay, lay2);
  }

  lemma MediaChains(v: Vol, w: Vol, lay: Layout, c: nat)
    requires WfChains(v, lay) && c >= 2 && c in lay.chains && w == v.(fat := v.fat[0 := c])
    ensures WfChains(w, lay.(lost := c))
  {
    forall h | h in lay.chains
      ensures ChainAt(w, h, lay.chains[h])
    {
      assert ChainAt(v, h, lay.chains[h]);
    }
  }

  lemma MediaDirs(v: Vol, w: Vol, lay: Layout, lay2: Layout)
    requires WfDirs(v, lay) && lay2.lost !in lay.names && lay2 == lay.(lost := lay2.lost) && w == v.(fat := w.fat)
    ensures WfDirs(w, lay2)
  {
    hide TextOf, Clean, Live, ZeroTail;
    forall d | d in lay2.names
      ensures d in lay2.chains && d != lay2.lost && WfDir(w, lay2.chains[d], lay2.names[d])
    {
      assert WfDir(v, lay.chains[d], lay.names[d]);
      forall n | n in lay.names[d]
        ensures NamedAt(w, lay.chains[d], n, lay.names[d][n])
      {
        assert NamedAt(v, lay.chains[d], n, lay.names[d][n]);
      }
      forall p: Pos | p.cl in lay.chains[d] && SlotOk(w, p) && Live(Slot(w, p))
        ensures Clean(NameOf(Slot(w, p))) && TextOf(Slot(w, p)) in lay.names[d] && lay.names[d][TextOf(Slot(w, p))] == p
      {
        assert SlotOk(v, p) && Slot(v, p) == Slot(w, p);
      }
    }
  }

  lemma MediaRef(v: Vol, w: Vol, lay: Layout, lay2: Layout, c: nat, k: Key)
    requires WfRefs(v, lay) && Entry(lay, k) && Unreferenced(v, lay, c) && c >= 2
    requires lay2 == lay.(lost := c) && w == v.(fat := w.fat)
    ensures EntryOk(w, lay2, k) && RefOk(w, lay2, EntrySlot(w, lay2, k))
  {
    hide StartOf, SizeOf;
    assert RefOk(v, lay, EntrySlot(v, lay, k));
    assert Head(v, lay, k) != c;
  }

  lemma MediaUnique(v: Vol, w: Vol, lay: Layout, lay2: Layout, c: nat)
    requires Unique(v, lay) && Unreferenced(v, lay, c) && lay2 == lay.(lost := c) && w == v.(fat := w.fat)
    ensures Unique(w, lay2) && Unreferenced(w, lay2, c)
  {
    hide StartOf;
    forall k: Key | EntryOk(w, lay2, k)
      ensures EntryOk(v, lay, k) && Head(w, lay2, k) == Head(v, lay, k)
    {
    }
  }

  lemma MediaTree(v: Vol, w: Vol, lay: Layout, lay2: Layout)
    requires lay2 == lay.(lost := lay2.lost) && w == v.(fat := w.fat)
    ensures Tree(w, lay2) == Tree(v, lay)
  {
    hide StartOf, SizeOf, Concat;
    forall k: Key
      ensures EntryOk(w, lay2, k) == EntryOk(v, lay, k)
      ensures EntryOk(v, lay, k) ==> NodeAt(w, lay2, k) == NodeAt(v, lay, k)
    {
      if EntryOk(v, lay, k) {
        assert ChainBytes(w, lay2, Head(v, lay, k)) == ChainBytes(v, lay, Head(v, lay, k));
      }
    }
    assert Tree(w, lay2) == Tree(v, lay);
  }

  /** The first cluster an append hangs on entry 0. */
  lemma LoseStart(v: Vol, w: Vol, lay: Layout, c: nat, mark: nat, buf: seq<byte>)
    requires Wf(v, lay) && lay.lost == NOBODY && 2 <= c < |v.fat| == |v.data| && v.fat[c] == 0 && mark >= v.eoc
    requires w == Link(v, 0, c, mark, buf)
    ensures var lay2 := WithHead(lay, c).(lost := c);
            && Hidden(w, lay2, c) && SameTree(v, lay, w, lay2) && lay2.chains[c] == [c]
            && ChainBytes(w, lay2, c) == buf
  {
    hide Wf, Tree, ChainBytes, Unreferenced;
    var u := v.(fat := v.fat[c := mark], data := v.data[c := buf]);
    StartHidden(v, u, lay, c, mark, buf);
    assert w.fat == u.fat[0 := c];
    MediaSet(u, w, WithHead(lay, c), c);
    SameTreeTrans(v, lay, u, WithHead(lay, c), w, WithHead(lay, c).(lost := c));
  }

  /** `done` bytes of `data` lie in whole clusters so far; at the end less than a cluster of slack follows. */
  ghost predicate Laid(cb: seq<byte>, data: seq<byte>, done: nat, n: nat) {
    done <= |data| && if done < |data| then cb == data[..done] else Holds(cb, data, n)
  }

  /** An append to a file without a start is under way: the tree is as it was, and the lost chain grows. */
  ghost predicate Losing(v: Vol, lay: Layout, v0: Vol, lay0: Layout, last: nat, data: seq<byte>, done: nat, n: nat) {
    && SameTree(v0, lay0, v, lay) && Wf(v, lay)
    && (lay.lost == NOBODY ==> last == 0 && done == 0)
    && (lay.lost != NOBODY ==> lay.lost in lay.chains && |lay.chains[lay.lost]| > 0)
    && (lay.lost != NOBODY ==> Hidden(v, lay, lay.lost) && last == Last(lay, lay.lost))
    && (lay0.lost != NOBODY ==> lay.lost == lay0.lost)
    && (lay0.lost == NOBODY && lay.lost != NOBODY ==> Laid(ChainBytes(v, lay, lay.lost), data, done, n))
  }

  /** What a file without a start says about entry 0 of the table. */
  lemma LostFacts(v: Vol, lay: Layout, k: Key)
    requires Wf(v, lay) && EntryOk(v, lay, k) && !DirBit(EntrySlot(v, lay, k)[11]) && Head(v, lay, k) == 0
    ensures |v.fat| > 0 && (v.fat[0] == 0 || v.fat[0] >= v.eoc <==> lay.lost == NOBODY)
    ensures lay.lost == NOBODY ==> SizeOf(EntrySlot(v, lay, k)) == 0
    ensures lay.lost != NOBODY ==> v.fat[0] == lay.lost && lay.lost >= 2 && lay.lost in lay.chains
  {
    hide StartOf, SizeOf, WfDirs, Unique;
    assert RefOk(v, lay, EntrySlot(v, lay, k));
    if lay.lost != NOBODY { assert ChainAt(v, lay.lost, lay.chains[lay.lost]); }
  }

  lemma LostHidden(v: Vol, lay: Layout)
    requires Wf(v, lay) && lay.lost != NOBODY
    ensures Hidden(v, lay, lay.lost)
  {
    hide StartOf, SizeOf, WfDir;
    assert ChainAt(v, lay.lost, lay.chains[lay.lost]);
    forall k: Key | EntryOk(v, lay, k)
      ensures Head(v, lay, k) != lay.lost
    {
      assert RefOk(v, lay, EntrySlot(v, lay, k));
    }
  }

  lemma LosingStart(v: Vol, lay: Layout, last: nat, data: seq<byte>, n: nat)
    requires Wf(v, lay) && lay.lost == NOBODY ==> last == 0
    requires Wf(v, lay)
    requires lay.lost != NOBODY ==> lay.lost in lay.chains && |lay.chains[lay.lost]| > 0 && last == Last(lay, lay.lost)
    ensures Losing(v, lay, v, lay, last, data, 0, n)
    ensures lay.lost != NOBODY ==> Hidden(v, lay, lay.lost)
  {
    hide Wf, Tree, ChainBytes;
    if lay.lost != NOBODY { LostHidden(v, lay); }
  }

  lemma LosingFill(v: Vol, w: Vol, lay: Layout, buf: seq<byte>, data: seq<byte>, chunk: nat, n: nat)
    requires lay.lost != NOBODY && Hidden(v, lay, lay.lost) && chunk <= |data|
    requires Last(lay, lay.lost) < |v.data| && w == v.(data := v.data[Last(lay, lay.lost) := buf])
    ensures Losing(w, lay, v, lay, Last(lay, lay.lost), data, chunk, n)
  {
    hide Wf, Tree, ChainBytes, Unreferenced;
    FillHidden(v, w, lay, lay.lost, buf);
  }

  lemma LosingLast(v: Vol, lay: Layout, v0: Vol, lay0: Layout, last: nat, data: seq<byte>, done: nat, n: nat)
    requires Losing(v, lay, v0, lay0, last, data, done, n)
    ensures last < |v.fat| == |v.data|
  {
    hide Tree, ChainBytes, WfDirs, WfRefs, Unique;
    if lay.lost != NOBODY { HiddenLast(v, lay, lay.lost); }
  }

  lemma LosingTree(v: Vol, lay: Layout, v0: Vol, lay0: Layout, last: nat, data: seq<byte>, done: nat, n: nat)
    requires Losing(v, lay, v0, lay0, last, data, done, n)
    ensures Wf(v, lay) && Tree(v, lay) == Tree(v0, lay0) && lay.names == lay0.names
    ensures lay0.lost != NOBODY ==> lay.lost == lay0.lost
    ensures lay0.lost == NOBODY && lay.lost != NOBODY && done == |data| ==> Holds(ChainBytes(v, lay, lay.lost), data, n)
  {
    hide Wf, Tree, ChainBytes, Hidden;
  }

  lemma LaidNext(cb: seq<byte>, data: seq<byte>, done: nat, n: nat)
    requires done < |data| && n > 0 && cb == data[..done]
    ensures Laid(cb + Chunk(data, done, n), data, Min(|data|, done + n), n)
  {
    var m := Min(|data| - done, n);
    assert cb + Chunk(data, done, n) == data[..done + m] + Zeros(n - m);
  }

  lemma LosingStep(v: Vol, w: Vol, lay: Layout, v0: Vol, lay0: Layout, last: nat, c: nat, mark: nat,
                   data: seq<byte>, done: nat, n: nat) returns (lay2: Layout)
    requires Losing(v, lay, v0, lay0, last, data, done, n) && done < |data| && n > 0 && mark >= v.eoc
    requires last < |v.fat| == |v.data| && 2 <= c < |v.fat| && v.fat[c] == 0
    requires w == Link(v, last, c, mark, Chunk(data, done, n))
    ensures Losing(w, lay2, v0, lay0, c, data, Min(|data|, done + n), n) && lay2.lost != NOBODY
  {
    hide Wf, Tree, ChainBytes, Hidden, Chunk, Link, SameTree, Holds;
    var buf := Chunk(data, done, n);
    if lay.lost == NOBODY {
      lay2 := WithHead(lay, c).(lost := c);
      LoseStart(v, w, lay, c, mark, buf);
      LaidNext([], data, done, n);
      assert [] + buf == buf;
      HiddenWf(w, lay2, c);
      SameTreeTrans(v0, lay0, v, lay, w, lay2);
    } else {
      lay2 := Extended(lay, lay.lost, c);
      HiddenLink(v, lay, lay.lost, c, mark);
      GrowHidden(v, w, lay, lay.lost, c, mark, buf);
      if lay0.lost == NOBODY { LaidNext(ChainBytes(v, lay, lay.lost), data, done, n); }
      HiddenWf(w, lay2, lay.lost);
      SameTreeTrans(v0, lay0, v, lay, w, lay2);
    }
  }

  lemma EntryIsDir(v: Vol, lay: Layout, k: Key, start: nat, size: nat, attr: byte)
    requires IsSlot(v, lay, k, start, size, attr) && DirBit(attr)
    ensures k in Tree(v, lay) && Tree(v, lay)[k].Dir?
  {
  }

  lemma NameLength(n: seq<byte>)
    requires Regular(n)
    ensures |n| == 11
  {
  }

  lemma NotYetInTree(v: Vol, lay: Layout, k: Key)
    requires !Entry(lay, k)
    ensures k !in Tree(v, lay)
  {
  }

  lemma HiddenNaming(v: Vol, lay: Layout, h: nat, d: nat, name: seq<byte>)
    requires Hidden(v, lay, h) && h != lay.lost && h < Span(v.wide) && d in lay.names
    requires Regular(name) && name[0] != 0xE5 && !Entry(lay, Key(d, Dotted(name)))
    ensures forall size: nat :: Naming(v, lay, d, name, 0x20, h, size) && h != d
    ensures forall size: nat :: HeadNode(v, lay, 0x20, h, size) == File(size % U32_LIMIT, ChainBytes(v, lay, h))
  {
    hide Wf, Unreferenced, ChainBytes, Dotted;
  }

  /** A file entry leads to a chain exactly when it records a start cluster. */
  lemma FileHeads(v: Vol, lay: Layout, k: Key, n: nat)
    requires Wf(v, lay) && EntryOk(v, lay, k) && !DirBit(EntrySlot(v, lay, k)[11]) && n > 0
    requires forall c | 2 <= c < |v.data| :: |v.data[c]| == n
    ensures k in Tree(v, lay)
    ensures Tree(v, lay)[k] == File(SizeOf(EntrySlot(v, lay, k)), ChainBytes(v, lay, Head(v, lay, k)))
    ensures Startless(Tree(v, lay), k) <==> Head(v, lay, k) == 0
    ensures Head(v, lay, k) != 0 ==> Head(v, lay, k) >= 2 && Head(v, lay, k) in lay.chains
  {
    hide WfChains, WfDirs, Unique, StartOf, SizeOf, ChainBytes;
    assert RefOk(v, lay, EntrySlot(v, lay, k));
    if Head(v, lay, k) == 0 {
      NoChain(v, lay);
    } else {
      WholeClusters(v, lay, Head(v, lay, k), n);
      NonemptyChain(|lay.chains[Head(v, lay, k)]|, n);
    }
  }

  lemma NonemptyChain(m: nat, n: nat)
    requires m > 0 && n > 0
    ensures m * n > 0
  {
  }

  lemma WholeClusters(v: Vol, lay: Layout, h: nat, n: nat)
    requires Wf(v, lay) && h >= 2 && h in lay.chains
    requires forall c | 2 <= c < |v.data| :: |v.data[c]| == n
    ensures |ChainBytes(v, lay, h)| == |lay.chains[h]| * n && |lay.chains[h]| > 0
  {
    var s: seq<nat> := lay.chains[h];
    assert ChainAt(v, h, s);
    ConcatLength(v.data, s, n);
  }

  lemma HiddenWhole(v: Vol, lay: Layout, h: nat, n: nat)
    requires Hidden(v, lay, h) && h >= 2 && (forall c | 2 <= c < |v.data| :: |v.data[c]| == n)
    ensures h in lay.chains && |ChainBytes(v, lay, h)| == |lay.chains[h]| * n
  {
    hide Wf, ChainBytes;
    WholeClusters(v, lay, h, n);
  }

  /** A fresh cluster initialised as a directory becomes one that no entry leads to. */
  lemma StartDir(v: Vol, w: Vol, lay: Layout, c: nat, parent: nat, n: nat, mark: nat) returns (lay2: Layout)
    requires Wf(v, lay) && 2 <= c < |v.fat| == |v.data| && v.fat[c] == 0 && mark >= v.eoc && c < Span(v.wide)
    requires n >= 64 && n % 32 == 0 && parent < Span(v.wide)
    requires w == v.(fat := v.fat[c := mark], data := v.data[c := DirImage(v.wide, c, parent, n)])
    ensures Wf(w, lay2) && Tree(w, lay2) == Tree(v, lay) && Unreferenced(w, lay2, c)
    ensures lay2 == WithDir(WithHead(lay, c), c) && c !in lay.names
  {
    hide Wf, Tree, Unreferenced, ChainBytes, DirImage, WithDir, WithHead;
    StartHidden(v, w, lay, c, mark, DirImage(v.wide, c, parent, n));
    BecomeDir(w, WithHead(lay, c), c, parent);
    lay2 := WithDir(WithHead(lay, c), c);
    HeadNames(lay, c);
  }

  lemma HeadNames(lay: Layout, c: nat)
    ensures WithHead(lay, c).names == lay.names
  {
  }

  lemma DirNaming(v: Vol, lay: Layout, lay0: Layout, c: nat, d: nat, name: seq<byte>)
    requires lay == WithDir(WithHead(lay0, c), c) && c !in lay0.names && d in lay0.names && 2 <= c < Span(v.wide)
    requires Unreferenced(v, lay, c) && Regular(name) && name[0] != 0xE5 && !Entry(lay0, Key(d, Dotted(name)))
    ensures Naming(v, lay, d, name, 0x10, c, 0) && c != d && d in lay.names && c in lay.names
            && lay0.names.Keys <= lay.names.Keys
    ensures HeadNode(v, lay, 0x10, c, 0) == Dir(c)
  {
    hide Dotted, Unreferenced;
  }

  /** Zeroes the cluster buffer and copies the next chunk of the caller's data into it. */
  method FillBuffer(data: seq<byte>, at: nat, n: nat) returns (buf: seq<byte>, chunk: nat)
    requires at <= |data|
    ensures buf == Chunk(data, at, n) && chunk == Min(|data| - at, n)
  {
    var a := new byte[n](_ => 0);
    chunk := if |data| - at > n then n else |data| - at;
    var i := 0;
    while i < chunk
      invariant 0 <= i <= chunk
      invariant forall j | 0 <= j < n :: a[j] == if j < i then data[at + j] else 0
    {
      a[i] := data[at + i];
      i := i + 1;
    }
    buf := a[..];
  }
}

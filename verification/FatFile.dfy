/** Writing file data: what a new chain holds, and what an append makes of an existing one. */
module FatFile {
  import opened Bytes
  import opened ShortName
  import opened FatVolume
  import opened FatSteps
  import opened FatLink

  // ---- Reading a chain ----

  lemma {:induction false} ConcatPrefix(data: seq<seq<byte>>, s: seq<nat>, i: nat)
    requires (forall j | 0 <= j < |s| :: s[j] < |data|) && i <= |s|
    ensures Concat(data, s[..i]) <= Concat(data, s)
    decreases |s|
  {
    if i < |s| {
      var t := s[..|s| - 1];
      ConcatPrefix(data, t, i);
      assert t[..i] == s[..i];
    } else {
      assert s[..i] == s;
    }
  }

  lemma ConcatNext(data: seq<seq<byte>>, s: seq<nat>, i: nat)
    requires (forall j | 0 <= j < |s| :: s[j] < |data|) && i < |s|
    ensures Concat(data, s[..i + 1]) == Concat(data, s[..i]) + data[s[i]]
  {
    ConcatSnoc(data, s[..i], s[i]);
    assert s[..i + 1] == s[..i] + [s[i]];
  }

  /** `out` holds the first `i` clusters of the chain, cut at `toRead` bytes. */
  ghost predicate ReadSoFar(out: seq<byte>, data: seq<seq<byte>>, s: seq<nat>, i: nat, toRead: nat) {
    && (forall j | 0 <= j < |s| :: s[j] < |data|) && i <= |s| && |out| <= toRead
    && (|out| < toRead ==> out == Concat(data, s[..i]))
    && (|out| == toRead ==> out <= Concat(data, s))
  }

  lemma ReadStart(data: seq<seq<byte>>, s: seq<nat>, toRead: nat)
    requires forall j | 0 <= j < |s| :: s[j] < |data|
    ensures ReadSoFar([], data, s, 0, toRead)
  {
    assert s[..0] == [];
  }

  lemma ReadStep(out: seq<byte>, data: seq<seq<byte>>, s: seq<nat>, i: nat, toRead: nat, chunk: nat)
    requires ReadSoFar(out, data, s, i, toRead) && |out| < toRead && i < |s|
    requires chunk == Min(|data[s[i]]|, toRead - |out|)
    ensures ReadSoFar(out + data[s[i]][..chunk], data, s, i + 1, toRead)
  {
    ConcatNext(data, s, i);
    ConcatPrefix(data, s, i + 1);
    hide Concat;
    assert out + data[s[i]][..chunk] <= Concat(data, s[..i + 1]);
  }

  lemma ReadEnd(out: seq<byte>, data: seq<seq<byte>>, s: seq<nat>, i: nat, toRead: nat)
    requires ReadSoFar(out, data, s, i, toRead) && (i == |s| || |out| == toRead)
    ensures out == Cut(Concat(data, s), toRead)
  {
    assert s[..|s|] == s;
  }

  lemma CutCut(b: seq<byte>, m: nat, n: nat)
    ensures Cut(Cut(b, m), n) == Cut(b, if m < n then m else n)
  {
  }

  // ---- A chain no entry leads to yet ----

  /** `h` heads a file chain that the tree does not show. */
  ghost predicate Hidden(v: Vol, lay: Layout, h: nat) {
    Wf(v, lay) && h >= 2 && h in lay.chains && h !in lay.names && |lay.chains[h]| > 0 && Unreferenced(v, lay, h)
  }

  /** Same tree, same directories. */
  ghost predicate SameTree(v0: Vol, lay0: Layout, v: Vol, lay: Layout) {
    Tree(v, lay) == Tree(v0, lay0) && lay.names == lay0.names && v.wide == v0.wide && v.eoc == v0.eoc
  }

  lemma StartHidden(v: Vol, w: Vol, lay: Layout, c: nat, mark: nat, buf: seq<byte>)
    requires Wf(v, lay) && 2 <= c < |v.fat| == |v.data| && v.fat[c] == 0 && mark >= v.eoc
    requires w == v.(fat := v.fat[c := mark], data := v.data[c := buf])
    ensures Hidden(w, WithHead(lay, c), c) && SameTree(v, lay, w, WithHead(lay, c))
    ensures ChainBytes(w, WithHead(lay, c), c) == buf && WithHead(lay, c).chains[c] == [c] && c != WithHead(lay, c).lost
  {
    var lay2 := WithHead(lay, c);
    StartHead(v, w, lay, c);
    assert c !in lay.names && c != lay.lost by { NamesHaveChains(v, lay); }
    OneCluster(w, lay2, c);
    hide Wf, Tree, Unreferenced, ChainBytes;
  }

  lemma NamesHaveChains(v: Vol, lay: Layout)
    requires Wf(v, lay)
    ensures (forall d | d in lay.names :: d in lay.chains) && (lay.lost == NOBODY || lay.lost in lay.chains)
  {
  }

  lemma OneCluster(v: Vol, lay: Layout, c: nat)
    requires c >= 2 && c in lay.chains && lay.chains[c] == [c] && c < |v.data|
    ensures ChainBytes(v, lay, c) == v.data[c]
  {
    assert [c][..0] == [];
    assert Concat(v.data, [c]) == Concat(v.data, [c][..0]) + v.data[c];
  }

  lemma StartHead(v: Vol, w: Vol, lay: Layout, c: nat)
    requires Wf(v, lay) && 2 <= c < |v.fat| == |v.data| && v.fat[c] == 0 && SameShape(v, w) && w.fat[c] >= w.eoc
    requires forall x | 0 <= x < |v.fat| && x != c :: w.fat[x] == v.fat[x] && w.data[x] == v.data[x]
    ensures Wf(w, WithHead(lay, c)) && Tree(w, WithHead(lay, c)) == Tree(v, lay) && c !in lay.chains
    ensures Unreferenced(w, WithHead(lay, c), c)
  {
    hide WfChains, WfDirs, WfRefs, Unique, OthersKept, Unreferenced, Tree;
    FreeIsUnowned(v, lay, c);
    NewHead(v, w, lay, c);
    UnreferencedNobody(v, lay);
    TreeKept(v, lay, w, WithHead(lay, c), NOBODY);
    FreshUnreferenced(v, lay, c);
    StaysUnreferenced(v, lay, w, WithHead(lay, c), NOBODY, c);
  }

  /** Rewriting the last cluster of a hidden chain. */
  lemma FillHidden(v: Vol, w: Vol, lay: Layout, h: nat, buf: seq<byte>)
    requires Hidden(v, lay, h) && Last(lay, h) < |v.data| && w == v.(data := v.data[Last(lay, h) := buf])
    ensures Hidden(w, lay, h) && SameTree(v, lay, w, lay)
  {
    hide WfChains, WfDirs, WfRefs, Unique, OthersKept, Unreferenced, Tree;
    LastOwned(v, lay, h);
    RewriteFile(v, w, lay, h);
    TreeKept(v, lay, w, lay, h);
  }

  lemma GrowHidden(v: Vol, w: Vol, lay: Layout, h: nat, c: nat, mark: nat, buf: seq<byte>)
    requires Hidden(v, lay, h) && CanLink(v, lay, h, c, mark) && w == Link(v, Last(lay, h), c, mark, buf)
    ensures Hidden(w, Extended(lay, h, c), h) && SameTree(v, lay, w, Extended(lay, h, c))
    ensures Extended(lay, h, c).chains[h] == lay.chains[h] + [c]
    ensures ChainBytes(w, Extended(lay, h, c), h) == ChainBytes(v, lay, h) + buf
  {
    hide WfChains, WfDirs, WfRefs, Unique, OthersKept, Unreferenced, Tree, ChainBytes;
    LinkFile(v, lay, h, c, mark, buf);
    TreeKept(v, lay, w, Extended(lay, h, c), h);
  }

  /** All but the last cluster's bytes, and how rewriting the last cluster changes the chain's bytes. */
  lemma LastBytes(v: Vol, lay: Layout, h: nat, buf: seq<byte>)
    requires Wf(v, lay) && h >= 2 && h in lay.chains && |lay.chains[h]| > 0
    ensures Last(lay, h) < |v.data|
    ensures |v.data[Last(lay, h)]| <= |ChainBytes(v, lay, h)|
    ensures var n := |ChainBytes(v, lay, h)| - |v.data[Last(lay, h)]|;
            && ChainBytes(v, lay, h)[n..] == v.data[Last(lay, h)]
            && ChainBytes(v.(data := v.data[Last(lay, h) := buf]), lay, h) == ChainBytes(v, lay, h)[..n] + buf
  {
    var s: seq<nat> := lay.chains[h];
    var w := v.(data := v.data[Last(lay, h) := buf]);
    assert ChainAt(v, h, s);
    var t := s[..|s| - 1];
    forall i | 0 <= i < |t|
      ensures t[i] < |v.data| && w.data[t[i]] == v.data[t[i]]
    {
      assert lay.own[s[i]] == Owner(h, i) && lay.own[s[|s| - 1]] == Owner(h, |s| - 1);
    }
    ConcatFrame(v.data, w.data, t);
    assert Concat(v.data, s) == Concat(v.data, t) + v.data[s[|s| - 1]];
    assert Concat(w.data, s) == Concat(w.data, t) + w.data[s[|s| - 1]];
  }

  // ---- A file growing in place ----

  /** Only the chain of `h` has been written since `(v0, lay0)`. */
  ghost predicate Growing(v: Vol, lay: Layout, v0: Vol, lay0: Layout, h: nat) {
    && Wf(v, lay) && Wf(v0, lay0) && OthersKept(v0, lay0, v, lay, h) && v.eoc == v0.eoc
    && h >= 2 && h in lay.chains && h !in lay.names && |lay.chains[h]| > 0
  }

  lemma GrowInit(v: Vol, lay: Layout, k: Key)
    requires Wf(v, lay) && EntryOk(v, lay, k) && !DirBit(EntrySlot(v, lay, k)[11]) && Head(v, lay, k) >= 2
    ensures Growing(v, lay, v, lay, Head(v, lay, k))
  {
    hide Wf, Head, OthersKept;
    FileChain(v, lay, k);
    AllKept(v, lay, Head(v, lay, k));
  }

  lemma FileChain(v: Vol, lay: Layout, k: Key)
    requires Wf(v, lay) && EntryOk(v, lay, k) && !DirBit(EntrySlot(v, lay, k)[11]) && Head(v, lay, k) >= 2
    ensures var h := Head(v, lay, k); h in lay.chains && h !in lay.names && |lay.chains[h]| > 0
  {
    hide WfDirs, Unique, StartOf, SizeOf, OwnersKnown, OwnersReal;
    assert RefOk(v, lay, EntrySlot(v, lay, k));
    assert ChainAt(v, Head(v, lay, k), lay.chains[Head(v, lay, k)]);
  }

  lemma AllKept(v: Vol, lay: Layout, h: nat)
    requires Wf(v, lay)
    ensures OthersKept(v, lay, v, lay, h)
  {
    hide WfChains, WfDirs, Unique, RefOk, NodeAt, Head;
  }

  lemma GrowRewrite(v: Vol, w: Vol, lay: Layout, v0: Vol, lay0: Layout, h: nat, buf: seq<byte>)
    requires Growing(v, lay, v0, lay0, h) && Last(lay, h) < |v.data| && w == v.(data := v.data[Last(lay, h) := buf])
    ensures Growing(w, lay, v0, lay0, h)
  {
    hide WfChains, WfDirs, WfRefs, Unique, OthersKept;
    KeptWide(v0, lay0, v, lay, h);
    LastOwned(v, lay, h);
    RewriteFile(v, w, lay, h);
    KeptTrans(v0, lay0, v, lay, w, lay, h);
  }

  lemma KeptWide(v0: Vol, lay0: Layout, v: Vol, lay: Layout, h: nat)
    requires OthersKept(v0, lay0, v, lay, h)
    ensures v.wide == v0.wide && lay.names == lay0.names
  {
    hide Kept;
  }

  lemma GrowLink(v: Vol, w: Vol, lay: Layout, v0: Vol, lay0: Layout, h: nat, c: nat, mark: nat, buf: seq<byte>)
    requires Growing(v, lay, v0, lay0, h) && CanLink(v, lay, h, c, mark) && w == Link(v, Last(lay, h), c, mark, buf)
    ensures Growing(w, Extended(lay, h, c), v0, lay0, h)
    ensures Extended(lay, h, c).chains[h] == lay.chains[h] + [c]
    ensures ChainBytes(w, Extended(lay, h, c), h) == ChainBytes(v, lay, h) + buf
  {
    hide WfChains, WfDirs, WfRefs, Unique, OthersKept, ChainBytes;
    KeptWide(v0, lay0, v, lay, h);
    LinkFile(v, lay, h, c, mark, buf);
    KeptTrans(v0, lay0, v, lay, w, Extended(lay, h, c), h);
  }

  /** The tree while a file grows: only that file's store differs. */
  lemma GrowingTree(v: Vol, lay: Layout, v0: Vol, lay0: Layout, k: Key)
    requires Growing(v, lay, v0, lay0, if EntryOk(v0, lay0, k) then Head(v0, lay0, k) else 0)
    requires EntryOk(v0, lay0, k) && !DirBit(EntrySlot(v0, lay0, k)[11])
    ensures EntryOk(v, lay, k) && EntrySlot(v, lay, k) == EntrySlot(v0, lay0, k) && Head(v, lay, k) == Head(v0, lay0, k)
    ensures At(lay, k) == At(lay0, k) && lay.names == lay0.names
    ensures Tree(v, lay) ==
            Tree(v0, lay0)[k := File(SizeOf(EntrySlot(v0, lay0, k)), ChainBytes(v, lay, Head(v0, lay0, k)))]
  {
    hide WfChains, WfDirs, WfRefs, ChainBytes, StartOf, SizeOf;
    var h := Head(v0, lay0, k);
    assert Kept(v0, lay0, v, lay, h, k);
    forall x: Key | EntryOk(v0, lay0, x) && x != k
      ensures EntryOk(v, lay, x) && NodeAt(v, lay, x) == NodeAt(v0, lay0, x)
    {
      assert Kept(v0, lay0, v, lay, h, x);
    }
    forall x: Key | EntryOk(v, lay, x)
      ensures EntryOk(v0, lay0, x)
    {
      assert Entry(lay0, x);
      assert Kept(v0, lay0, v, lay, h, x);
    }
    TreeUpdate(Tree(v0, lay0), Tree(v, lay), k, NodeAt(v, lay, k));
  }

  /** The slot with a new size field. */
  ghost function Resized(s: seq<byte>, size: nat): (t: seq<byte>)
    requires |s| == 32
    ensures |t| == 32
  {
    s[..28] + Le32(size)
  }

  lemma ResizedFields(wide: bool, s: seq<byte>, size: nat)
    requires |s| == 32
    ensures var t := Resized(s, size);
            && NameOf(t) == NameOf(s) && t[0] == s[0] && t[11] == s[11]
            && StartOf(wide, t) == StartOf(wide, s) && SizeOf(t) == size % U32_LIMIT
  {
    var t := Resized(s, size);
    assert t[28] == Le32(size)[0] && t[29] == Le32(size)[1] && t[30] == Le32(size)[2] && t[31] == Le32(size)[3];
    assert t[..28] == s[..28];
    assert NameOf(t) == t[..28][..11] && NameOf(s) == s[..28][..11];
    assert forall i | 0 <= i < 28 :: t[i] == s[i];
  }

  lemma ResizeSplice(b: seq<byte>, off: nat, size: nat)
    requires off + 32 <= |b|
    ensures Splice(b, off + 28, Le32(size)) == Splice(b, off, Resized(b[off..off + 32], size))
  {
    hide Le32;
  }

  /** Recording a file's new size. */
  lemma SizeWritten(v: Vol, w: Vol, lay: Layout, k: Key, size: nat) returns (lay2: Layout)
    requires Wf(v, lay) && EntryOk(v, lay, k) && !DirBit(EntrySlot(v, lay, k)[11])
    requires Head(v, lay, k) != 0 || size % U32_LIMIT == 0 || lay.lost != NOBODY
    requires var p := At(lay, k);
             w == v.(data := v.data[p.cl := Splice(v.data[p.cl], p.off + 28, Le32(size))])
    ensures Wf(w, lay2) && lay2.names.Keys == lay.names.Keys && lay2.chains == lay.chains && lay2.lost == lay.lost
    ensures Tree(w, lay2) == Tree(v, lay)[k := File(size % U32_LIMIT, ChainBytes(v, lay, Head(v, lay, k)))]
  {
    hide WfChains, WfRefs, WfDirs, Unique, Resized, Le32, Splice, StartOf, SizeOf, ChainBytes, TextOf, Clean, Tree;
    var p, s := At(lay, k), EntrySlot(v, lay, k);
    var t := Resized(s, size);
    ResizeSplice(v.data[p.cl], p.off, size);
    assert w == Put(v, p, t);
    EntryFacts(v, lay, k);
    ResizedFields(v.wide, s, size);
    SameNameFits(v, lay, k, t);
    UpdateEntry(v, lay, k.dir, p, t);
    lay2 := PutLayout(v, lay, k.dir, p, t);
  }

  lemma EntryFacts(v: Vol, lay: Layout, k: Key)
    requires Wf(v, lay) && EntryOk(v, lay, k)
    ensures k.dir in lay.chains && NamedAt(v, lay.chains[k.dir], k.name, At(lay, k))
            && At(lay, k).cl in lay.chains[k.dir]
    ensures RefOk(v, lay, EntrySlot(v, lay, k)) && Live(EntrySlot(v, lay, k)) && TextOf(EntrySlot(v, lay, k)) == k.name
    ensures var b := v.data[At(lay, k).cl]; forall o | 0 <= o < At(lay, k).off && o % 32 == 0 :: b[o] != 0
  {
    EntriesOk(v, lay, k);
    var p := At(lay, k);
    assert WfDir(v, lay.chains[k.dir], lay.names[k.dir]);
    assert v.data[p.cl][p.off] == Slot(v, p)[0] != 0;
    assert ZeroTail(v.data[p.cl]);
  }

  /** A slot of the same name and start may replace an entry's slot. */
  lemma SameNameFits(v: Vol, lay: Layout, k: Key, t: seq<byte>)
    requires Wf(v, lay) && EntryOk(v, lay, k) && |t| == 32
    requires var s := EntrySlot(v, lay, k);
             NameOf(t) == NameOf(s) && t[0] == s[0] && t[11] == s[11] && StartOf(v.wide, t) == StartOf(v.wide, s)
    requires StartOf(v.wide, t) != 0 || SizeOf(t) == 0 || lay.lost != NOBODY
    ensures Live(t) && TextOf(t) == k.name && Fits(v, lay.names[k.dir], At(lay, k), t) && Leads(v, lay, At(lay, k), t)
  {
    hide Wf, StartOf, SizeOf, Dotted, Clean;
    EntryFacts(v, lay, k);
  }

  lemma NoChain(v: Vol, lay: Layout)
    ensures ChainBytes(v, lay, 0) == []
  {
  }

  // ---- Where appended bytes land ----

  /** The chain's bytes once `done` bytes of `data` are placed: up to `room` bytes go over the last
      cluster from offset `off` on (when `rmw`), the rest into new clusters behind. */
  ghost function Placed(store: seq<byte>, off: nat, cluster: nat, rmw: bool, data: seq<byte>, done: nat): seq<byte>
    requires done <= |data| && off < cluster <= |store|
  {
    if !rmw then store + data[..done]
    else
      var pos := |store| - cluster + off;
      var chunk := Min(|data|, cluster - off);
      if done < chunk then store else store[..pos] + data[..chunk] + store[pos + chunk..] + data[chunk..done]
  }

  lemma {:induction false} ConcatLength(data: seq<seq<byte>>, s: seq<nat>, n: nat)
    requires forall i | 0 <= i < |s| :: s[i] < |data| && |data[s[i]]| == n
    ensures |Concat(data, s)| == |s| * n
  {
    if s != [] {
      var t := s[..|s| - 1];
      ConcatLength(data, t, n);
      assert |s| * n == |t| * n + n;
    }
  }

  /** The offset in the last cluster, for a size that ends in the last of `m` clusters. */
  lemma LastOffset(m: nat, n: nat, size: nat)
    requires n > 0 && m * n < size + n && size <= m * n
    ensures size % n == if size == m * n then 0 else size - (m * n - n)
  {
    if size == m * n {
      ModOf(m, n, 0);
    } else {
      assert m > 0;
      var r := size - (m * n - n);
      assert size == (m - 1) * n + r;
      ModOf(m - 1, n, r);
    }
  }

  // ---- A new chain filling up ----

  /** `cb` is `p` followed by zeros, less than one cluster of them. */
  ghost predicate ZeroPadded(cb: seq<byte>, p: seq<byte>, n: nat) {
    p <= cb && |cb| < |p| + n && cb[|p|..] == Zeros(|cb| - |p|)
  }

  /** `store` is `data` followed by less than one cluster of slack. */
  ghost predicate Holds(store: seq<byte>, data: seq<byte>, n: nat) {
    ZeroPadded(store, data, n)
  }

  /** `done` bytes are placed; while more remain, one untouched cluster follows them. */
  ghost predicate Filling(cb: seq<byte>, data: seq<byte>, done: nat, n: nat) {
    done <= |data| && if done < |data| then |cb| == done + n && data[..done] <= cb else Holds(cb, data, n)
  }

  /** The buffer one turn writes: the next bytes of `data`, then zeros. */
  ghost function Chunk(data: seq<byte>, done: nat, n: nat): (r: seq<byte>)
    requires done <= |data|
    ensures |r| == n
  {
    var chunk := Min(|data| - done, n);
    data[done..done + chunk] + Zeros(n - chunk)
  }

  lemma FillStep(cb: seq<byte>, data: seq<byte>, done: nat, n: nat)
    requires Filling(cb, data, done, n) && done < |data| && n > 0
    ensures var d2 := Min(|data|, done + n);
            var cb2 := cb[..done] + Chunk(data, done, n);
            && (d2 == |data| ==> Filling(cb2, data, d2, n))
            && (d2 < |data| ==> Filling(cb2 + Zeros(n), data, d2, n))
  {
    var chunk := Min(|data| - done, n);
    var cb2 := cb[..done] + Chunk(data, done, n);
    assert cb[..done] == data[..done];
    assert cb2 == data[..done + chunk] + Zeros(n - chunk);
  }

  /** One whole cluster, or the tail of `data`, appended behind what is placed. */
  lemma PlaceNext(cb: seq<byte>, store: seq<byte>, off: nat, n: nat, rmw: bool, data: seq<byte>, done: nat)
    requires off < n <= |store| && done < |data| && cb == Placed(store, off, n, rmw, data, done)
    requires rmw ==> done >= Min(|data|, n - off)
    ensures var d2 := Min(|data|, done + n);
            var cb2 := cb + Chunk(data, done, n);
            && ZeroPadded(cb2, Placed(store, off, n, rmw, data, d2), n)
            && (d2 < |data| ==> cb2 == Placed(store, off, n, rmw, data, d2))
  {
    hide Placed, Chunk;
    var d2 := Min(|data|, done + n);
    PlacedGrows(store, off, n, rmw, data, done, d2);
    ChunkIs(data, done, n);
    assert cb + Chunk(data, done, n) == Placed(store, off, n, rmw, data, d2) + Zeros(n - (d2 - done));
  }

  lemma PlacedGrows(store: seq<byte>, off: nat, n: nat, rmw: bool, data: seq<byte>, done: nat, d2: nat)
    requires off < n <= |store| && done <= d2 <= |data| && (rmw ==> done >= Min(|data|, n - off))
    ensures Placed(store, off, n, rmw, data, d2) == Placed(store, off, n, rmw, data, done) + data[done..d2]
  {
    if rmw {
      var chunk := Min(|data|, n - off);
      assert data[chunk..d2] == data[chunk..done] + data[done..d2];
    } else {
      assert data[..d2] == data[..done] + data[done..d2];
    }
  }

  lemma ChunkIs(data: seq<byte>, at: nat, n: nat)
    requires at <= |data|
    ensures var m := Min(|data| - at, n); Chunk(data, at, n) == data[at..at + m] + Zeros(n - m)
  {
  }

  /** The read-modify-write of the last cluster places the first bytes. */
  lemma PlaceFirst(store: seq<byte>, off: nat, n: nat, data: seq<byte>, buf: seq<byte>)
    requires off < n <= |store| && |buf| == n && buf == store[|store| - n..]
    ensures var chunk := Min(|data|, n - off);
            && off + chunk <= |buf|
            && store[..|store| - n] + Splice(buf, off, data[..chunk]) == Placed(store, off, n, true, data, chunk)
  {
    hide Splice;
    var chunk := Min(|data|, n - off);
    var front := store[..|store| - n];
    assert store == front + buf;
    SpliceBehind(front, buf, off, data[..chunk]);
    assert data[chunk..chunk] == [];
  }

  lemma SpliceBehind(front: seq<byte>, buf: seq<byte>, off: nat, x: seq<byte>)
    requires off + |x| <= |buf|
    ensures front + Splice(buf, off, x) == (front + buf)[..|front| + off] + x + (front + buf)[|front| + off + |x|..]
  {
    assert (front + buf)[..|front| + off] == front + buf[..off];
    assert (front + buf)[|front| + off + |x|..] == buf[off + |x|..];
  }

  /** Nothing before the write position is disturbed by what is placed. */
  lemma PlacedKeeps(store: seq<byte>, off: nat, n: nat, rmw: bool, data: seq<byte>, done: nat)
    requires off < n <= |store| && done <= |data|
    ensures var keep := if rmw then |store| - n + off else |store|;
            store[..keep] <= Placed(store, off, n, rmw, data, done)
    ensures |store| <= |Placed(store, off, n, rmw, data, done)|
  {
  }

  /** Where in its last cluster a file of this size ends. */
  function OffsetOf(size: nat, n: nat): (r: nat)
    requires n > 0
    ensures r < n
  {
    size % n
  }

  /** Whether an append first rewrites the last cluster: FAT16 asks for space in it, FAT32 only for a nonempty file. */
  predicate Rewrites(wide: bool, size: nat, n: nat)
    requires n > 0
  {
    size % n != 0 || (wide && size > 0)
  }

  /** What an append leaves in the chain: nothing before the write position is disturbed, and on success all of
      `data` is placed with less than one cluster of zeros behind. */
  ghost predicate Appended(cb: seq<byte>, store: seq<byte>, size: nat, n: nat, rmw: bool, data: seq<byte>, ok: bool) {
    && 0 < n <= |store| <= |cb|
    && store[..if rmw then |store| - n + OffsetOf(size, n) else |store|] <= cb
    && (ok ==> PlacedIn(cb, store, size, n, rmw, data, |data|))
  }

  ghost predicate PlacedIn(cb: seq<byte>, store: seq<byte>, size: nat, n: nat, rmw: bool, data: seq<byte>, done: nat)
    requires 0 < n <= |store| && done <= |data|
  {
    var p := Placed(store, OffsetOf(size, n), n, rmw, data, done);
    ZeroPadded(cb, p, n) && (rmw && |data| <= n - OffsetOf(size, n) ==> cb == p)
  }

  lemma AppendStopped(cb: seq<byte>, store: seq<byte>, size: nat, n: nat, rmw: bool, data: seq<byte>, done: nat)
    requires 0 < n <= |store| && done <= |data| && cb == Placed(store, OffsetOf(size, n), n, rmw, data, done)
    ensures Appended(cb, store, size, n, rmw, data, false)
  {
    hide Placed, OffsetOf;
    PlacedKeeps(store, OffsetOf(size, n), n, rmw, data, done);
  }

  lemma AppendMaybeDone(cb: seq<byte>, store: seq<byte>, size: nat, n: nat, rmw: bool, data: seq<byte>, done: nat)
    requires 0 < n <= |store| && done <= |data|
    requires var p := Placed(store, OffsetOf(size, n), n, rmw, data, done); cb == p || ZeroPadded(cb, p, n)
    requires rmw && |data| <= n - OffsetOf(size, n) ==> cb == Placed(store, OffsetOf(size, n), n, rmw, data, done)
    ensures done == |data| ==> Appended(cb, store, size, n, rmw, data, true)
  {
    hide Placed, OffsetOf;
    PlacedKeeps(store, OffsetOf(size, n), n, rmw, data, done);
  }

  // ---- The file an append leaves ----

  /** `p` filled up with zeros to whole clusters. */
  ghost function InClusters(p: seq<byte>, n: nat): seq<byte>
    requires n > 0
  {
    p + Zeros(if OffsetOf(|p|, n) == 0 then 0 else n - OffsetOf(|p|, n))
  }

  /** Whole clusters that are `p` and less than a cluster of zeros are `p` padded. */
  lemma InClustersIs(cb: seq<byte>, p: seq<byte>, n: nat, m: nat)
    requires n > 0 && ZeroPadded(cb, p, n) && |cb| == m * n
    ensures cb == InClusters(p, n)
  {
    PadLength(|p|, |cb|, n, m);
    assert cb == cb[..|p|] + cb[|p|..];
  }

  lemma PadLength(p: nat, c: nat, n: nat, m: nat)
    requires n > 0 && p <= c < p + n && c == m * n
    ensures OffsetOf(p, n) == if p == c then 0 else n - (c - p)
  {
    if p == c {
      ModOf(m, n, 0);
    } else {
      assert (m - 1) * n == c - n;
      ModOf(m - 1, n, n - (c - p));
    }
  }

  /** The node after `data` is appended. A file without a chain keeps none. */
  ghost function AppendedNode(wide: bool, node: Node, data: seq<byte>, n: nat): Node
    requires node.File? && n > 0
  {
    File((node.size + |data|) % U32_LIMIT, AppendedStore(wide, node, data, n))
  }

  ghost function AppendedStore(wide: bool, node: Node, data: seq<byte>, n: nat): seq<byte>
    requires node.File? && n > 0
  {
    if |node.store| < n then node.store
    else InClusters(Placed(node.store, OffsetOf(node.size, n), n, Rewrites(wide, node.size, n), data, |data|), n)
  }

  /** What a reader gets afterwards, as long as the size stays below 2^32. */
  ghost function AppendReads(wide: bool, node: Node, data: seq<byte>, n: nat): seq<byte>
    requires node.File? && n > 0
  {
    Cut(AppendedStore(wide, node, data, n), node.size + |data|)
  }

  /** The chain an append leaves is the one the node tells of. */
  lemma AppendedIs(wide: bool, node: Node, data: seq<byte>, n: nat, cb: seq<byte>, m: nat)
    requires node.File? && n > 0 && |cb| == m * n
    requires Appended(cb, node.store, node.size, n, Rewrites(wide, node.size, n), data, true)
    ensures cb == AppendedStore(wide, node, data, n) && cb != []
  {
    hide Placed, Rewrites, InClusters, OffsetOf;
    InClustersIs(cb, Placed(node.store, OffsetOf(node.size, n), n, Rewrites(wide, node.size, n), data, |data|), n, m);
  }

  /** Where in the chain the first appended byte goes. */
  ghost function WrittenAt(wide: bool, node: Node, n: nat): nat
    requires node.File? && 0 < n <= |node.store|
  {
    if Rewrites(wide, node.size, n) then |node.store| - n + OffsetOf(node.size, n) else |node.store|
  }

  /** The files to which every append is exact. FAT16: the end lies in the last cluster. FAT32: so it does, off a
      cluster boundary; on a boundary, one spare cluster follows a nonempty file. */
  ghost predicate AppendsExactly(wide: bool, node: Node, n: nat)
    requires n > 0
  {
    && node.File? && node.store != []
    && if wide && node.size % n == 0 then node.size > 0 && |node.store| == node.size + n else Tight(node, n)
  }

  /** An append gives the old contents and then the data, whatever the data, exactly for those files. */
  lemma AppendsAll(wide: bool, node: Node, n: nat, m: nat)
    requires node.File? && n > 1 && |node.store| == m * n
    ensures (forall data: seq<byte> | data != [] :: AppendReads(wide, node, data, n) == Contents(node) + data)
            <==> AppendsExactly(wide, node, n)
    ensures !AppendsExactly(wide, node, n) ==> exists x: byte :: AppendReads(wide, node, [x], n) != Contents(node) + [x]
  {
    hide AppendReads;
    if node.store == [] {
      NothingReads(wide, node, n);
      assert AppendReads(wide, node, [0], n) != Contents(node) + [0];
      return;
    }
    MulAtLeast(m, n);
    if node.size > |node.store| {
      var x := WrittenShort(wide, node, n, m);
      assert AppendReads(wide, node, [x], n) != Contents(node) + [x];
      return;
    }
    PlaceMeans(wide, node, n, m);
    if WrittenAt(wide, node, n) == node.size {
      forall data: seq<byte> | data != []
        ensures AppendReads(wide, node, data, n) == Contents(node) + data
      {
        WrittenInPlace(wide, node, n, data);
      }
    } else {
      var x := WrittenElsewhere(wide, node, n);
      assert AppendReads(wide, node, [x], n) != Contents(node) + [x];
    }
  }

  /** One byte that shows it when the recorded size is past the end of the chain. */
  lemma WrittenShort(wide: bool, node: Node, n: nat, m: nat) returns (x: byte)
    requires node.File? && 1 < n <= |node.store| < node.size && |node.store| == m * n
    ensures AppendReads(wide, node, [x], n) != Contents(node) + [x]
  {
    var store, size, pos := node.store, node.size, WrittenAt(wide, node, n);
    x := if pos == |store| || store[pos] == 0 then 1 else 0;
    var p := Placed(store, OffsetOf(size, n), n, Rewrites(wide, size, n), [x], 1);
    if pos < |store| {
      assert p[pos] == x;
      assert AppendReads(wide, node, [x], n)[pos] == x;
      assert (Contents(node) + [x])[pos] == store[pos];
    } else {
      ModOf(m, n, 1);
      assert |p| == |store| + 1 && OffsetOf(|p|, n) == 1;
      assert |AppendReads(wide, node, [x], n)| > |store| + 1;
    }
  }

  lemma MulAtLeast(m: nat, n: nat)
    requires m * n > 0
    ensures m * n >= n && m > 0
  {
    if m > 1 { assert m * n == (m - 1) * n + n; }
  }

  lemma NothingReads(wide: bool, node: Node, n: nat)
    requires node.File? && n > 0 && node.store == []
    ensures forall data: seq<byte> :: AppendReads(wide, node, data, n) == [] && Contents(node) == []
  {
  }

  lemma WrittenInPlace(wide: bool, node: Node, n: nat, data: seq<byte>)
    requires node.File? && 0 < n <= |node.store| && node.size <= |node.store| && WrittenAt(wide, node, n) == node.size
    ensures AppendReads(wide, node, data, n) == Contents(node) + data
  {
    var store, size, off := node.store, node.size, OffsetOf(node.size, n);
    var rmw := Rewrites(wide, size, n);
    var p := Placed(store, off, n, rmw, data, |data|);
    var chunk := Min(|data|, n - off);
    if rmw {
      assert p == store[..size] + data[..chunk] + store[size + chunk..] + data[chunk..];
      if chunk < |data| {
        assert store[size + chunk..] == [];
        assert p == store[..size] + data;
      }
    } else {
      assert p == store + data;
    }
    assert p[..size + |data|] == store[..size] + data;
    CutInClusters(p, n, size + |data|);
  }

  /** ... and the end of the file then lies in its last cluster. */
  lemma StaysTight(wide: bool, node: Node, n: nat, data: seq<byte>)
    requires node.File? && 0 < n <= |node.store| && node.size <= |node.store| && WrittenAt(wide, node, n) == node.size
    requires |node.store| % n == 0 && data != []
    ensures node.size + |data| <= |AppendedStore(wide, node, data, n)| < node.size + |data| + n
  {
    var p := Placed(node.store, OffsetOf(node.size, n), n, Rewrites(wide, node.size, n), data, |data|);
    assert |p| == node.size + |data| || (|p| == |node.store| && |p| > node.size + |data|);
    assert |p| == |node.store| ==> OffsetOf(|p|, n) == 0;
  }

  lemma CutInClusters(p: seq<byte>, n: nat, k: nat)
    requires n > 0 && k <= |p|
    ensures Cut(InClusters(p, n), k) == p[..k]
  {
  }

  /** One byte that the append puts in the wrong place. */
  lemma WrittenElsewhere(wide: bool, node: Node, n: nat) returns (x: byte)
    requires node.File? && 0 < n <= |node.store| && node.size <= |node.store| && WrittenAt(wide, node, n) != node.size
    ensures AppendReads(wide, node, [x], n) != Contents(node) + [x]
  {
    var store, size, pos := node.store, node.size, WrittenAt(wide, node, n);
    var at := if pos < size then pos else size;
    x := if store[at] == 0 then 1 else 0;
    var p := Placed(store, OffsetOf(size, n), n, Rewrites(wide, size, n), [x], 1);
    assert pos < size ==> p[pos] == x;
    assert pos > size ==> p[size] == store[size];
    assert InClusters(p, n)[at] == p[at];
    assert AppendReads(wide, node, [x], n)[at] == p[at];
    assert (Contents(node) + [x])[at] == if pos < size then store[pos] else x;
  }

  lemma PlaceMeans(wide: bool, node: Node, n: nat, m: nat)
    requires node.File? && 0 < n <= |node.store| && |node.store| == m * n && node.size <= |node.store|
    ensures WrittenAt(wide, node, n) == node.size <==> AppendsExactly(wide, node, n)
  {
    var size, len, off := node.size, |node.store|, node.size % n;
    if Tight(node, n) { LastOffset(m, n, size); }
  }

  // ---- A new directory ----

  ghost function DotNames(c: nat): map<seq<byte>, Pos> {
    map[[PERIOD] := Pos(c, 0), [PERIOD, PERIOD] := Pos(c, 32)]
  }

  ghost function WithDir(lay: Layout, c: nat): Layout {
    lay.(names := lay.names[c := DotNames(c)])
  }

  /** The two dot entries and then zeros. */
  function DirImage(wide: bool, c: nat, parent: nat, n: nat): (r: seq<byte>)
    requires n >= 64
    ensures |r| == n
  {
    NewSlot(wide, Zeros(32), DOT, 0x10, c, 0) + NewSlot(wide, Zeros(32), DOT_DOT, 0x10, parent, 0) + Zeros(n - 64)
  }

  lemma DirImageSlots(wide: bool, c: nat, parent: nat, n: nat)
    requires n >= 64 && n % 32 == 0 && c < Span(wide) && parent < Span(wide)
    ensures var b := DirImage(wide, c, parent, n);
            && Live(b[0..32]) && NameOf(b[0..32]) == DOT && Live(b[32..64]) && NameOf(b[32..64]) == DOT_DOT
            && (forall o | 64 <= o < n :: b[o] == 0)
            && b[0] == PERIOD && b[32] == PERIOD
  {
    hide StartOf, SizeOf, Zeros;
    var s1, s2 := NewSlot(wide, Zeros(32), DOT, 0x10, c, 0), NewSlot(wide, Zeros(32), DOT_DOT, 0x10, parent, 0);
    NewSlotFields(wide, Zeros(32), DOT, 0x10, c, 0);
    NewSlotFields(wide, Zeros(32), DOT_DOT, 0x10, parent, 0);
    hide NewSlot;
    var b := DirImage(wide, c, parent, n);
    assert b == s1 + s2 + Zeros(n - 64);
    assert b[0..32] == s1 && b[32..64] == s2;
  }

  lemma DirImageTail(b: seq<byte>)
    requires |b| >= 64 && b[0] != 0 && b[32] != 0 && forall o | 64 <= o < |b| :: b[o] == 0
    ensures ZeroTail(b)
  {
  }

  lemma NewDirWf(v: Vol, c: nat, parent: nat)
    requires c < |v.data| && c < Span(v.wide) && parent < Span(v.wide) && |v.data[c]| >= 64 && |v.data[c]| % 32 == 0
    requires v.data[c] == DirImage(v.wide, c, parent, |v.data[c]|)
    ensures WfDir(v, [c], DotNames(c))
  {
    hide DirImage, TextOf, Regular;
    DirImageSlots(v.wide, c, parent, |v.data[c]|);
    DirImageTail(v.data[c]);
    DotTexts(v.data[c]);
    var nm := DotNames(c);
    forall p: Pos | p.cl in [c] && SlotOk(v, p) && Live(Slot(v, p))
      ensures p == Pos(c, 0) || p == Pos(c, 32)
    {
      assert Slot(v, p)[0] == v.data[c][p.off];
    }
    assert SlotOk(v, Pos(c, 0)) && Slot(v, Pos(c, 0)) == v.data[c][0..32];
    assert SlotOk(v, Pos(c, 32)) && Slot(v, Pos(c, 32)) == v.data[c][32..64];
    assert forall x | x in [c] :: x == c;
  }

  lemma DotTexts(b: seq<byte>)
    requires |b| >= 64 && NameOf(b[0..32]) == DOT && NameOf(b[32..64]) == DOT_DOT
    ensures TextOf(b[0..32]) == [PERIOD] && TextOf(b[32..64]) == [PERIOD, PERIOD]
  {
    hide Dotted;
    DotsDotted();
  }

  /** A hidden chain whose only live slots are the dot entries can become a directory. */
  lemma BecomeDir(v: Vol, lay: Layout, c: nat, parent: nat)
    requires Hidden(v, lay, c) && c != lay.lost && lay.chains[c] == [c] && c < |v.data|
    requires c < Span(v.wide) && parent < Span(v.wide) && |v.data[c]| >= 64 && |v.data[c]| % 32 == 0
    requires v.data[c] == DirImage(v.wide, c, parent, |v.data[c]|)
    ensures Wf(v, WithDir(lay, c)) && Tree(v, WithDir(lay, c)) == Tree(v, lay)
    ensures Unreferenced(v, WithDir(lay, c), c)
  {
    hide WfChains, WfDirs, Unreferenced, DirImage, RefOk, NodeAt, WithDir;
    var lay2 := WithDir(lay, c);
    NewDirWf(v, c, parent);
    BecomeDirs(v, lay, c);
    DotEntries(lay, c);
    forall k: Key | Entry(lay, k)
      ensures EntryOk(v, lay2, k) && RefOk(v, lay2, EntrySlot(v, lay2, k)) && NodeAt(v, lay2, k) == NodeAt(v, lay, k)
      ensures EntrySlot(v, lay2, k) == EntrySlot(v, lay, k) && Head(v, lay, k) != c
    {
      BecomeKey(v, lay, c, k);
    }
    BecomeUnique(v, lay, lay2, c);
    assert Tree(v, lay2) == Tree(v, lay);
  }

  lemma BecomeUnique(v: Vol, lay: Layout, lay2: Layout, c: nat)
    requires Unique(v, lay) && lay2 == WithDir(lay, c) && (forall k: Key :: Entry(lay2, k) <==> Entry(lay, k))
    requires forall k: Key | Entry(lay, k) ::
               EntryOk(v, lay, k) && EntryOk(v, lay2, k) && EntrySlot(v, lay2, k) == EntrySlot(v, lay, k)
                   && Head(v, lay, k) != c
    ensures Unique(v, lay2) && Unreferenced(v, lay2, c)
  {
    hide StartOf;
  }

  lemma BecomeKey(v: Vol, lay: Layout, c: nat, k: Key)
    requires WfRefs(v, lay) && Unreferenced(v, lay, c) && c !in lay.names && Entry(lay, k)
    ensures EntryOk(v, lay, k) && EntryOk(v, WithDir(lay, c), k)
    ensures EntrySlot(v, WithDir(lay, c), k) == EntrySlot(v, lay, k) && Head(v, lay, k) != c
    ensures RefOk(v, WithDir(lay, c), EntrySlot(v, lay, k))
    ensures NodeAt(v, WithDir(lay, c), k) == NodeAt(v, lay, k)
  {
    hide StartOf, SizeOf, Concat;
    assert RefOk(v, lay, EntrySlot(v, lay, k));
  }

  lemma BecomeDirs(v: Vol, lay: Layout, c: nat)
    requires WfChains(v, lay) && WfDirs(v, lay) && c in lay.chains && c != lay.lost && lay.chains[c] == [c]
             && WfDir(v, [c], DotNames(c))
    ensures WfDirs(v, WithDir(lay, c)) && WfChains(v, WithDir(lay, c))
  {
    hide WfDir;
    SameChains(v, lay, WithDir(lay, c));
  }

  lemma SameChains(v: Vol, lay: Layout, lay2: Layout)
    requires WfChains(v, lay) && lay2.chains == lay.chains && lay2.own == lay.own && lay2.lost == lay.lost
    ensures WfChains(v, lay2)
  {
  }

  lemma DotEntries(lay: Layout, c: nat)
    requires c !in lay.names
    ensures forall k: Key :: Entry(WithDir(lay, c), k) <==> Entry(lay, k)
  {
  }
}

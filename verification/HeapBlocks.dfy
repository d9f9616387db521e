/** The block list of the kernel heap, as it lies in memory. */
module HeapBlocks {
  import opened Bytes

  const MAGIC: nat := 0x4845_4150
  const HEADER: nat := 24
  const MIN_ALIGNMENT: nat := 8
  const SPLIT_THRESHOLD: nat := 32

  /** A block: its header address and payload size; a used block also has the pointer handed out and the size
      asked for. */
  datatype Block = Block(addr: nat, size: nat, used: bool, user: nat, req: nat)

  /** The header words; `reserved` is never read. */
  datatype Hdr = Hdr(magic: nat, size: nat, prev: nat, next: nat, used: nat)

  function End(b: Block): nat {
    b.addr + HEADER + b.size
  }

  function Word(m: seq<byte>, a: nat): nat
    requires a + 4 <= |m|
  {
    U32(m, a)
  }

  function Header(m: seq<byte>, a: nat): Hdr
    requires a + HEADER <= |m|
  {
    Hdr(Word(m, a), Word(m, a + 4), Word(m, a + 8), Word(m, a + 12), Word(m, a + 16))
  }

  // ---- One word store ----

  /** `m2` is `m` with the word at `a` set to `v`. */
  ghost predicate Stored(m: seq<byte>, m2: seq<byte>, a: nat, v: nat) {
    && a + 4 <= |m| == |m2| && Word(m2, a) == v
    && forall x | 0 <= x < |m| && !(a <= x < a + 4) :: m2[x] == m[x]
  }

  lemma WordKept(m: seq<byte>, m2: seq<byte>, a: nat, v: nat, x: nat)
    requires Stored(m, m2, a, v) && x + 4 <= |m| && (x + 4 <= a || a + 4 <= x)
    ensures Word(m2, x) == Word(m, x)
  {
  }

  lemma HeaderKept(m: seq<byte>, m2: seq<byte>, a: nat, v: nat, h: nat)
    requires Stored(m, m2, a, v) && h + HEADER <= |m| && (h + HEADER <= a || a + 4 <= h)
    ensures Header(m2, h) == Header(m, h)
  {
    hide Word, Stored;
    WordKept(m, m2, a, v, h);
    WordKept(m, m2, a, v, h + 4);
    WordKept(m, m2, a, v, h + 8);
    WordKept(m, m2, a, v, h + 12);
    WordKept(m, m2, a, v, h + 16);
  }

  /** Storing one header word changes that field only. */
  lemma FieldStored(m: seq<byte>, m2: seq<byte>, h: nat, f: nat, v: nat)
    requires f < 6 && h + HEADER <= |m| && Stored(m, m2, h + 4 * f, v)
    ensures Header(m2, h) == match f
                             case 0 => Header(m, h).(magic := v)
                             case 1 => Header(m, h).(size := v)
                             case 2 => Header(m, h).(prev := v)
                             case 3 => Header(m, h).(next := v)
                             case 4 => Header(m, h).(used := v)
                             case _ => Header(m, h)
  {
    hide Word;
    var a := h + 4 * f;
    if f != 0 { WordKept(m, m2, a, v, h); }
    if f != 1 { WordKept(m, m2, a, v, h + 4); }
    if f != 2 { WordKept(m, m2, a, v, h + 8); }
    if f != 3 { WordKept(m, m2, a, v, h + 12); }
    if f != 4 { WordKept(m, m2, a, v, h + 16); }
  }

  // ---- The list in memory ----

  /** A used block holds its pointer, aligned, with a word below it and the bytes asked for above it. */
  ghost predicate Shaped(b: Block) {
    b.used ==> b.addr + HEADER + 4 <= b.user && b.user + b.req <= End(b) && b.user % MIN_ALIGNMENT == 0 && b.req > 0
  }

  /** Blocks lie between `lo` and `hi` in address order, without overlap. */
  ghost predicate Ordered(bs: seq<Block>, lo: nat, hi: nat) {
    && (forall i | 0 <= i < |bs| :: lo <= bs[i].addr && End(bs[i]) <= hi && Shaped(bs[i]))
    && (forall i, j | 0 <= i < j < |bs| :: End(bs[i]) <= bs[j].addr)
  }

  function PrevOf(bs: seq<Block>, i: nat): nat
    requires i < |bs|
  {
    if i == 0 then 0 else bs[i - 1].addr
  }

  function NextOf(bs: seq<Block>, i: nat): nat
    requires i < |bs|
  {
    if i == |bs| - 1 then 0 else bs[i + 1].addr
  }

  /** Memory shows block `b` with these neighbours, and the word below its pointer names it. */
  ghost predicate Shown(m: seq<byte>, b: Block, prev: nat, next: nat) {
    && End(b) <= |m| && Shaped(b)
    && Header(m, b.addr) == Hdr(MAGIC, b.size, prev, next, if b.used then 1 else 0)
    && (b.used ==> Word(m, b.user - 4) == b.addr)
  }

  ghost predicate ShownAt(m: seq<byte>, bs: seq<Block>, i: nat)
    requires i < |bs|
  {
    Shown(m, bs[i], PrevOf(bs, i), NextOf(bs, i))
  }

  ghost predicate Linked(m: seq<byte>, bs: seq<Block>) {
    forall i: nat | i < |bs| :: ShownAt(m, bs, i)
  }

  /** A store outside a block's span leaves it as it was. */
  lemma ShownKept(m: seq<byte>, m2: seq<byte>, a: nat, v: nat, b: Block, prev: nat, next: nat)
    requires Stored(m, m2, a, v) && Shown(m, b, prev, next) && (a + 4 <= b.addr || End(b) <= a)
    ensures Shown(m2, b, prev, next)
  {
    hide Word, Stored, Header;
    SameSize(m, m2, a, v);
    HeaderKept(m, m2, a, v, b.addr);
    if b.used { WordKept(m, m2, a, v, b.user - 4); }
  }

  lemma SameSize(m: seq<byte>, m2: seq<byte>, a: nat, v: nat)
    requires Stored(m, m2, a, v)
    ensures |m2| == |m|
  {
  }

  /** Storing the `prev` word of a block. */
  lemma PrevStored(m: seq<byte>, m2: seq<byte>, b: Block, prev: nat, next: nat, v: nat)
    requires Shown(m, b, prev, next) && Stored(m, m2, b.addr + 8, v)
    ensures Shown(m2, b, v, next)
  {
    hide Word, Stored;
    SameSize(m, m2, b.addr + 8, v);
    FieldStored(m, m2, b.addr, 2, v);
    if b.used { WordKept(m, m2, b.addr + 8, v, b.user - 4); }
  }

  lemma NextStored(m: seq<byte>, m2: seq<byte>, b: Block, prev: nat, next: nat, v: nat)
    requires Shown(m, b, prev, next) && Stored(m, m2, b.addr + 12, v)
    ensures Shown(m2, b, prev, v)
  {
    hide Word, Stored;
    SameSize(m, m2, b.addr + 12, v);
    FieldStored(m, m2, b.addr, 3, v);
    if b.used { WordKept(m, m2, b.addr + 12, v, b.user - 4); }
  }

  /** Storing the `size` word of a block that is not used. */
  lemma SizeStored(m: seq<byte>, m2: seq<byte>, b: Block, prev: nat, next: nat, v: nat)
    requires Shown(m, b, prev, next) && !b.used && Stored(m, m2, b.addr + 4, v) && b.addr + HEADER + v <= |m|
    ensures Shown(m2, b.(size := v), prev, next)
  {
    hide Word, Stored;
    SameSize(m, m2, b.addr + 4, v);
    FieldStored(m, m2, b.addr, 1, v);
  }

  lemma FreedStored(m: seq<byte>, m2: seq<byte>, b: Block, prev: nat, next: nat)
    requires Shown(m, b, prev, next) && Stored(m, m2, b.addr + 16, 0)
    ensures Shown(m2, b.(used := false), prev, next)
  {
    hide Word, Stored;
    SameSize(m, m2, b.addr + 16, 0);
    FieldStored(m, m2, b.addr, 4, 0);
  }

  /** Marking a block used and storing its address below the pointer. */
  lemma TakenStored(m: seq<byte>, m1: seq<byte>, m2: seq<byte>, b: Block, prev: nat, next: nat, user: nat, req: nat)
    requires Shown(m, b, prev, next) && Shaped(b.(used := true, user := user, req := req))
    requires Stored(m, m1, b.addr + 16, 1) && user >= 4 && Stored(m1, m2, user - 4, b.addr)
    ensures Shown(m2, b.(used := true, user := user, req := req), prev, next)
  {
    hide Word;
    FieldStored(m, m1, b.addr, 4, 1);
    HeaderKept(m1, m2, user - 4, b.addr, b.addr);
  }

  /** Six stores write a fresh header. */
  lemma FreshHeader(ms: seq<seq<byte>>, a: nat, size: nat, prev: nat, next: nat)
    requires |ms| == 7 && a + HEADER + size <= |ms[0]|
    requires Stored(ms[0], ms[1], a, MAGIC) && Stored(ms[1], ms[2], a + 4, size) && Stored(ms[2], ms[3], a + 8, prev)
    requires Stored(ms[3], ms[4], a + 12, next) && Stored(ms[4], ms[5], a + 16, 0) && Stored(ms[5], ms[6], a + 20, 0)
    ensures Shown(ms[6], Block(a, size, false, 0, 0), prev, next)
  {
    hide Word, Stored;
    SameSize(ms[0], ms[1], a, MAGIC);
    SameSize(ms[1], ms[2], a + 4, size);
    SameSize(ms[2], ms[3], a + 8, prev);
    SameSize(ms[3], ms[4], a + 12, next);
    SameSize(ms[4], ms[5], a + 16, 0);
    SameSize(ms[5], ms[6], a + 20, 0);
    FieldStored(ms[0], ms[1], a, 0, MAGIC);
    FieldStored(ms[1], ms[2], a, 1, size);
    FieldStored(ms[2], ms[3], a, 2, prev);
    FieldStored(ms[3], ms[4], a, 3, next);
    FieldStored(ms[4], ms[5], a, 4, 0);
    FieldStored(ms[5], ms[6], a, 5, 0);
  }

  // ---- Stores confined to a region ----

  ghost predicate Patched(m: seq<byte>, m2: seq<byte>, lo: nat, hi: nat) {
    |m2| == |m| && forall x | 0 <= x < |m| && !(lo <= x < hi) :: m2[x] == m[x]
  }

  lemma StoredPatches(m: seq<byte>, m2: seq<byte>, a: nat, v: nat, lo: nat, hi: nat)
    requires Stored(m, m2, a, v) && lo <= a && a + 4 <= hi
    ensures Patched(m, m2, lo, hi)
  {
  }

  lemma PatchedTwice(m: seq<byte>, m1: seq<byte>, m2: seq<byte>, lo: nat, hi: nat)
    requires Patched(m, m1, lo, hi) && Patched(m1, m2, lo, hi)
    ensures Patched(m, m2, lo, hi)
  {
  }

  lemma WordPatched(m: seq<byte>, m2: seq<byte>, lo: nat, hi: nat, x: nat)
    requires Patched(m, m2, lo, hi) && x + 4 <= |m| && (x + 4 <= lo || hi <= x)
    ensures Word(m2, x) == Word(m, x)
  {
  }

  lemma ShownPatched(m: seq<byte>, m2: seq<byte>, lo: nat, hi: nat, b: Block, prev: nat, next: nat)
    requires Patched(m, m2, lo, hi) && Shown(m, b, prev, next) && (hi <= b.addr || End(b) <= lo)
    ensures Shown(m2, b, prev, next)
  {
    hide Word;
    WordPatched(m, m2, lo, hi, b.addr);
    WordPatched(m, m2, lo, hi, b.addr + 4);
    WordPatched(m, m2, lo, hi, b.addr + 8);
    WordPatched(m, m2, lo, hi, b.addr + 12);
    WordPatched(m, m2, lo, hi, b.addr + 16);
    if b.used { WordPatched(m, m2, lo, hi, b.user - 4); }
  }

  // ---- Replacing neighbours in the list ----

  /** The blocks after `r` blocks from index `i` on give way to `mid`. */
  function Swap(bs: seq<Block>, i: nat, r: nat, mid: seq<Block>): seq<Block>
    requires i + r <= |bs|
  {
    bs[..i] + mid + bs[i + r..]
  }

  /** `mid` fits where the `r` blocks were: same start, inside the same span, in order. */
  ghost predicate Replaces(bs: seq<Block>, i: nat, r: nat, mid: seq<Block>) {
    && 0 < r && i + r <= |bs| && 0 < |mid| && mid[0].addr == bs[i].addr
    && Ordered(mid, bs[i].addr, End(bs[i + r - 1]))
  }

  lemma SwapOrdered(bs: seq<Block>, i: nat, r: nat, mid: seq<Block>, lo: nat, hi: nat)
    requires Ordered(bs, lo, hi) && Replaces(bs, i, r, mid)
    ensures Ordered(Swap(bs, i, r, mid), lo, hi)
  {
    hide Shaped, End;
    var cs := Swap(bs, i, r, mid);
    assert forall j | 0 <= j < |cs| :: cs[j] == if j < i then bs[j] else if j < i + |mid| then mid[j - i]
        else bs[j - |mid| + r];
    forall j, k | 0 <= j < k < |cs|
      ensures End(cs[j]) <= cs[k].addr
    {
      SwapPair(bs, i, r, mid, lo, hi, j, k);
    }
    forall j | 0 <= j < |cs|
      ensures lo <= cs[j].addr && End(cs[j]) <= hi && Shaped(cs[j])
    {
      assert i <= j < i + |mid| ==> End(cs[j]) <= End(bs[i + r - 1]);
    }
  }

  lemma SwapPair(bs: seq<Block>, i: nat, r: nat, mid: seq<Block>, lo: nat, hi: nat, j: nat, k: nat)
    requires Ordered(bs, lo, hi) && Replaces(bs, i, r, mid) && j < k < |Swap(bs, i, r, mid)|
    ensures End(Swap(bs, i, r, mid)[j]) <= Swap(bs, i, r, mid)[k].addr
  {
    hide Shaped;
    var cs := Swap(bs, i, r, mid);
    if j < i {
      assert cs[j] == bs[j];
      if k < i { assert cs[k] == bs[k]; }
      else if k < i + |mid| { assert cs[k] == mid[k - i]; }
      else { assert cs[k] == bs[k - |mid| + r]; }
    } else if j < i + |mid| {
      assert cs[j] == mid[j - i];
      if k < i + |mid| { assert cs[k] == mid[k - i]; }
      else { assert cs[k] == bs[k - |mid| + r]; }
    } else {
      assert cs[j] == bs[j - |mid| + r] && cs[k] == bs[k - |mid| + r];
    }
  }

  function MidPrev(bs: seq<Block>, i: nat, mid: seq<Block>, x: nat): nat
    requires i < |bs| && x < |mid|
  {
    if x == 0 then PrevOf(bs, i) else mid[x - 1].addr
  }

  function MidNext(bs: seq<Block>, i: nat, r: nat, mid: seq<Block>, x: nat): nat
    requires 0 < r && i + r <= |bs| && x < |mid|
  {
    if x == |mid| - 1 then NextOf(bs, i + r - 1) else mid[x + 1].addr
  }

  predicate Moves(bs: seq<Block>, i: nat, r: nat, mid: seq<Block>)
    requires 0 < r && i + r <= |bs| && 0 < |mid|
  {
    i + r < |bs| && mid[|mid| - 1].addr != bs[i + r - 1].addr
  }

  /** The block behind the replaced ones has its `prev` word stored, unless the word is right already. */
  ghost predicate Rehung(m1: seq<byte>, m2: seq<byte>, bs: seq<Block>, i: nat, r: nat, mid: seq<Block>)
    requires Replaces(bs, i, r, mid)
  {
    if Moves(bs, i, r, mid) then Stored(m1, m2, bs[i + r].addr + 8, mid[|mid| - 1].addr) else m2 == m1
  }

  /** All stores of a replacement: inside the spans, then behind them, then inside again. */
  ghost predicate Rewritten(m: seq<byte>, m1: seq<byte>, m2: seq<byte>, m3: seq<byte>, bs: seq<Block>, i: nat, r: nat,
                            mid: seq<Block>) {
    && Replaces(bs, i, r, mid)
    && Patched(m, m1, bs[i].addr, End(bs[i + r - 1])) && Rehung(m1, m2, bs, i, r, mid)
    && Patched(m2, m3, bs[i].addr, End(bs[i + r - 1]))
  }

  lemma SwapLinked(m: seq<byte>, m1: seq<byte>, m2: seq<byte>, m3: seq<byte>, bs: seq<Block>, i: nat, r: nat,
                   mid: seq<Block>, lo: nat, hi: nat)
    requires Linked(m, bs) && Ordered(bs, lo, hi) && Rewritten(m, m1, m2, m3, bs, i, r, mid)
    requires forall x | 0 <= x < |mid| :: Shown(m3, mid[x], MidPrev(bs, i, mid, x), MidNext(bs, i, r, mid, x))
    ensures Linked(m3, Swap(bs, i, r, mid))
  {
    hide Shown, Patched, Stored, Rehung, Ordered;
    var cs := Swap(bs, i, r, mid);
    forall j: nat | j < |cs|
      ensures ShownAt(m3, cs, j)
    {
      if j < i {
        SwapBefore(m, m1, m2, m3, bs, i, r, mid, lo, hi, j);
      } else if j < i + |mid| {
        SwapInside(m3, bs, i, r, mid, j - i);
      } else {
        SwapAfter(m, m1, m2, m3, bs, i, r, mid, lo, hi, j - |mid| + r);
      }
    }
  }

  lemma SwapBefore(m: seq<byte>, m1: seq<byte>, m2: seq<byte>, m3: seq<byte>, bs: seq<Block>, i: nat, r: nat,
                   mid: seq<Block>, lo: nat, hi: nat, j: nat)
    requires Linked(m, bs) && Ordered(bs, lo, hi) && Rewritten(m, m1, m2, m3, bs, i, r, mid) && j < i
    ensures ShownAt(m3, Swap(bs, i, r, mid), j)
  {
    hide Shown, Patched, Stored, Shaped;
    var cs := Swap(bs, i, r, mid);
    var b, p, n := bs[j], PrevOf(bs, j), NextOf(bs, j);
    assert ShownAt(m, bs, j) && cs[j] == b && PrevOf(cs, j) == p && NextOf(cs, j) == n;
    ShownPatched(m, m1, bs[i].addr, End(bs[i + r - 1]), b, p, n);
    if Moves(bs, i, r, mid) {
      ShownKept(m1, m2, bs[i + r].addr + 8, mid[|mid| - 1].addr, b, p, n);
    }
    ShownPatched(m2, m3, bs[i].addr, End(bs[i + r - 1]), b, p, n);
  }

  lemma SwapInside(m3: seq<byte>, bs: seq<Block>, i: nat, r: nat, mid: seq<Block>, x: nat)
    requires Replaces(bs, i, r, mid) && x < |mid|
             && Shown(m3, mid[x], MidPrev(bs, i, mid, x), MidNext(bs, i, r, mid, x))
    ensures ShownAt(m3, Swap(bs, i, r, mid), i + x)
  {
    hide Shown, Ordered;
    var cs := Swap(bs, i, r, mid);
    assert cs[i + x] == mid[x];
    assert PrevOf(cs, i + x) == MidPrev(bs, i, mid, x) && NextOf(cs, i + x) == MidNext(bs, i, r, mid, x);
  }

  lemma SwapAfter(m: seq<byte>, m1: seq<byte>, m2: seq<byte>, m3: seq<byte>, bs: seq<Block>, i: nat, r: nat,
                  mid: seq<Block>, lo: nat, hi: nat, k: nat)
    requires Linked(m, bs) && Ordered(bs, lo, hi) && Rewritten(m, m1, m2, m3, bs, i, r, mid) && i + r <= k < |bs|
    ensures ShownAt(m3, Swap(bs, i, r, mid), k - r + |mid|)
  {
    hide Shown, Patched, Stored, Shaped;
    var cs, j := Swap(bs, i, r, mid), k - r + |mid|;
    var b, p, n := bs[k], PrevOf(bs, k), NextOf(bs, k);
    assert End(bs[i + r - 1]) <= b.addr;
    assert ShownAt(m, bs, k) && cs[j] == b && NextOf(cs, j) == n;
    ShownPatched(m, m1, bs[i].addr, End(bs[i + r - 1]), b, p, n);
    if Moves(bs, i, r, mid) {
      var a, v := bs[i + r].addr + 8, mid[|mid| - 1].addr;
      if k == i + r {
        PrevStored(m1, m2, b, p, n, v);
      } else {
        assert End(bs[i + r]) <= b.addr;
        ShownKept(m1, m2, a, v, b, p, n);
      }
    }
    var q := if k == i + r then mid[|mid| - 1].addr else p;
    assert PrevOf(cs, j) == q;
    ShownPatched(m2, m3, bs[i].addr, End(bs[i + r - 1]), b, q, n);
  }

  /** A new block behind the last one: fresh header, then the old last block's `next` word. */
  lemma AppendLinked(m: seq<byte>, m1: seq<byte>, m2: seq<byte>, bs: seq<Block>, b: Block, lo: nat, hi: nat)
    requires Linked(m, bs) && Ordered(bs, lo, hi) && hi <= b.addr && !b.used
    requires Patched(m, m1, b.addr, End(b)) && Shown(m1, b, if bs == [] then 0 else bs[|bs| - 1].addr, 0)
    requires if bs == [] then m2 == m1 else Stored(m1, m2, bs[|bs| - 1].addr + 12, b.addr)
    ensures Linked(m2, bs + [b])
  {
    hide Shown, Patched, Stored, Shaped;
    var cs := bs + [b];
    var n := |bs|;
    forall j: nat | j < |cs|
      ensures ShownAt(m2, cs, j)
    {
      if j == n {
        if n > 0 { ShownKept(m1, m2, bs[n - 1].addr + 12, b.addr, b, bs[n - 1].addr, 0); }
      } else {
        assert ShownAt(m, bs, j);
        ShownPatched(m, m1, b.addr, End(b), bs[j], PrevOf(bs, j), NextOf(bs, j));
        if j == n - 1 {
          NextStored(m1, m2, bs[j], PrevOf(bs, j), 0, b.addr);
        } else {
          assert End(bs[j]) <= bs[n - 1].addr;
          ShownKept(m1, m2, bs[n - 1].addr + 12, b.addr, bs[j], PrevOf(bs, j), NextOf(bs, j));
        }
      }
    }
  }

  lemma AppendOrdered(bs: seq<Block>, b: Block, lo: nat, hi: nat, hi2: nat)
    requires Ordered(bs, lo, hi) && lo <= hi <= b.addr && End(b) <= hi2 && !b.used
    ensures Ordered(bs + [b], lo, hi2)
  {
  }

  // ---- What the list means ----

  /** An allocation: the pointer handed out and the size asked for. */
  datatype Region = Region(ptr: nat, size: nat)

  ghost function Allocs(bs: seq<Block>): set<Region> {
    set b | b in bs && b.used :: Region(b.user, b.req)
  }

  /** The sizes of the used blocks, added up. */
  function UsedSum(bs: seq<Block>): nat {
    if bs == [] then 0 else (if bs[0].used then bs[0].size else 0) + UsedSum(bs[1..])
  }

  /** No two neighbours are both free. */
  ghost predicate Coalesced(bs: seq<Block>) {
    forall i | 0 <= i < |bs| - 1 :: bs[i].used || bs[i + 1].used
  }

  /** The blocks fill the range without a gap. */
  ghost predicate Tiled(bs: seq<Block>, lo: nat, hi: nat) {
    && bs != [] && bs[0].addr == lo && End(bs[|bs| - 1]) == hi
    && forall i | 0 <= i < |bs| - 1 :: End(bs[i]) == bs[i + 1].addr
  }

  /** The bytes of every allocation are as they were. */
  ghost predicate DataKept(m: seq<byte>, m2: seq<byte>, allocs: set<Region>) {
    && |m2| == |m|
    && forall a | a in allocs && a.ptr + a.size <= |m| :: m2[a.ptr..a.ptr + a.size] == m[a.ptr..a.ptr + a.size]
  }

  lemma {:induction false} SumJoin(a: seq<Block>, b: seq<Block>)
    ensures UsedSum(a + b) == UsedSum(a) + UsedSum(b)
  {
    if a == [] {
      assert a + b == b;
    } else {
      assert (a + b)[1..] == a[1..] + b;
      SumJoin(a[1..], b);
    }
  }

  lemma SumSwap(bs: seq<Block>, i: nat, r: nat, mid: seq<Block>)
    requires i + r <= |bs|
    ensures UsedSum(Swap(bs, i, r, mid)) + UsedSum(bs[i..i + r]) == UsedSum(bs) + UsedSum(mid)
  {
    hide UsedSum;
    assert bs == bs[..i] + (bs[i..i + r] + bs[i + r..]);
    SumJoin(bs[..i], bs[i..i + r] + bs[i + r..]);
    SumJoin(bs[i..i + r], bs[i + r..]);
    assert Swap(bs, i, r, mid) == bs[..i] + (mid + bs[i + r..]);
    SumJoin(bs[..i], mid + bs[i + r..]);
    SumJoin(mid, bs[i + r..]);
  }

  lemma AllocsJoin(a: seq<Block>, b: seq<Block>)
    ensures Allocs(a + b) == Allocs(a) + Allocs(b)
  {
  }

  lemma AllocsSwap(bs: seq<Block>, i: nat, r: nat, mid: seq<Block>)
    requires i + r <= |bs|
    ensures Allocs(bs) == Allocs(bs[..i]) + Allocs(bs[i..i + r]) + Allocs(bs[i + r..])
    ensures Allocs(Swap(bs, i, r, mid)) == Allocs(bs[..i]) + Allocs(mid) + Allocs(bs[i + r..])
  {
    hide Allocs;
    assert bs == bs[..i] + bs[i..i + r] + bs[i + r..];
    AllocsJoin(bs[..i] + bs[i..i + r], bs[i + r..]);
    AllocsJoin(bs[..i], bs[i..i + r]);
    AllocsJoin(bs[..i] + mid, bs[i + r..]);
    AllocsJoin(bs[..i], mid);
  }

  /** Allocations of different blocks, with the word below each, do not overlap. */
  lemma Disjoint(bs: seq<Block>, lo: nat, hi: nat, i: nat, j: nat)
    requires Ordered(bs, lo, hi) && i < j < |bs| && bs[i].used && bs[j].used
    ensures bs[i].user + bs[i].req <= bs[j].user - 4
  {
  }

  /** So two allocations are the same or lie apart. */
  lemma AllocsApart(bs: seq<Block>, lo: nat, hi: nat, a: Region, b: Region)
    requires Ordered(bs, lo, hi) && a in Allocs(bs) && b in Allocs(bs)
    ensures a == b || a.ptr + a.size <= b.ptr - 4 || b.ptr + b.size <= a.ptr - 4
  {
    hide Allocs;
    var i := AllocIndex(bs, a);
    var j := AllocIndex(bs, b);
    if i < j { Disjoint(bs, lo, hi, i, j); } else if j < i { Disjoint(bs, lo, hi, j, i); }
  }

  /** The stores of a replacement touch no allocation outside it. */
  lemma SwapData(m: seq<byte>, m1: seq<byte>, m2: seq<byte>, m3: seq<byte>, bs: seq<Block>, i: nat, r: nat,
                 mid: seq<Block>, lo: nat, hi: nat)
    requires Ordered(bs, lo, hi) && Rewritten(m, m1, m2, m3, bs, i, r, mid) && hi <= |m|
    ensures DataKept(m, m3, Allocs(bs[..i]) + Allocs(bs[i + r..]))
  {
    hide Stored, Patched, Shaped, Rehung, Allocs, Ordered;
    RehungSize(m1, m2, bs, i, r, mid);
    PatchedSize(m, m1, bs[i].addr, End(bs[i + r - 1]));
    PatchedSize(m2, m3, bs[i].addr, End(bs[i + r - 1]));
    forall a | a in Allocs(bs[..i]) + Allocs(bs[i + r..]) && a.ptr + a.size <= |m|
      ensures m3[a.ptr..a.ptr + a.size] == m[a.ptr..a.ptr + a.size]
    {
      var k := AllocOutside(bs, i, r, a);
      BlockData(m, m1, m2, m3, bs, i, r, mid, lo, hi, k);
    }
  }

  lemma AllocIndex(bs: seq<Block>, a: Region) returns (k: nat)
    requires a in Allocs(bs)
    ensures k < |bs| && bs[k].used && Region(bs[k].user, bs[k].req) == a
  {
    var b :| b in bs && b.used && Region(b.user, b.req) == a;
    k :| 0 <= k < |bs| && bs[k] == b;
  }

  lemma AllocOutside(bs: seq<Block>, i: nat, r: nat, a: Region) returns (k: nat)
    requires i + r <= |bs| && a in Allocs(bs[..i]) + Allocs(bs[i + r..])
    ensures k < |bs| && (k < i || i + r <= k) && bs[k].used && Region(bs[k].user, bs[k].req) == a
  {
    hide Allocs;
    if a in Allocs(bs[..i]) {
      k := AllocIndex(bs[..i], a);
    } else {
      var j := AllocIndex(bs[i + r..], a);
      k := i + r + j;
    }
  }

  lemma PatchedSize(m: seq<byte>, m2: seq<byte>, lo: nat, hi: nat)
    requires Patched(m, m2, lo, hi)
    ensures |m2| == |m|
  {
  }

  lemma RehungSize(m1: seq<byte>, m2: seq<byte>, bs: seq<Block>, i: nat, r: nat, mid: seq<Block>)
    requires Replaces(bs, i, r, mid) && Rehung(m1, m2, bs, i, r, mid)
    ensures |m2| == |m1|
  {
  }

  lemma BlockData(m: seq<byte>, m1: seq<byte>, m2: seq<byte>, m3: seq<byte>, bs: seq<Block>, i: nat, r: nat,
                  mid: seq<Block>, lo: nat, hi: nat, k: nat)
    requires Ordered(bs, lo, hi) && Rewritten(m, m1, m2, m3, bs, i, r, mid) && hi <= |m|
    requires k < |bs| && (k < i || i + r <= k) && bs[k].used
    ensures |m3| == |m| && bs[k].user + bs[k].req <= |m|
    ensures m3[bs[k].user..bs[k].user + bs[k].req] == m[bs[k].user..bs[k].user + bs[k].req]
  {
    var b := bs[k];
    assert lo <= b.addr && End(b) <= hi && Shaped(b);
    assert End(b) <= bs[i].addr || End(bs[i + r - 1]) <= b.addr;
    if Moves(bs, i, r, mid) {
      assert k == i + r || End(b) <= bs[i + r].addr || End(bs[i + r]) <= b.addr;
    }
    assert forall x | b.user <= x < b.user + b.req :: m3[x] == m[x];
  }

  /** Freeing everything leaves one free block over the whole heap. */
  lemma AllFree(bs: seq<Block>, lo: nat, hi: nat)
    requires Tiled(bs, lo, hi) && Coalesced(bs) && Allocs(bs) == {}
    ensures |bs| == 1 && !bs[0].used && bs[0].addr == lo && End(bs[0]) == hi
  {
    hide Allocs;
    if bs[0].used {
      UsedIsAlloc(bs, 0);
    } else if |bs| > 1 {
      UsedIsAlloc(bs, 1);
    }
  }

  lemma UsedIsAlloc(bs: seq<Block>, i: nat)
    requires i < |bs| && bs[i].used
    ensures Region(bs[i].user, bs[i].req) in Allocs(bs)
  {
  }
}

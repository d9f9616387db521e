/** The kernel heap: a block list in virtual memory that grows page by page. */
module Heap {
  import opened Bytes
  import opened HeapBlocks
  import Pmm
  import Paging

  // ---- Alignment ----

  predicate IsPow2(n: nat) {
    n == 1 || (n > 1 && n % 2 == 0 && IsPow2(n / 2))
  }

  /** The least multiple of `align` from `value` on. */
  function AlignUp(value: nat, align: nat): (r: nat)
    requires align > 0
    ensures value <= r < value + align
  {
    (value + align - 1) / align * align
  }

  lemma AlignedUp(value: nat, align: nat)
    requires align > 0
    ensures AlignUp(value, align) % align == 0
  {
    ModOf((value + align - 1) / align, align, 0);
  }

  /** `p` doubled until it covers `align`. */
  function DoubledTo(p: nat, align: nat): nat
    requires p > 0
    decreases align - p
  {
    if p >= align then p else DoubledTo(2 * p, align)
  }

  /** The alignment the heap works with: the least power of two from 8 on that covers `align`. */
  function Normalized(align: nat): nat {
    DoubledTo(MIN_ALIGNMENT, align)
  }

  lemma {:induction false} DoubledMeans(p: nat, align: nat)
    requires IsPow2(p)
    ensures var r := DoubledTo(p, align);
            && IsPow2(r) && r >= p && r >= align && (r > p ==> r < 2 * align)
            && (IsPow2(align) && align >= p ==> r == align)
    decreases align - p
  {
    if p < align {
      Doubled(p);
      if IsPow2(align) { PowerGap(p, align); }
      DoubledMeans(2 * p, align);
    }
  }

  lemma NormalizedMeans(align: nat)
    ensures var r := Normalized(align);
            && IsPow2(r) && r >= MIN_ALIGNMENT && r >= align && (r > MIN_ALIGNMENT ==> r < 2 * align)
            && (IsPow2(align) && align >= MIN_ALIGNMENT ==> r == align)
  {
    assert IsPow2(8) by { assert IsPow2(2); }
    DoubledMeans(8, align);
  }

  /** Rounds an alignment up to a power of two, at least 8. */
  method NormalizeAlign(align: nat) returns (r: nat)
    requires align <= 0x8000_0000
    ensures r == Normalized(align)
  {
    hide IsPow2;
    NormalizedMeans(align);
    r := align;
    if r < MIN_ALIGNMENT {
      r := MIN_ALIGNMENT;
    }
    if !IsPow2(r) {
      var normalized := MIN_ALIGNMENT;
      while normalized < r
        invariant normalized > 0 && DoubledTo(normalized, r) == DoubledTo(MIN_ALIGNMENT, r)
        decreases r - normalized
      {
        normalized := normalized * 2;
      }
      r := normalized;
    }
  }

  lemma Doubled(n: nat)
    requires IsPow2(n)
    ensures IsPow2(2 * n)
  {
  }

  lemma {:induction false} PowerOfEight(n: nat)
    requires IsPow2(n) && n >= 8
    ensures n % 8 == 0
  {
    var m := n / 2;
    assert n == 2 * m && IsPow2(m);
    if n >= 16 {
      PowerOfEight(m);
    } else {
      assert m == 2 * (m / 2) && IsPow2(m / 2);
    }
  }

  // ---- The operations on the list ----

  function FirstOf(bs: seq<Block>): nat {
    if bs == [] then 0 else bs[0].addr
  }

  function LastOf(bs: seq<Block>): nat {
    if bs == [] then 0 else bs[|bs| - 1].addr
  }

  /** Where a request would land in a block: the pointer and the payload bytes it takes. */
  function UserIn(b: Block, align: nat): (u: nat)
    requires align > 0
    ensures b.addr + HEADER + 4 <= u < b.addr + HEADER + 4 + align
  {
    AlignUp(b.addr + HEADER + 4, align)
  }

  function Needs(b: Block, size: nat, align: nat): nat
    requires align > 0
  {
    UserIn(b, align) - (b.addr + HEADER) + size
  }

  predicate Fits(b: Block, size: nat, align: nat)
    requires align > 0
  {
    !b.used && Needs(b, size, align) <= b.size
  }

  /** The same as find_block tests it: the sum is taken modulo 2^32. */
  predicate Passes(b: Block, size: nat, align: nat)
    requires align > 0
  {
    !b.used && Needs(b, size, align) % U32_LIMIT <= b.size
  }

  /** What fits passes. What passes fits exactly when the sum did not wrap. */
  lemma PassesMeans(b: Block, size: nat, align: nat)
    requires align > 0 && b.size < U32_LIMIT
    ensures Fits(b, size, align) ==> Passes(b, size, align)
    ensures Passes(b, size, align) ==> (Fits(b, size, align) <==> Needs(b, size, align) < U32_LIMIT)
  {
    hide Needs;
  }

  /** Below 4 GiB less the alignment no sum wraps, so passing is fitting. */
  lemma PassesIsFits(bs: seq<Block>, lo: nat, hi: nat, size: nat, align: nat)
    requires Ordered(bs, lo, hi) && hi <= U32_LIMIT && align > 0 && size + align + 3 < U32_LIMIT
    ensures forall k | 0 <= k < |bs| :: Passes(bs[k], size, align) <==> Fits(bs[k], size, align)
  {
    hide Needs, Passes, Fits;
    forall k | 0 <= k < |bs|
      ensures Passes(bs[k], size, align) <==> Fits(bs[k], size, align)
    {
      PassesMeans(bs[k], size, align);
      NeedsBelow(bs[k], size, align);
      PassesFree(bs[k], size, align);
    }
  }

  lemma NeedsBelow(b: Block, size: nat, align: nat)
    requires align > 0
    ensures Needs(b, size, align) <= size + align + 3
  {
    hide UserIn;
  }

  lemma SmallSum(a: nat)
    requires a < U32_LIMIT
    ensures a % U32_LIMIT == a
  {
  }

  lemma PassesFree(b: Block, size: nat, align: nat)
    requires align > 0
    ensures Passes(b, size, align) || Fits(b, size, align) ==> !b.used
  {
  }

  /** Every free block passes for a request that makes the sum 2^32. */
  lemma WrapPasses(b: Block, align: nat)
    requires 0 < align < U32_LIMIT - 4 && !b.used && b.size < U32_LIMIT
    ensures var size := U32_LIMIT - (UserIn(b, align) - (b.addr + HEADER));
            0 < size < U32_LIMIT && Passes(b, size, align) && !Fits(b, size, align)
  {
    hide UserIn;
  }

  function Parts(b: Block, usedSize: nat): (mid: seq<Block>)
    requires b.size > usedSize + HEADER + SPLIT_THRESHOLD
  {
    [b.(size := usedSize), Block(b.addr + HEADER + usedSize, b.size - usedSize - HEADER, false, 0, 0)]
  }

  /** The list after block `i` is cut down to `usedSize` payload bytes, when the rest is worth a block. */
  function SplitAt(bs: seq<Block>, i: nat, usedSize: nat): seq<Block>
    requires i < |bs|
  {
    if bs[i].size > usedSize + HEADER + SPLIT_THRESHOLD then Swap(bs, i, 1, Parts(bs[i], usedSize)) else bs
  }

  function Joined(a: Block, b: Block): Block {
    a.(size := a.size + HEADER + b.size)
  }

  /** The list after block `i` takes in its right neighbour, when that one is free. */
  function AbsorbAt(bs: seq<Block>, i: nat): seq<Block>
    requires i < |bs|
  {
    if i + 1 < |bs| && !bs[i + 1].used then Swap(bs, i, 2, [Joined(bs[i], bs[i + 1])]) else bs
  }

  /** Block `i` handed out. */
  function TakeAt(bs: seq<Block>, i: nat, user: nat, req: nat): seq<Block>
    requires i < |bs|
  {
    bs[i := bs[i].(used := true, user := user, req := req)]
  }

  function ReleaseAt(bs: seq<Block>, i: nat): seq<Block>
    requires i < |bs|
  {
    bs[i := bs[i].(used := false)]
  }

  /** The list after block `i` is freed and joined with its free neighbours. */
  function FreeAt(bs: seq<Block>, i: nat): seq<Block>
    requires i < |bs|
  {
    var b2 := AbsorbAt(ReleaseAt(bs, i), i);
    if i > 0 && !bs[i - 1].used then AbsorbAt(b2, i - 1) else b2
  }

  /** How far above the end of the heap a request can make the code compute. */
  function Reach(size: nat, align: nat): nat {
    size + 2 * Normalized(align) + 8 + HEADER + PAGE_SIZE
  }

  /** Subtraction that stops at 0. */
  function Lowered(a: nat, b: nat): nat {
    if a >= b then a - b else 0
  }

  /** The last block made larger. */
  function Wider(bs: seq<Block>, added: nat): seq<Block>
    requires bs != []
  {
    bs[|bs| - 1 := bs[|bs| - 1].(size := bs[|bs| - 1].size + added)]
  }

  /** Of the pages of the range exactly those in `missed` are not mapped; each other one is mapped to a frame of its own
      that the allocator will not hand out. */
  ghost predicate Backed(t: map<nat, Paging.Mapping>, lo: nat, hi: nat, free: set<nat>, missed: set<nat>) {
    && (forall p | lo <= p < hi :: (p in t <==> p !in missed) && (p in t ==> t[p].frame !in free))
    && (forall p, q | lo <= p < q < hi && p in t && q in t :: t[p].frame != t[q].frame)
    && (forall p | p in missed :: lo <= p < hi)
  }

  lemma BackedMore(t: map<nat, Paging.Mapping>, t2: map<nat, Paging.Mapping>, base: nat, end: nat, free: set<nat>,
                   free2: set<nat>, missed: set<nat>, f: nat, flags: nat, mapped: bool)
    requires base <= end && base % PAGE_SIZE == 0 && end % PAGE_SIZE == 0 && f in free && free2 <= free - {f}
    requires t2 == if mapped then t[end / PAGE_SIZE := Paging.Mapping(f, flags)] else t
    requires !mapped ==> end / PAGE_SIZE !in t
    requires Backed(t, base / PAGE_SIZE, end / PAGE_SIZE, free, missed)
    ensures Backed(t2, base / PAGE_SIZE, (end + PAGE_SIZE) / PAGE_SIZE, free2,
                   if mapped then missed else missed + {end / PAGE_SIZE})
    ensures end / PAGE_SIZE !in missed
  {
    assert (end + PAGE_SIZE) / PAGE_SIZE == end / PAGE_SIZE + 1;
  }

  lemma BackedLess(t: map<nat, Paging.Mapping>, lo: nat, hi: nat, free: set<nat>, free2: set<nat>, missed: set<nat>)
    requires free2 <= free && Backed(t, lo, hi, free, missed)
    ensures Backed(t, lo, hi, free2, missed)
  {
  }

  /** Distinct addresses in mapped pages of the heap are distinct places in memory. */
  lemma PhysicallyApart(t: map<nat, Paging.Mapping>, lo: nat, hi: nat, free: set<nat>, missed: set<nat>, a: nat, b: nat)
    requires Backed(t, lo, hi, free, missed) && a != b && lo <= Paging.PageOf(a) < hi && lo <= Paging.PageOf(b) < hi
    requires Paging.PageOf(a) in t && Paging.PageOf(b) in t
    ensures var f, g := t[Paging.PageOf(a)].frame, t[Paging.PageOf(b)].frame;
            f * PAGE_SIZE + a % PAGE_SIZE != g * PAGE_SIZE + b % PAGE_SIZE
  {
    var f, g := t[Paging.PageOf(a)].frame, t[Paging.PageOf(b)].frame;
    if Paging.PageOf(a) == Paging.PageOf(b) {
      assert a % PAGE_SIZE != b % PAGE_SIZE;
    } else {
      assert f != g;
      assert f < g ==> f * PAGE_SIZE + PAGE_SIZE <= g * PAGE_SIZE;
      assert g < f ==> g * PAGE_SIZE + PAGE_SIZE <= f * PAGE_SIZE;
    }
  }

  /** A page at this address can be given both a frame and, if it is missing, a table: the first free frame is taken
      for the page, so a missing table takes two frames of the window. */
  ghost predicate Roomy(m: seq<nat>, pd: nat, addr: nat, free: set<nat>) {
    Paging.HasTable(m, pd, Paging.PdeIndex(addr)) || |Paging.InWindowOf(free)| >= 2
  }

  ghost predicate Filled(bs: seq<Block>, lo: nat, hi: nat) {
    if bs == [] then hi == lo else Tiled(bs, lo, hi)
  }

  /** Where the request lands in a block. The sum is taken modulo 2^32, as the machine does. */
  method Place(block: nat, size: nat, align: nat, ghost b: Block) returns (user: nat, consumed: nat)
    requires align > 0 && block == b.addr
    ensures user == UserIn(b, align) && consumed == Needs(b, size, align) % U32_LIMIT
  {
    hide AlignUp;
    var raw := block + HEADER;
    user := AlignUp(raw + 4, align);
    var prefix := user - raw;
    consumed := (prefix + size) % U32_LIMIT;
  }

  lemma RoomyMeans(m: seq<nat>, pd: nat, addr: nat, free: set<nat>, f: nat)
    requires Pmm.IsLeast(free, f)
    ensures Roomy(m, pd, addr, free) <==>
            Paging.HasTable(m, pd, Paging.PdeIndex(addr)) || Paging.TableToHave(free - {f})
  {
    hide Paging.HasTable, Paging.TableToHave, Paging.InWindowOf, Pmm.IsLeast;
    Paging.WindowLess(free, f);
    Paging.HaveWindow(free - {f});
  }

  /** What one more page does to the supply of window frames, on values. */
  lemma EnoughNext(m: seq<nat>, m2: seq<nat>, pd: nat, addr: nat, free: set<nat>, free1: set<nat>, free2: set<nat>,
                   f: nat, mapped: bool, n: nat)
    requires n > 0 && addr + PAGE_SIZE <= U32_LIMIT && Pmm.IsLeast(free, f) && free1 == free - {f}
    requires var i := Paging.PdeIndex(addr);
             && (mapped <==> Paging.HasTable(m, pd, i) || Paging.TableToHave(free1))
             && Paging.TablesKept(m, m2, pd) && Paging.OneNewTable(m, m2, pd, i)
             && (mapped ==> Paging.HasTable(m2, pd, i)) && (!mapped ==> m2 == m)
             && (!mapped || Paging.HasTable(m, pd, i) ==> free2 == free1)
             && (mapped && !Paging.HasTable(m, pd, i) ==> exists t :: Pmm.IsLeast(free1, t) && free2 == free1 - {t})
    ensures Supplied(m, pd, addr, free, n) <==> mapped && Supplied(m2, pd, addr + PAGE_SIZE, free2, n - 1)
  {
    hide Paging.HasTable, Paging.TableToHave, Paging.InWindowOf, Pmm.IsLeast, Paging.TablesKept, Paging.OneNewTable,
         Paging.PdeIndex;
    var i := Paging.PdeIndex(addr);
    var w := |Paging.InWindowOf(free)|;
    Paging.PageParts(addr);
    NextPage(addr);
    Paging.WindowLess(free, f);
    Paging.HaveWindow(free1);
    Paging.SlotsAfter(m, m2, pd, i);
    Paging.NeededStep(Paging.Slots(m, pd), Paging.PageOf(addr), n, w);
    if mapped && !Paging.HasTable(m, pd, i) {
      var t :| Pmm.IsLeast(free1, t) && free2 == free1 - {t};
      Paging.WindowLess(free1, t);
    }
  }

  lemma NextPage(addr: nat)
    ensures Paging.PageOf(addr + PAGE_SIZE) == Paging.PageOf(addr) + 1
  {
  }

  ghost predicate Supplied(m: seq<nat>, pd: nat, addr: nat, free: set<nat>, n: nat) {
    |Paging.InWindowOf(free)| >= Paging.Needed(Paging.Slots(m, pd), Paging.PageOf(addr), n)
  }

  /** The window has the free frames that mapping `n` pages from `addr` on takes. */
  ghost predicate Enough(pt: Paging.PageTables, addr: nat, n: nat)
    reads pt, pt.mem, pt.pmm, pt.pmm.bitmap
  {
    Supplied(pt.mem[..], pt.pd, addr, pt.pmm.Free(), n)
  }

  function PagesTo(a: nat, b: nat): nat {
    if a <= b then (b - a) / PAGE_SIZE else 0
  }

  lemma PagesLess(a: nat, b: nat)
    requires a < b && a % PAGE_SIZE == 0 && b % PAGE_SIZE == 0
    ensures PagesTo(a, b) > 0 && a + PAGE_SIZE <= b && PagesTo(a + PAGE_SIZE, b) == PagesTo(a, b) - 1
  {
  }

  lemma PagesUp(a: nat, n: nat)
    ensures PagesTo(a, a + n * PAGE_SIZE) == n
    ensures a % PAGE_SIZE == 0 ==> (a + n * PAGE_SIZE) % PAGE_SIZE == 0
  {
  }

  lemma NoneToGo(m: seq<nat>, pd: nat, addr: nat, free: set<nat>)
    ensures Supplied(m, pd, addr, free, PagesTo(addr, addr))
  {
  }

  class Heap {
    const pt: Paging.PageTables
    const mem: array<byte>
    const base: nat
    var end: nat
    var usedBytes: nat
    var first: nat
    var last: nat
    ghost var blocks: seq<Block>
    ghost var gap: bool
    ghost var missed: set<nat>

    /** The list in memory is the ghost list, in order, between base and end. */
    ghost predicate Structure()
      reads this, mem
    {
      && mem.Length == U32_LIMIT && 0 < base <= end <= U32_LIMIT
      && Ordered(blocks, base, end) && Linked(mem[..], blocks)
      && first == FirstOf(blocks) && last == LastOf(blocks)
    }

    ghost predicate Valid()
      reads this, mem, pt, pt.mem, pt.pmm, pt.pmm.bitmap
    {
      && Structure() && pt.Valid() && base % PAGE_SIZE == 0 && end % PAGE_SIZE == 0
      && Coalesced(blocks) && usedBytes == UsedSum(blocks)
      && (!gap ==> Filled(blocks, base, end))
      && Backed(pt.Map(), base / PAGE_SIZE, end / PAGE_SIZE, pt.pmm.Free(), missed)
    }

    /** Tables for all of the window are there and the heap ends inside it. */
    ghost predicate InWindow()
      reads this, pt, pt.mem
    {
      Paging.WindowReady(pt.mem[..], pt.pd) && end <= Paging.WINDOW_FRAMES * PAGE_SIZE
    }

    /** Heap::Init: one free block over the first pages, or an empty list when frames run out. */
    constructor (pt: Paging.PageTables, mem: array<byte>, base: nat, initialPages: nat)
      requires pt.Valid() && mem.Length == U32_LIMIT && base % PAGE_SIZE == 0 && 0 < base
      requires base + initialPages * PAGE_SIZE + PAGE_SIZE <= U32_LIMIT
      modifies mem, pt.mem, pt.pmm`freeFrames, pt.pmm.bitmap
      ensures this.pt == pt && this.mem == mem && this.base == base && Valid() && Allocs(blocks) == {}
      ensures blocks == [] ==> pt.pmm.Free() == {}
      ensures blocks != [] ==> !gap && blocks == [Block(base, end - base - HEADER, false, 0, 0)]
      ensures blocks != [] ==> end == base + (if initialPages == 0 then 1 else initialPages) * PAGE_SIZE
      ensures old(Paging.WindowReady(pt.mem[..], pt.pd)) && end <= Paging.WINDOW_FRAMES * PAGE_SIZE ==>
                InWindow() && missed == {}
      ensures blocks != [] ==> (missed == {} <==> old(Enough(pt, base, if initialPages == 0 then 1 else initialPages)))
    {
      hide Backed, Ordered, Linked, Coalesced, Tiled, UsedSum, Allocs, DataKept, Supplied, PagesTo, Paging.Apart,
           Paging.Translation, Paging.WindowReady, Pmm.FreeSet;
      this.pt, this.mem, this.base, end := pt, mem, base, base;
      usedBytes, first, last, blocks, gap, missed := 0, 0, 0, [], false, {};
      new;
      EmptyHeap(mem[..], base, pt.Map(), pt.pmm.Free());
      var pages := if initialPages == 0 then 1 else initialPages;
      PagesUp(base, pages);
      var ok := Ensure(base + pages * PAGE_SIZE);
      if ok {
        CreateBlockAt(base, end - base - HEADER, 0);
        AppendMeans([], Block(base, end - base - HEADER, false, 0, 0), base, base, end);
      } else {
        gap := true;
      }
    }

    /** Maps fresh frames until the heap reaches `upto`. */
    method Ensure(upto: nat) returns (ok: bool)
      requires Structure() && pt.Valid() && base % PAGE_SIZE == 0 && end % PAGE_SIZE == 0 && upto % PAGE_SIZE == 0
               && upto <= U32_LIMIT
      requires Backed(pt.Map(), base / PAGE_SIZE, end / PAGE_SIZE, pt.pmm.Free(), missed)
      modifies this`end, this`missed, pt.mem, pt.pmm`freeFrames, pt.pmm.bitmap
      ensures Structure() && pt.Valid() && end % PAGE_SIZE == 0 && mem[..] == old(mem[..])
      ensures Backed(pt.Map(), base / PAGE_SIZE, end / PAGE_SIZE, pt.pmm.Free(), missed)
      ensures old(InWindow()) && end <= Paging.WINDOW_FRAMES * PAGE_SIZE ==> InWindow() && missed == old(missed)
      ensures ok ==> end == if old(end) < upto then upto else old(end)
      ensures ok && old(end) < upto ==> (missed == old(missed) <==> old(Enough(pt, end, PagesTo(end, upto))))
      ensures !ok ==> old(end) <= end < upto && pt.pmm.Free() == {}
      ensures old(missed) <= missed && pt.pmm.Free() <= old(pt.pmm.Free())
    {
      hide Ordered, Linked, Backed, Paging.Apart, Pmm.FreeSet, Paging.Translation, Paging.WindowReady, Supplied,
           PagesTo;
      ghost var all := Enough(pt, end, PagesTo(end, upto));
      while end < upto
        invariant Structure() && pt.Valid() && end % PAGE_SIZE == 0 && mem[..] == old(mem[..])
        invariant old(end) <= end && (end <= upto || end == old(end))
        invariant Backed(pt.Map(), base / PAGE_SIZE, end / PAGE_SIZE, pt.pmm.Free(), missed)
        invariant old(InWindow()) ==> Paging.WindowReady(pt.mem[..], pt.pd)
        invariant old(InWindow()) && end <= Paging.WINDOW_FRAMES * PAGE_SIZE ==> missed == old(missed)
        invariant old(missed) <= missed && pt.pmm.Free() <= old(pt.pmm.Free())
        invariant old(end) < upto ==> (all <==> missed == old(missed) && Enough(pt, end, PagesTo(end, upto)))
      {
        PagesLess(end, upto);
        ok := AddPage(PagesTo(end, upto));
        if !ok {
          return;
        }
      }
      NoneToGo(pt.mem[..], pt.pd, end, pt.pmm.Free());
      ok := true;
    }

    /** One turn of the growth loops: takes a frame and maps it behind the heap, with `n` pages to go. The heap grows
        even if the page could not be mapped, and it was mapped exactly when there was room for its table. */
    method AddPage(ghost n: nat) returns (ok: bool)
      requires Structure() && pt.Valid() && base % PAGE_SIZE == 0 && end % PAGE_SIZE == 0
               && end + PAGE_SIZE <= U32_LIMIT && n > 0
      requires Backed(pt.Map(), base / PAGE_SIZE, end / PAGE_SIZE, pt.pmm.Free(), missed)
      modifies this`end, this`missed, pt.mem, pt.pmm`freeFrames, pt.pmm.bitmap
      ensures Structure() && pt.Valid() && old(missed) <= missed && pt.pmm.Free() <= old(pt.pmm.Free())
      ensures Backed(pt.Map(), base / PAGE_SIZE, end / PAGE_SIZE, pt.pmm.Free(), missed)
      ensures old(Paging.WindowReady(pt.mem[..], pt.pd)) ==> Paging.WindowReady(pt.mem[..], pt.pd)
      ensures old(Paging.WindowReady(pt.mem[..], pt.pd)) && end <= Paging.WINDOW_FRAMES * PAGE_SIZE ==>
                missed == old(missed)
      ensures ok ==> end == old(end) + PAGE_SIZE
      ensures ok ==> missed == if old(Roomy(pt.mem[..], pt.pd, end, pt.pmm.Free())) then old(missed)
                               else old(missed) + {Paging.PageOf(old(end))}
      ensures ok ==> (Paging.PageOf(old(end)) in pt.Map() <==> old(Roomy(pt.mem[..], pt.pd, end, pt.pmm.Free())))
      ensures ok ==> (old(Enough(pt, end, n)) <==> missed == old(missed) && Enough(pt, end, n - 1))
      ensures !ok ==> end == old(end) && pt.pmm.Free() == {} && missed == old(missed)
    {
      hide Ordered, Linked, Backed, Paging.Apart, Pmm.FreeSet, Paging.EntryFlags, Paging.Translation, Paging.HasTable,
           Paging.TablesKept, Paging.OneNewTable, Paging.WindowReady, Paging.InWindowOf, Paging.Slots, Paging.PdeIndex,
           Paging.TableToHave, Roomy, Supplied;
      ghost var t, tables, free, gone := pt.Map(), pt.mem[..], pt.pmm.Free(), missed;
      var frame := pt.pmm.AllocFrame();
      ghost var free1 := pt.pmm.Free();
      Paging.ApartLess(tables, pt.pd, free, free1);
      BackedLess(t, base / PAGE_SIZE, end / PAGE_SIZE, free, free1, missed);
      if frame == 0 {
        return false;
      }
      ghost var mapped := pt.MapPage(end, frame, Paging.PRESENT + Paging.RW);
      Paging.ReadyBelow(tables, pt.mem[..], pt.pd, end);
      RoomyMeans(tables, pt.pd, end, free, frame / PAGE_SIZE);
      if !mapped { Paging.NotMapped(tables, pt.pd, end); }
      BackedMore(t, pt.Map(), base, end, free, pt.pmm.Free(), gone, frame / PAGE_SIZE,
                 Paging.EntryFlags(Paging.PRESENT + Paging.RW), mapped);
      EnoughNext(tables, pt.mem[..], pt.pd, end, free, free1, pt.pmm.Free(), frame / PAGE_SIZE, mapped, n);
      if !mapped { missed := missed + {Paging.PageOf(end)}; }
      OrderedWider(blocks, base, end, end + PAGE_SIZE);
      end := end + PAGE_SIZE;
      ok := true;
    }

    method Get32(a: nat) returns (v: nat)
      requires a + 4 <= mem.Length
      ensures v == Word(mem[..], a)
    {
      v := U32(mem[a..a + 4], 0);
    }

    method Put32(a: nat, v: nat)
      requires a + 4 <= mem.Length && v < U32_LIMIT
      modifies mem
      ensures Stored(old(mem[..]), mem[..], a, v)
    {
      var b := Le32(v);
      mem[a], mem[a + 1], mem[a + 2], mem[a + 3] := b[0], b[1], b[2], b[3];
      assert mem[..][a..a + 4] == b;
    }

    /** Writes a header behind the list and hangs it on. */
    method CreateBlockAt(addr: nat, size: nat, prev: nat)
      requires Structure() && prev == last && base <= addr && Ordered(blocks, base, addr) && addr + HEADER + size <= end
      modifies mem, this`first, this`last, this`blocks
      ensures Structure() && blocks == old(blocks) + [Block(addr, size, false, 0, 0)]
      ensures DataKept(old(mem[..]), mem[..], Allocs(blocks))
    {
      hide Ordered, Linked, Stored, Patched, Shown, DataKept, Allocs;
      ghost var bs, m := blocks, mem[..];
      ghost var b := Block(addr, size, false, 0, 0);
      LastInside(m, bs, base, addr);
      WriteHeader(addr, size, prev, 0);
      ghost var m1 := mem[..];
      PatchedWider(m, m1, addr, addr + HEADER, End(b));
      if prev != 0 {
        Put32(prev + 12, addr);
      }
      if first == 0 {
        first := addr;
      }
      last := addr;
      blocks := bs + [b];
      AppendLinked(m, m1, mem[..], bs, b, base, addr);
      AppendOrdered(bs, b, base, addr, end);
      AppendData(m, m1, mem[..], bs, b, base, addr);
      FirstZero(bs, base, addr);
    }

    /** The six header stores. */
    method WriteHeader(addr: nat, size: nat, prev: nat, next: nat)
      requires addr + HEADER + size <= mem.Length == U32_LIMIT && prev < U32_LIMIT && next < U32_LIMIT
      modifies mem
      ensures Patched(old(mem[..]), mem[..], addr, addr + HEADER)
      ensures Shown(mem[..], Block(addr, size, false, 0, 0), prev, next)
    {
      hide Stored, Patched, Shown;
      ghost var lo, hi := addr, addr + HEADER;
      ghost var m0 := mem[..];
      Put32(addr, MAGIC);
      ghost var m1 := mem[..];
      StoredPatches(m0, m1, addr, MAGIC, lo, hi);
      Put32(addr + 4, size);
      ghost var m2 := mem[..];
      StoredPatches(m1, m2, addr + 4, size, lo, hi);
      PatchedTwice(m0, m1, m2, lo, hi);
      Put32(addr + 8, prev);
      ghost var m3 := mem[..];
      StoredPatches(m2, m3, addr + 8, prev, lo, hi);
      PatchedTwice(m0, m2, m3, lo, hi);
      Put32(addr + 12, next);
      ghost var m4 := mem[..];
      StoredPatches(m3, m4, addr + 12, next, lo, hi);
      PatchedTwice(m0, m3, m4, lo, hi);
      Put32(addr + 16, 0);
      ghost var m5 := mem[..];
      StoredPatches(m4, m5, addr + 16, 0, lo, hi);
      PatchedTwice(m0, m4, m5, lo, hi);
      Put32(addr + 20, 0);
      ghost var m6 := mem[..];
      StoredPatches(m5, m6, addr + 20, 0, lo, hi);
      PatchedTwice(m0, m5, m6, lo, hi);
      FreshHeader([m0, m1, m2, m3, m4, m5, m6], addr, size, prev, next);
    }

    /** Cuts a free block down and makes the rest a free block of its own, when it is worth one. */
    method SplitBlock(block: nat, usedSize: nat, ghost i: nat)
      requires Structure() && i < |blocks| && block == blocks[i].addr && !blocks[i].used && usedSize <= blocks[i].size
      modifies mem, this`last, this`blocks
      ensures Structure() && blocks == SplitAt(old(blocks), i, usedSize)
      ensures DataKept(old(mem[..]), mem[..], Allocs(old(blocks)))
    {
      hide Ordered, Linked, Stored, Patched, Shown, DataKept, Allocs, Swap, NextOf, PrevOf, FirstOf, LastOf;
      ghost var bs, m := blocks, mem[..];
      BlockHeader(m, bs, base, end, i);
      var size := Get32(block + 4);
      if size <= usedSize + HEADER + SPLIT_THRESHOLD {
        NothingKept(m, Allocs(bs));
        return;
      }
      ghost var mid := Parts(bs[i], usedSize);
      var newAddr := block + HEADER + usedSize;
      var remaining := size - usedSize - HEADER;
      var next := Get32(block + 12);
      WriteHeader(newAddr, remaining, block, next);
      ghost var m1 := mem[..];
      if next != 0 {
        Put32(next + 8, newAddr);
      } else {
        last := newAddr;
      }
      ghost var m2 := mem[..];
      Put32(block + 12, newAddr);
      ghost var m2a := mem[..];
      Put32(block + 4, usedSize);
      SplitSteps(m, m1, m2, m2a, mem[..], bs, i, usedSize, base, end);
      blocks := Swap(bs, i, 1, mid);
    }

    /** Takes in the block behind, when there is one and it is free. */
    method AbsorbNext(block: nat, ghost i: nat)
      requires Structure() && i < |blocks| && block == blocks[i].addr && !blocks[i].used
      modifies mem, this`last, this`blocks
      ensures Structure() && blocks == AbsorbAt(old(blocks), i)
      ensures DataKept(old(mem[..]), mem[..], Allocs(old(blocks)))
    {
      hide Ordered, Linked, Stored, Patched, Shown, DataKept, Allocs, Swap, NextOf, PrevOf, FirstOf, LastOf;
      ghost var bs, m := blocks, mem[..];
      NothingKept(m, Allocs(bs));
      BlockHeader(m, bs, base, end, i);
      var next := Get32(block + 12);
      if next == 0 {
        return;
      }
      BlockHeader(m, bs, base, end, i + 1);
      var used := Get32(next + 16);
      if used != 0 {
        return;
      }
      Merge(block, next, i, bs, m);
    }

    /** The stores of absorb_next. */
    method Merge(block: nat, next: nat, ghost i: nat, ghost bs: seq<Block>, ghost m: seq<byte>)
      requires Structure() && bs == blocks && m == mem[..] && i + 1 < |bs| && block == bs[i].addr
               && next == bs[i + 1].addr
      requires !bs[i].used && !bs[i + 1].used
      modifies mem, this`last, this`blocks
      ensures Structure() && blocks == Swap(bs, i, 2, [Joined(bs[i], bs[i + 1])])
      ensures DataKept(m, mem[..], Allocs(bs))
    {
      hide Ordered, Linked, Stored, Patched, Shown, DataKept, Allocs, Swap, NextOf, PrevOf, FirstOf, LastOf;
      BlockHeader(m, bs, base, end, i);
      BlockHeader(m, bs, base, end, i + 1);
      StoreJoinedSize(block, next, i, bs, m);
      ghost var m1 := mem[..];
      AbsorbReads(m, m1, bs, base, end, i, Joined(bs[i], bs[i + 1]).size);
      ghost var m2 := SkipNext(block, next, NextOf(bs, i + 1), m1);
      AbsorbSteps(m, m1, m2, mem[..], bs, i, base, end);
      blocks := Swap(bs, i, 2, [Joined(bs[i], bs[i + 1])]);
    }

    /** Adds the size of the next block, and its header, to a block. */
    method StoreJoinedSize(block: nat, next: nat, ghost i: nat, ghost bs: seq<Block>, ghost m: seq<byte>)
      requires Structure() && bs == blocks && m == mem[..] && i + 1 < |bs| && block == bs[i].addr
               && next == bs[i + 1].addr
      modifies mem
      ensures Stored(m, mem[..], block + 4, Joined(bs[i], bs[i + 1]).size)
    {
      hide Ordered, Linked, Stored, NextOf, PrevOf, FirstOf, LastOf, Word;
      BlockHeader(m, bs, base, end, i);
      BlockHeader(m, bs, base, end, i + 1);
      JoinedFits(bs, base, end, i);
      var size := Get32(block + 4);
      var nextSize := Get32(next + 4);
      Put32(block + 4, size + HEADER + nextSize);
    }

    /** Takes the next block out of the list. */
    method SkipNext(block: nat, next: nat, ghost n: nat, ghost m1: seq<byte>) returns (ghost m2: seq<byte>)
      requires mem.Length == U32_LIMIT && m1 == mem[..] && block + HEADER <= U32_LIMIT && next + HEADER <= U32_LIMIT
      requires Header(m1, next).next == n && (n != 0 ==> n + HEADER <= U32_LIMIT) && n < U32_LIMIT
      modifies mem, this`last
      ensures Stored(m1, m2, block + 12, n)
      ensures if n != 0 then Stored(m2, mem[..], n + 8, block) && last == old(last) else mem[..] == m2 && last == block
    {
      hide Stored, Word;
      var after := Get32(next + 12);
      Put32(block + 12, after);
      m2 := mem[..];
      if after != 0 {
        Put32(after + 8, block);
      } else {
        last := block;
      }
    }

    /** The first block that passes the wrapped test. It holds the request exactly when its sum does not wrap. */
    method FindBlock(size: nat, align: nat) returns (block: nat, user: nat, consumed: nat, ghost i: nat)
      requires Structure() && align > 0 && size < U32_LIMIT && end + align + 4 <= U32_LIMIT
      ensures block == 0 ==>
                forall k | 0 <= k < |blocks| :: !Passes(blocks[k], size, align) && !Fits(blocks[k], size, align)
      ensures block != 0 ==> i < |blocks| && block == blocks[i].addr && Passes(blocks[i], size, align)
      ensures block != 0 ==> (Fits(blocks[i], size, align) <==> Needs(blocks[i], size, align) < U32_LIMIT)
      ensures block != 0 ==> user == UserIn(blocks[i], align) && consumed == Needs(blocks[i], size, align) % U32_LIMIT
      ensures block != 0 ==> forall k | 0 <= k < i :: !Passes(blocks[k], size, align) && !Fits(blocks[k], size, align)
    {
      hide Ordered, Linked, NextOf, PrevOf, UserIn, Needs, Word, Fits;
      ghost var m := mem[..];
      user, consumed, i := 0, 0, 0;
      if blocks != [] { BlockHeader(m, blocks, base, end, 0); }
      block := first;
      while block != 0
        invariant 0 <= i <= |blocks| && (block == 0 <==> i == |blocks|) && (block != 0 ==> block == blocks[i].addr)
        invariant forall k | 0 <= k < i :: !Passes(blocks[k], size, align) && !Fits(blocks[k], size, align)
        decreases |blocks| - i
      {
        BlockHeader(m, blocks, base, end, i);
        PassesMeans(blocks[i], size, align);
        var used := Get32(block + 16);
        if used == 0 {
          var blockSize := Get32(block + 4);
          user, consumed := Place(block, size, align, blocks[i]);
          if consumed <= blockSize {
            return;
          }
        }
        block := Get32(block + 12);
        i := i + 1;
      }
    }

    /** Adds pages to the heap: to the last block when it is free, else as a new free block. */
    method GrowHeap(minPayload: nat) returns (ok: bool)
      requires Valid() && end + minPayload + HEADER + PAGE_SIZE <= U32_LIMIT
      modifies this`end, this`first, this`last, this`blocks, this`gap, this`missed, mem, pt.mem, pt.pmm`freeFrames,
               pt.pmm.bitmap
      ensures old(InWindow()) && end <= Paging.WINDOW_FRAMES * PAGE_SIZE ==> InWindow() && missed == old(missed)
      ensures old(missed) <= missed && pt.pmm.Free() <= old(pt.pmm.Free()) && old(end) <= end
      ensures Valid() && Allocs(blocks) == old(Allocs(blocks)) && DataKept(old(mem[..]), mem[..], Allocs(blocks))
      ensures ok ==>
            gap == old(gap) && blocks != [] && !blocks[|blocks| - 1].used
            && blocks[|blocks| - 1].size >= minPayload
      ensures end <= old(end) + minPayload + HEADER + PAGE_SIZE
      ensures !ok ==>
            blocks == old(blocks) && mem[..] == old(mem[..]) && pt.pmm.Free() == {}
            && gap == (old(gap) || end != old(end))
    {
      hide Backed, Ordered, Linked, Coalesced, Tiled, UsedSum, DataKept, Allocs, Stored, Wider, FirstOf;
      ghost var bs, m := blocks, mem[..];
      NothingKept(m, Allocs(bs));
      var totalBytes := minPayload + HEADER;
      var pages := (totalBytes + PAGE_SIZE - 1) / PAGE_SIZE;
      var growStart := end;
      ok := Ensure(growStart + pages * PAGE_SIZE);
      if !ok {
        gap := gap || end != growStart;
        return;
      }
      TakeBytes(growStart, end - growStart, bs, m);
    }

    /** The second half of grow_heap: gives the new bytes to the list. */
    method TakeBytes(growStart: nat, addedBytes: nat, ghost bs: seq<Block>, ghost m: seq<byte>)
      requires Structure() && bs == blocks && m == mem[..] && growStart + addedBytes == end && addedBytes >= HEADER
      requires base <= growStart && Ordered(bs, base, growStart)
      modifies this`first, this`last, this`blocks, mem
      ensures Structure() && Allocs(blocks) == Allocs(bs) && UsedSum(blocks) == UsedSum(bs)
              && DataKept(m, mem[..], Allocs(bs))
      ensures (Coalesced(bs) ==> Coalesced(blocks)) && (Filled(bs, base, growStart) ==> Filled(blocks, base, end))
      ensures blocks != [] && !blocks[|blocks| - 1].used && blocks[|blocks| - 1].size >= addedBytes - HEADER
    {
      hide Ordered, Linked, Coalesced, Tiled, UsedSum, DataKept, Allocs, Stored, Wider, FirstOf;
      LastInside(m, bs, base, growStart);
      if last != 0 {
        var used := Get32(last + 16);
        if used == 0 {
          var size := Get32(last + 4);
          LastFits(bs, base, growStart);
          Put32(last + 4, size + addedBytes);
          blocks := Wider(bs, addedBytes);
          WiderSteps(m, mem[..], bs, base, growStart, addedBytes);
          return;
        }
      }
      CreateBlockAt(growStart, addedBytes - HEADER, last);
      AppendMeans(bs, Block(growStart, addedBytes - HEADER, false, 0, 0), base, growStart, end);
    }

    /** The pointer of a fresh allocation, or 0 when `size` is 0 or the frames run out. */
    method Alloc(size: nat, align: nat) returns (ptr: nat)
      requires Valid() && align <= 0x8000_0000 && end + Reach(size, align) <= U32_LIMIT
      modifies this`end, this`first, this`last, this`blocks, this`gap, this`missed, this`usedBytes, mem, pt.mem,
               pt.pmm`freeFrames, pt.pmm.bitmap
      ensures old(InWindow()) && end <= Paging.WINDOW_FRAMES * PAGE_SIZE ==> InWindow() && missed == old(missed)
      ensures old(missed) <= missed && pt.pmm.Free() <= old(pt.pmm.Free()) && old(end) <= end
      ensures Valid() && DataKept(old(mem[..]), mem[..], old(Allocs(blocks)))
      ensures ptr != 0 ==>
            Allocs(blocks) == old(Allocs(blocks)) + {Region(ptr, size)}
            && Region(ptr, size) !in old(Allocs(blocks))
      ensures ptr != 0 ==> size > 0 && ptr % MIN_ALIGNMENT == 0 && gap == old(gap)
      ensures ptr != 0 && IsPow2(align) ==> ptr % align == 0
      ensures ptr == 0 ==> blocks == old(blocks) && usedBytes == old(usedBytes) && gap == (old(gap) || end != old(end))
      ensures ptr == 0 ==> size == 0 || pt.pmm.Free() == {}
      ensures end <= old(end) + Reach(size, align)
    {
      hide Backed, Ordered, Linked, Coalesced, Tiled, UsedSum, DataKept, Allocs, Fits, UserIn, Needs, IsPow2,
           Normalized;
      NothingKept(mem[..], Allocs(blocks));
      if size == 0 {
        return 0;
      }
      var al := NormalizeAlign(align);
      NormalizedMeans(align);
      ghost var m0 := mem[..];
      ghost var bs0 := blocks;
      var block, user, consumed, i := FindOrGrow(size, al);
      if block == 0 {
        return 0;
      }
      ghost var m1 := mem[..];
      PointerMultiple(blocks[i], al);
      SmallPower(align, user);
      TakeBlock(block, user, consumed, i, size, al);
      DataTwice(m0, m1, mem[..], Allocs(bs0));
      ptr := user;
    }

    /** The search of Alloc, repeated after growing the heap when nothing passes; 0 when the frames run out. */
    method FindOrGrow(size: nat, al: nat) returns (block: nat, user: nat, consumed: nat, ghost i: nat)
      requires Valid() && al > 0 && end + size + 2 * al + 8 + HEADER + PAGE_SIZE <= U32_LIMIT
      modifies this`end, this`first, this`last, this`blocks, this`gap, this`missed, mem
      modifies pt.mem, pt.pmm`freeFrames, pt.pmm.bitmap
      ensures old(InWindow()) && end <= Paging.WINDOW_FRAMES * PAGE_SIZE ==> InWindow() && missed == old(missed)
      ensures old(missed) <= missed && pt.pmm.Free() <= old(pt.pmm.Free()) && old(end) <= end
      ensures Valid() && Allocs(blocks) == old(Allocs(blocks)) && DataKept(old(mem[..]), mem[..], Allocs(blocks))
      ensures block != 0 ==> i < |blocks| && block == blocks[i].addr && Fits(blocks[i], size, al) && gap == old(gap)
      ensures block != 0 ==> user == UserIn(blocks[i], al) && consumed == Needs(blocks[i], size, al)
      ensures block == 0 ==> blocks == old(blocks) && pt.pmm.Free() == {} && gap == (old(gap) || end != old(end))
      ensures end <= old(end) + size + al + 4 + HEADER + PAGE_SIZE
    {
      hide Backed, Ordered, Linked, Coalesced, Tiled, UsedSum, DataKept, Allocs, Fits, Passes, UserIn, Needs;
      NothingKept(mem[..], Allocs(blocks));
      PassesIsFits(blocks, base, end, size, al);
      block, user, consumed, i := FindBlock(size, al);
      if block == 0 {
        var grown := GrowHeap(size + al + 4);
        if !grown {
          return;
        }
        LastHolds(blocks, base, end, size, al);
        PassesIsFits(blocks, base, end, size, al);
        block, user, consumed, i := FindBlock(size, al);
      }
      NeedsBelow(blocks[i], size, al);
      SmallSum(Needs(blocks[i], size, al));
    }

    /** Splits the block found, marks it used and stores its address below the pointer. */
    method TakeBlock(block: nat, user: nat, consumed: nat, ghost i: nat, size: nat, align: nat)
      requires Valid() && size > 0 && IsPow2(align) && align >= MIN_ALIGNMENT
      requires i < |blocks| && block == blocks[i].addr && Fits(blocks[i], size, align)
      requires user == UserIn(blocks[i], align) && consumed == Needs(blocks[i], size, align)
      modifies this`last, this`blocks, this`usedBytes, mem
      ensures Valid() && DataKept(old(mem[..]), mem[..], old(Allocs(blocks))) && user > 0
      ensures Allocs(blocks) == old(Allocs(blocks)) + {Region(user, size)} && Region(user, size) !in old(Allocs(blocks))
    {
      hide Backed, Ordered, Linked, Coalesced, Tiled, UsedSum, DataKept, Allocs, SplitAt, IsPow2;
      ghost var bs, m := blocks, mem[..];
      FitMeans(bs, base, end, i, size, align);
      SplitBlock(block, consumed, i);
      ghost var cs, m1 := blocks, mem[..];
      AllocMeans(bs, cs, i, consumed, user, size, base, end);
      MarkTaken(block, user, i, size);
      SplitAllocs(bs, i, consumed);
      DataTwice(m, m1, mem[..], Allocs(bs));
    }

    method MarkTaken(block: nat, user: nat, ghost i: nat, ghost size: nat)
      requires Structure() && i < |blocks| && block == blocks[i].addr && !blocks[i].used && user >= 4
      requires Shaped(blocks[i].(used := true, user := user, req := size))
      modifies this`blocks, this`usedBytes, mem
      ensures Structure() && blocks == TakeAt(old(blocks), i, user, size)
      ensures usedBytes == old(usedBytes) + old(blocks)[i].size && DataKept(old(mem[..]), mem[..], Allocs(old(blocks)))
    {
      hide Ordered, Linked, DataKept, Allocs, Stored, Word, NextOf, PrevOf, FirstOf, LastOf;
      ghost var bs, m := blocks, mem[..];
      BlockHeader(m, bs, base, end, i);
      Put32(block + 16, 1);
      ghost var m1 := mem[..];
      Put32(user - 4, block);
      TakeSteps(m, m1, mem[..], bs, i, user, size, base, end);
      blocks := TakeAt(bs, i, user, size);
      BlockHeader(mem[..], blocks, base, end, i);
      var blockSize := Get32(block + 4);
      usedBytes := usedBytes + blockSize;
    }

    /** Releases the block of a live pointer and joins it with its free neighbours; 0 is ignored. */
    method Free(ptr: nat, ghost i: nat)
      requires Valid() && (ptr != 0 ==> i < |blocks| && blocks[i].used && blocks[i].user == ptr)
      modifies this`last, this`blocks, this`usedBytes, mem
      ensures Valid()
      ensures ptr != 0 ==> Allocs(blocks) == old(Allocs(blocks)) - {Region(ptr, old(blocks)[i].req)}
      ensures ptr != 0 ==> usedBytes == old(usedBytes) - old(blocks)[i].size
      ensures DataKept(old(mem[..]), mem[..], Allocs(blocks))
      ensures ptr == 0 ==> blocks == old(blocks) && mem[..] == old(mem[..])
    {
      hide Backed, Ordered, Linked, Coalesced, Tiled, UsedSum, DataKept, Allocs, Stored, NextOf, PrevOf, FirstOf,
           LastOf, ReleaseAt;
      ghost var bs, m := blocks, mem[..];
      NothingKept(m, Allocs(bs));
      if ptr == 0 {
        return;
      }
      BlockHeader(m, bs, base, end, i);
      var block := Get32(ptr - 4);
      var magic := Get32(block);
      var used := Get32(block + 16);
      if block == 0 || magic != MAGIC || used == 0 {
        return;
      }
      Release(block, i, bs, m);
      ghost var b1, m1 := blocks, mem[..];
      JoinNeighbours(block, i, bs);
      DataTwice(m, m1, mem[..], Allocs(b1));
    }

    /** Clears the used mark and takes the size off the account. */
    method Release(block: nat, ghost i: nat, ghost bs: seq<Block>, ghost m: seq<byte>)
      requires Structure() && bs == blocks && m == mem[..] && i < |bs| && bs[i].used && block == bs[i].addr
               && usedBytes == UsedSum(bs)
      modifies this`blocks, this`usedBytes, mem
      ensures Structure() && blocks == ReleaseAt(bs, i) && |blocks| == |bs| && blocks[i].addr == block
              && !blocks[i].used
      ensures usedBytes == UsedSum(blocks) == UsedSum(bs) - bs[i].size
      ensures Allocs(blocks) == Allocs(bs) - {Region(bs[i].user, bs[i].req)} && DataKept(m, mem[..], Allocs(blocks))
      ensures Tiled(bs, base, end) ==> Tiled(blocks, base, end)
    {
      hide Ordered, Linked, Tiled, UsedSum, DataKept, Allocs, Stored, NextOf, PrevOf, FirstOf, LastOf, ReleaseAt;
      BlockHeader(m, bs, base, end, i);
      Put32(block + 16, 0);
      ReleaseSteps(m, mem[..], bs, i, base, end);
      ReleaseMeans(bs, i, base, end);
      blocks := ReleaseAt(bs, i);
      BlockHeader(mem[..], blocks, base, end, i);
      var size := Get32(block + 4);
      usedBytes := Lowered(usedBytes, size);
    }

    /** The two absorb_next calls at the end of Free. */
    method JoinNeighbours(block: nat, ghost i: nat, ghost bs: seq<Block>)
      requires Structure() && i < |blocks| && block == blocks[i].addr && !blocks[i].used
      requires i < |bs| && blocks == ReleaseAt(bs, i) && Coalesced(bs)
      modifies this`last, this`blocks, mem
      ensures Structure() && Coalesced(blocks) && UsedSum(blocks) == UsedSum(old(blocks))
              && Allocs(blocks) == Allocs(old(blocks))
      ensures Tiled(old(blocks), base, end) ==> Tiled(blocks, base, end)
      ensures DataKept(old(mem[..]), mem[..], Allocs(blocks)) && blocks != []
    {
      hide Backed, Ordered, Linked, Coalesced, Tiled, UsedSum, DataKept, Allocs, Word;
      ghost var b1, m := blocks, mem[..];
      AbsorbNext(block, i);
      ghost var b2, m1 := blocks, mem[..];
      AbsorbMeans(b1, i, base, end);
      BlockHeader(m1, b2, base, end, i);
      var prev := Get32(block + 8);
      ghost var left := false;
      if prev != 0 {
        BlockHeader(m1, b2, base, end, i - 1);
        var prevUsed := Get32(prev + 16);
        if prevUsed == 0 {
          left := true;
          AbsorbNext(prev, i - 1);
          AbsorbMeans(b2, i - 1, base, end);
          DataTwice(m, m1, mem[..], Allocs(b1));
        }
      }
      FreeCoalesced(bs, i);
    }

    method Used() returns (r: nat)
      requires Valid()
      ensures r == UsedSum(blocks)
    {
      r := usedBytes;
    }

    /** A client's store into its own allocation leaves the heap as it was. */
    method Poke(ptr: nat, off: nat, v: byte, ghost i: nat)
      requires Valid() && i < |blocks| && blocks[i].used && blocks[i].user == ptr && off < blocks[i].req
      modifies mem
      ensures Valid() && ptr + off < mem.Length && mem[..] == old(mem[..])[ptr + off := v]
    {
      hide Coalesced, Tiled, UsedSum;
      assert Shaped(blocks[i]) && End(blocks[i]) <= end;
      ghost var m := mem[..];
      mem[ptr + off] := v;
      PokeLinked(m, mem[..], blocks, base, end, i, ptr + off);
    }
  }

  lemma LastInside(m: seq<byte>, bs: seq<Block>, lo: nat, hi: nat)
    requires Ordered(bs, lo, hi) && Linked(m, bs) && lo > 0 && hi <= |m|
    ensures bs != [] ==>
          0 < LastOf(bs) && LastOf(bs) + HEADER <= hi
          && Header(m, LastOf(bs)).used == if bs[|bs| - 1].used then 1 else 0
    ensures bs != [] ==> Header(m, LastOf(bs)).size == bs[|bs| - 1].size
  {
    if bs != [] { assert ShownAt(m, bs, |bs| - 1); }
  }

  lemma EmptyHeap(m: seq<byte>, lo: nat, t: map<nat, Paging.Mapping>, free: set<nat>)
    ensures Ordered([], lo, lo) && Linked(m, []) && Coalesced([]) && UsedSum([]) == 0 && Allocs([]) == {}
    ensures Backed(t, lo / PAGE_SIZE, lo / PAGE_SIZE, free, {})
  {
  }

  lemma OrderedWider(bs: seq<Block>, lo: nat, hi: nat, hi2: nat)
    requires Ordered(bs, lo, hi) && hi <= hi2
    ensures Ordered(bs, lo, hi2)
  {
  }

  lemma PatchedWider(m: seq<byte>, m2: seq<byte>, lo: nat, hi: nat, hi2: nat)
    requires Patched(m, m2, lo, hi) && hi <= hi2
    ensures Patched(m, m2, lo, hi2)
  {
  }

  lemma FirstZero(bs: seq<Block>, lo: nat, hi: nat)
    requires Ordered(bs, lo, hi) && lo > 0
    ensures FirstOf(bs) == 0 <==> bs == []
  {
  }

  lemma AppendData(m: seq<byte>, m1: seq<byte>, m2: seq<byte>, bs: seq<Block>, b: Block, lo: nat, hi: nat)
    requires Ordered(bs, lo, hi) && hi <= b.addr && !b.used && hi <= |m|
    requires Patched(m, m1, b.addr, b.addr + HEADER)
    requires if bs == [] then m2 == m1 else Stored(m1, m2, bs[|bs| - 1].addr + 12, b.addr)
    ensures DataKept(m, m2, Allocs(bs + [b]))
  {
    hide Allocs;
    forall a | a in Allocs(bs + [b]) && a.ptr + a.size <= |m|
      ensures m2[a.ptr..a.ptr + a.size] == m[a.ptr..a.ptr + a.size]
    {
      AllocsJoin(bs, [b]);
      NoAlloc(b);
      var k := AllocIndex(bs, a);
      var c := bs[k];
      assert End(c) <= hi && Shaped(c);
      assert k == |bs| - 1 || End(c) <= bs[|bs| - 1].addr;
    }
  }

  /** What the words of a block's header say. */
  lemma BlockHeader(m: seq<byte>, bs: seq<Block>, lo: nat, hi: nat, i: nat)
    requires Ordered(bs, lo, hi) && Linked(m, bs) && 0 < lo && hi <= |m| && i < |bs|
    ensures 0 < bs[i].addr && End(bs[i]) <= hi
    ensures Header(m, bs[i].addr) == Hdr(MAGIC, bs[i].size, PrevOf(bs, i), NextOf(bs, i), if bs[i].used then 1 else 0)
    ensures NextOf(bs, i) == 0 <==> i == |bs| - 1
    ensures i + 1 < |bs| ==> NextOf(bs, i) == bs[i + 1].addr
    ensures PrevOf(bs, i) == 0 <==> i == 0
    ensures NextOf(bs, i) != 0 ==> End(bs[i]) <= NextOf(bs, i) && NextOf(bs, i) + HEADER <= hi
    ensures PrevOf(bs, i) != 0 ==> PrevOf(bs, i) + HEADER <= hi
    ensures bs[i].used ==> bs[i].user >= 4 && bs[i].user <= hi && Word(m, bs[i].user - 4) == bs[i].addr
  {
    hide Word;
    assert ShownAt(m, bs, i);
  }

  lemma NothingKept(m: seq<byte>, allocs: set<Region>)
    ensures DataKept(m, m, allocs)
  {
  }

  lemma PartsReplace(bs: seq<Block>, i: nat, usedSize: nat, lo: nat, hi: nat)
    requires Ordered(bs, lo, hi) && i < |bs| && !bs[i].used && bs[i].size > usedSize + HEADER + SPLIT_THRESHOLD
    ensures Replaces(bs, i, 1, Parts(bs[i], usedSize))
  {
  }

  lemma SplitSteps(m: seq<byte>, m1: seq<byte>, m2: seq<byte>, m2a: seq<byte>, m3: seq<byte>, bs: seq<Block>, i: nat,
                   usedSize: nat, lo: nat, hi: nat)
    requires Linked(m, bs) && Ordered(bs, lo, hi) && hi <= |m| && 0 < lo
    requires i < |bs| && !bs[i].used && bs[i].size > usedSize + HEADER + SPLIT_THRESHOLD
    requires var b := bs[i];
             var a := b.addr + HEADER + usedSize;
             && Patched(m, m1, a, a + HEADER) && Shown(m1, Block(a, b.size - usedSize - HEADER, false, 0, 0), b.addr,
                                                       NextOf(bs, i))
             && (if NextOf(bs, i) != 0 then Stored(m1, m2, NextOf(bs, i) + 8, a) else m2 == m1)
             && Stored(m2, m2a, b.addr + 12, a) && Stored(m2a, m3, b.addr + 4, usedSize)
    ensures var cs := Swap(bs, i, 1, Parts(bs[i], usedSize));
            && Linked(m3, cs) && Ordered(cs, lo, hi) && FirstOf(cs) == FirstOf(bs)
            && LastOf(cs) == (if NextOf(bs, i) != 0 then LastOf(bs) else bs[i].addr + HEADER + usedSize)
            && DataKept(m, m3, Allocs(bs))
  {
    hide Ordered, Linked, Stored, Patched, Shown, DataKept, Allocs, Rewritten, Replaces, Swap, Rehung;
    BlockHeader(m, bs, lo, hi, i);
    PartsReplace(bs, i, usedSize, lo, hi);
    SplitRewritten(m, m1, m2, m2a, m3, bs, i, usedSize, lo, hi);
    SplitShown(m, m1, m2, m2a, m3, bs, i, usedSize, lo, hi);
    var mid := Parts(bs[i], usedSize);
    SwapLinked(m, m1, m2, m3, bs, i, 1, mid, lo, hi);
    SwapOrdered(bs, i, 1, mid, lo, hi);
    SwapData(m, m1, m2, m3, bs, i, 1, mid, lo, hi);
    FreeAllocs(bs, i, 1);
    SwapEnds(bs, i, 1, mid);
  }

  lemma SwapEnds(bs: seq<Block>, i: nat, r: nat, mid: seq<Block>)
    requires 0 < r && i + r <= |bs| && 0 < |mid| && mid[0].addr == bs[i].addr
    ensures FirstOf(Swap(bs, i, r, mid)) == FirstOf(bs)
    ensures LastOf(Swap(bs, i, r, mid)) == if i + r < |bs| then LastOf(bs) else mid[|mid| - 1].addr
  {
  }

  /** Blocks that are not used hold no allocations. */
  lemma FreeAllocs(bs: seq<Block>, i: nat, r: nat)
    requires i + r <= |bs| && forall k | i <= k < i + r :: !bs[k].used
    ensures Allocs(bs) == Allocs(bs[..i]) + Allocs(bs[i + r..])
  {
    AllocsSwap(bs, i, r, []);
    assert Allocs(bs[i..i + r]) == {};
  }

  lemma SplitRewritten(m: seq<byte>, m1: seq<byte>, m2: seq<byte>, m2a: seq<byte>, m3: seq<byte>, bs: seq<Block>,
                       i: nat, usedSize: nat, lo: nat, hi: nat)
    requires Ordered(bs, lo, hi) && hi <= |m| && 0 < lo
    requires i < |bs| && !bs[i].used && bs[i].size > usedSize + HEADER + SPLIT_THRESHOLD
             && Replaces(bs, i, 1, Parts(bs[i], usedSize))
    requires var a := bs[i].addr + HEADER + usedSize;
             && Patched(m, m1, a, a + HEADER)
             && (if NextOf(bs, i) != 0 then Stored(m1, m2, NextOf(bs, i) + 8, a) else m2 == m1)
             && Stored(m2, m2a, bs[i].addr + 12, a) && Stored(m2a, m3, bs[i].addr + 4, usedSize)
    ensures Rewritten(m, m1, m2, m3, bs, i, 1, Parts(bs[i], usedSize))
  {
    hide Stored, Replaces;
    var b := bs[i];
    var a := b.addr + HEADER + usedSize;
    var lo2, hi2 := b.addr, End(b);
    assert Patched(m, m1, lo2, hi2);
    StoredPatches(m2, m2a, b.addr + 12, a, lo2, hi2);
    StoredPatches(m2a, m3, b.addr + 4, usedSize, lo2, hi2);
    PatchedTwice(m2, m2a, m3, lo2, hi2);
    assert i + 1 < |bs| ==> bs[i + 1].addr >= lo;
  }

  lemma SplitShown(m: seq<byte>, m1: seq<byte>, m2: seq<byte>, m2a: seq<byte>, m3: seq<byte>, bs: seq<Block>, i: nat,
                   usedSize: nat, lo: nat, hi: nat)
    requires Linked(m, bs) && Ordered(bs, lo, hi) && hi <= |m| && 0 < lo
    requires i < |bs| && !bs[i].used && bs[i].size > usedSize + HEADER + SPLIT_THRESHOLD
    requires var b := bs[i];
             var a := b.addr + HEADER + usedSize;
             && Patched(m, m1, a, a + HEADER) && Shown(m1, Block(a, b.size - usedSize - HEADER, false, 0, 0), b.addr,
                                                       NextOf(bs, i))
             && (if NextOf(bs, i) != 0 then Stored(m1, m2, NextOf(bs, i) + 8, a) else m2 == m1)
             && Stored(m2, m2a, b.addr + 12, a) && Stored(m2a, m3, b.addr + 4, usedSize)
    ensures var mid := Parts(bs[i], usedSize);
            forall x | 0 <= x < |mid| :: Shown(m3, mid[x], MidPrev(bs, i, mid, x), MidNext(bs, i, 1, mid, x))
  {
    hide Linked, Ordered, Stored, Patched, Shown;
    BlockHeader(m, bs, lo, hi, i);
    ShownOf(m, bs, i);
    var b, p, n := bs[i], PrevOf(bs, i), NextOf(bs, i);
    var a := b.addr + HEADER + usedSize;
    var b0, b1 := b.(size := usedSize), Block(a, b.size - usedSize - HEADER, false, 0, 0);
    CutShown(m, m1, b, usedSize, p, n, a);
    if n != 0 {
      SameSize(m1, m2, n + 8, a);
      ShownKept(m1, m2, n + 8, a, b1, b.addr, n);
      HeaderKept(m1, m2, n + 8, a, b.addr);
    }
    CutDown(m2, m2a, m3, b, usedSize, p, n, a);
    ShownKept(m2, m2a, b.addr + 12, a, b1, b.addr, n);
    ShownKept(m2a, m3, b.addr + 4, usedSize, b1, b.addr, n);
    assert Parts(b, usedSize) == [b0, b1];
  }

  /** The old header survives the stores behind it. */
  lemma CutShown(m: seq<byte>, m1: seq<byte>, b: Block, usedSize: nat, p: nat, n: nat, a: nat)
    requires Shown(m, b, p, n) && !b.used && a == b.addr + HEADER + usedSize && a + HEADER <= End(b)
             && Patched(m, m1, a, a + HEADER)
    ensures |m1| == |m| && Header(m1, b.addr) == Header(m, b.addr)
  {
    hide Word;
    WordPatched(m, m1, a, a + HEADER, b.addr);
    WordPatched(m, m1, a, a + HEADER, b.addr + 4);
    WordPatched(m, m1, a, a + HEADER, b.addr + 8);
    WordPatched(m, m1, a, a + HEADER, b.addr + 12);
    WordPatched(m, m1, a, a + HEADER, b.addr + 16);
  }

  lemma CutDown(m2: seq<byte>, m2a: seq<byte>, m3: seq<byte>, b: Block, usedSize: nat, p: nat, n: nat, a: nat)
    requires End(b) <= |m2| && !b.used && usedSize <= b.size
    requires Header(m2, b.addr) == Hdr(MAGIC, b.size, p, n, 0)
    requires Stored(m2, m2a, b.addr + 12, a) && Stored(m2a, m3, b.addr + 4, usedSize)
    ensures Shown(m3, b.(size := usedSize), p, a)
  {
    hide Stored, Word;
    SameSize(m2, m2a, b.addr + 12, a);
    SameSize(m2a, m3, b.addr + 4, usedSize);
    FieldStored(m2, m2a, b.addr, 3, a);
    FieldStored(m2a, m3, b.addr, 1, usedSize);
  }

  lemma JoinedFits(bs: seq<Block>, lo: nat, hi: nat, i: nat)
    requires Ordered(bs, lo, hi) && i + 1 < |bs|
    ensures End(Joined(bs[i], bs[i + 1])) <= End(bs[i + 1]) <= hi
  {
  }

  lemma AbsorbReads(m: seq<byte>, m1: seq<byte>, bs: seq<Block>, lo: nat, hi: nat, i: nat, v: nat)
    requires Ordered(bs, lo, hi) && Linked(m, bs) && 0 < lo && hi <= |m| && i + 1 < |bs|
             && Stored(m, m1, bs[i].addr + 4, v)
    ensures |m1| == |m| && bs[i + 1].addr + HEADER <= |m| && Header(m1, bs[i + 1].addr).next == NextOf(bs, i + 1)
  {
    hide Stored, Linked, Word;
    SameSize(m, m1, bs[i].addr + 4, v);
    BlockHeader(m, bs, lo, hi, i + 1);
    assert End(bs[i]) <= bs[i + 1].addr;
    HeaderKept(m, m1, bs[i].addr + 4, v, bs[i + 1].addr);
  }

  lemma AbsorbSteps(m: seq<byte>, m1: seq<byte>, m2: seq<byte>, m3: seq<byte>, bs: seq<Block>, i: nat, lo: nat, hi: nat)
    requires Linked(m, bs) && Ordered(bs, lo, hi) && hi <= |m| && 0 < lo
    requires i + 1 < |bs| && !bs[i].used && !bs[i + 1].used
    requires var b, n := Joined(bs[i], bs[i + 1]), NextOf(bs, i + 1);
             && Stored(m, m1, b.addr + 4, b.size) && Stored(m1, m2, b.addr + 12, n)
             && (if n != 0 then Stored(m2, m3, n + 8, b.addr) else m3 == m2)
    ensures var cs := Swap(bs, i, 2, [Joined(bs[i], bs[i + 1])]);
            && Linked(m3, cs) && Ordered(cs, lo, hi) && FirstOf(cs) == FirstOf(bs)
            && LastOf(cs) == (if NextOf(bs, i + 1) != 0 then LastOf(bs) else bs[i].addr)
            && DataKept(m, m3, Allocs(bs))
  {
    hide Ordered, Linked, Stored, Patched, Shown, DataKept, Allocs, Rewritten, Replaces, Swap, Rehung;
    var mid := [Joined(bs[i], bs[i + 1])];
    BlockHeader(m, bs, lo, hi, i);
    BlockHeader(m, bs, lo, hi, i + 1);
    AbsorbReplaces(bs, i, lo, hi);
    AbsorbRewritten(m, m1, m2, m3, bs, i, lo, hi);
    AbsorbShown(m, m1, m2, m3, bs, i, lo, hi);
    SwapLinked(m, m2, m3, m3, bs, i, 2, mid, lo, hi);
    SwapOrdered(bs, i, 2, mid, lo, hi);
    SwapData(m, m2, m3, m3, bs, i, 2, mid, lo, hi);
    FreeAllocs(bs, i, 2);
    SwapEnds(bs, i, 2, mid);
  }

  lemma AbsorbReplaces(bs: seq<Block>, i: nat, lo: nat, hi: nat)
    requires Ordered(bs, lo, hi) && i + 1 < |bs| && !bs[i].used
    ensures Replaces(bs, i, 2, [Joined(bs[i], bs[i + 1])]) && End(Joined(bs[i], bs[i + 1])) <= End(bs[i + 1])
  {
  }

  lemma AbsorbRewritten(m: seq<byte>, m1: seq<byte>, m2: seq<byte>, m3: seq<byte>, bs: seq<Block>, i: nat, lo: nat,
                        hi: nat)
    requires Ordered(bs, lo, hi) && hi <= |m| && 0 < lo && i + 1 < |bs|
             && Replaces(bs, i, 2, [Joined(bs[i], bs[i + 1])])
    requires var b, n := Joined(bs[i], bs[i + 1]), NextOf(bs, i + 1);
             && Stored(m, m1, b.addr + 4, b.size) && Stored(m1, m2, b.addr + 12, n)
             && (if n != 0 then Stored(m2, m3, n + 8, b.addr) else m3 == m2)
    ensures Rewritten(m, m2, m3, m3, bs, i, 2, [Joined(bs[i], bs[i + 1])])
  {
    hide Stored, Replaces;
    var b, n := Joined(bs[i], bs[i + 1]), NextOf(bs, i + 1);
    var lo2, hi2 := bs[i].addr, End(bs[i + 1]);
    assert End(bs[i]) <= bs[i + 1].addr;
    StoredPatches(m, m1, b.addr + 4, b.size, lo2, hi2);
    StoredPatches(m1, m2, b.addr + 12, n, lo2, hi2);
    PatchedTwice(m, m1, m2, lo2, hi2);
    assert i + 2 < |bs| ==> bs[i + 2].addr >= lo;
  }

  lemma AbsorbShown(m: seq<byte>, m1: seq<byte>, m2: seq<byte>, m3: seq<byte>, bs: seq<Block>, i: nat, lo: nat, hi: nat)
    requires Linked(m, bs) && Ordered(bs, lo, hi) && hi <= |m| && 0 < lo && i + 1 < |bs| && !bs[i].used
    requires var b, n := Joined(bs[i], bs[i + 1]), NextOf(bs, i + 1);
             && Stored(m, m1, b.addr + 4, b.size) && Stored(m1, m2, b.addr + 12, n)
             && (if n != 0 then Stored(m2, m3, n + 8, b.addr) else m3 == m2)
    ensures Shown(m3, Joined(bs[i], bs[i + 1]), PrevOf(bs, i), NextOf(bs, i + 1))
  {
    hide Linked, Ordered, Stored, Shown;
    BlockHeader(m, bs, lo, hi, i + 1);
    JoinedFits(bs, lo, hi, i);
    ShownOf(m, bs, i);
    var b, p, n := Joined(bs[i], bs[i + 1]), PrevOf(bs, i), NextOf(bs, i + 1);
    SizeStored(m, m1, bs[i], p, NextOf(bs, i), b.size);
    NextStored(m1, m2, b, p, NextOf(bs, i), n);
    if n != 0 {
      ShownKept(m2, m3, n + 8, b.addr, b, p, n);
    }
  }

  lemma ShownOf(m: seq<byte>, bs: seq<Block>, i: nat)
    requires Linked(m, bs) && i < |bs|
    ensures Shown(m, bs[i], PrevOf(bs, i), NextOf(bs, i))
  {
    assert ShownAt(m, bs, i);
  }

  lemma LastFits(bs: seq<Block>, lo: nat, hi: nat)
    requires Ordered(bs, lo, hi) && bs != []
    ensures bs[|bs| - 1].addr + HEADER + bs[|bs| - 1].size <= hi
  {
  }

  lemma WiderSteps(m: seq<byte>, m2: seq<byte>, bs: seq<Block>, lo: nat, hi: nat, added: nat)
    requires Ordered(bs, lo, hi) && Linked(m, bs) && 0 < lo && hi + added <= |m| && bs != [] && !bs[|bs| - 1].used
    requires Stored(m, m2, LastOf(bs) + 4, bs[|bs| - 1].size + added)
    ensures var cs := Wider(bs, added);
            && Ordered(cs, lo, hi + added) && Linked(m2, cs) && FirstOf(cs) == FirstOf(bs) && LastOf(cs) == LastOf(bs)
            && cs != [] && cs[|cs| - 1] == bs[|bs| - 1].(size := bs[|bs| - 1].size + added)
            && (Coalesced(bs) ==> Coalesced(cs)) && UsedSum(cs) == UsedSum(bs) && Allocs(cs) == Allocs(bs)
            && (Tiled(bs, lo, hi) ==> Tiled(cs, lo, hi + added)) && DataKept(m, m2, Allocs(bs))
  {
    hide Linked, Ordered, Stored, UsedSum, DataKept, Allocs, Coalesced, Tiled;
    WiderLinked(m, m2, bs, lo, hi, added);
    WiderMeans(bs, lo, hi, added);
    LastData(m, m2, bs, lo, hi, bs[|bs| - 1].size + added);
  }

  lemma WiderLinked(m: seq<byte>, m2: seq<byte>, bs: seq<Block>, lo: nat, hi: nat, added: nat)
    requires Ordered(bs, lo, hi) && Linked(m, bs) && 0 < lo && hi + added <= |m| && bs != [] && !bs[|bs| - 1].used
    requires Stored(m, m2, LastOf(bs) + 4, bs[|bs| - 1].size + added)
    ensures Linked(m2, Wider(bs, added))
  {
    hide Stored, Shown, Shaped;
    var cs := Wider(bs, added);
    var n := |bs| - 1;
    SameSize(m, m2, LastOf(bs) + 4, bs[n].size + added);
    forall j: nat | j < |cs|
      ensures ShownAt(m2, cs, j)
    {
      ShownOf(m, bs, j);
      assert PrevOf(cs, j) == PrevOf(bs, j) && NextOf(cs, j) == NextOf(bs, j);
      if j == n {
        SizeStored(m, m2, bs[n], PrevOf(bs, n), 0, bs[n].size + added);
      } else {
        assert End(bs[j]) <= bs[n].addr;
        ShownKept(m, m2, bs[n].addr + 4, bs[n].size + added, bs[j], PrevOf(bs, j), NextOf(bs, j));
      }
    }
  }

  lemma WiderMeans(bs: seq<Block>, lo: nat, hi: nat, added: nat)
    requires Ordered(bs, lo, hi) && bs != [] && !bs[|bs| - 1].used
    ensures var cs := Wider(bs, added);
            && Ordered(cs, lo, hi + added) && FirstOf(cs) == FirstOf(bs) && LastOf(cs) == LastOf(bs)
            && (Coalesced(bs) ==> Coalesced(cs)) && UsedSum(cs) == UsedSum(bs) && Allocs(cs) == Allocs(bs)
            && (Tiled(bs, lo, hi) ==> Tiled(cs, lo, hi + added))
  {
    hide UsedSum, Allocs, Ordered, Tiled, Coalesced, Wider, FirstOf, LastOf;
    WiderSums(bs, added);
    WiderOrder(bs, lo, hi, added);
    WiderCoalesced(bs, added);
    WiderTiled(bs, lo, hi, added);
  }

  lemma WiderOrder(bs: seq<Block>, lo: nat, hi: nat, added: nat)
    requires Ordered(bs, lo, hi) && bs != [] && !bs[|bs| - 1].used
    ensures var cs := Wider(bs, added);
            Ordered(cs, lo, hi + added) && FirstOf(cs) == FirstOf(bs) && LastOf(cs) == LastOf(bs)
  {
    var cs := Wider(bs, added);
    assert forall i | 0 <= i < |bs| - 1 :: cs[i] == bs[i];
  }

  lemma WiderCoalesced(bs: seq<Block>, added: nat)
    requires bs != []
    ensures Coalesced(bs) ==> Coalesced(Wider(bs, added))
  {
    var cs := Wider(bs, added);
    assert forall i | 0 <= i < |bs| :: cs[i].used == bs[i].used;
  }

  lemma WiderTiled(bs: seq<Block>, lo: nat, hi: nat, added: nat)
    requires bs != []
    ensures Tiled(bs, lo, hi) ==> Tiled(Wider(bs, added), lo, hi + added)
  {
    var cs := Wider(bs, added);
    assert forall i | 0 <= i < |bs| - 1 :: cs[i] == bs[i];
    assert cs[|bs| - 1].addr == bs[|bs| - 1].addr && End(cs[|bs| - 1]) == End(bs[|bs| - 1]) + added;
  }

  lemma WiderSums(bs: seq<Block>, added: nat)
    requires bs != [] && !bs[|bs| - 1].used
    ensures UsedSum(Wider(bs, added)) == UsedSum(bs) && Allocs(Wider(bs, added)) == Allocs(bs)
  {
    hide UsedSum, Allocs;
    var cs := Wider(bs, added);
    var n := |bs| - 1;
    assert cs == Swap(bs, n, 1, [cs[n]]);
    SumSwap(bs, n, 1, [cs[n]]);
    SumOne(bs[n]);
    SumOne(cs[n]);
    assert bs[n..n + 1] == [bs[n]];
    AllocsSwap(bs, n, 1, [cs[n]]);
    NoAlloc(bs[n]);
    NoAlloc(cs[n]);
  }

  lemma NoAlloc(b: Block)
    requires !b.used
    ensures Allocs([b]) == {}
  {
  }

  lemma SumOne(b: Block)
    ensures UsedSum([b]) == if b.used then b.size else 0
  {
    assert UsedSum([b][1..]) == 0;
  }

  lemma LastData(m: seq<byte>, m2: seq<byte>, bs: seq<Block>, lo: nat, hi: nat, v: nat)
    requires Ordered(bs, lo, hi) && hi <= |m| && bs != [] && Stored(m, m2, bs[|bs| - 1].addr + 4, v)
    ensures DataKept(m, m2, Allocs(bs))
  {
    hide Allocs;
    forall a | a in Allocs(bs) && a.ptr + a.size <= |m|
      ensures m2[a.ptr..a.ptr + a.size] == m[a.ptr..a.ptr + a.size]
    {
      var k := AllocIndex(bs, a);
      var c := bs[k];
      assert End(c) <= hi && Shaped(c);
      assert k == |bs| - 1 || End(c) <= bs[|bs| - 1].addr;
    }
  }

  lemma AppendMeans(bs: seq<Block>, b: Block, lo: nat, hi: nat, hi2: nat)
    requires Ordered(bs, lo, hi) && b.addr == hi && End(b) == hi2 && !b.used && (bs != [] ==> bs[|bs| - 1].used)
    ensures (Coalesced(bs) ==> Coalesced(bs + [b])) && UsedSum(bs + [b]) == UsedSum(bs)
            && Allocs(bs + [b]) == Allocs(bs)
    ensures Filled(bs, lo, hi) ==> Tiled(bs + [b], lo, hi2)
  {
    hide UsedSum, Allocs, Ordered, Coalesced, Tiled;
    SumJoin(bs, [b]);
    SumOne(b);
    AllocsJoin(bs, [b]);
    NoAlloc(b);
    AppendShape(bs, b, lo, hi);
  }

  lemma AppendShape(bs: seq<Block>, b: Block, lo: nat, hi: nat)
    requires b.addr == hi && !b.used && (bs != [] ==> bs[|bs| - 1].used)
    ensures Coalesced(bs) ==> Coalesced(bs + [b])
    ensures Filled(bs, lo, hi) ==> Tiled(bs + [b], lo, End(b))
  {
    hide End;
    var cs := bs + [b];
    assert forall i | 0 <= i < |bs| :: cs[i] == bs[i];
  }

  lemma DataTwice(m: seq<byte>, m1: seq<byte>, m2: seq<byte>, allocs: set<Region>)
    requires DataKept(m, m1, allocs) && DataKept(m1, m2, allocs)
    ensures DataKept(m, m2, allocs)
  {
  }

  /** A block grown for a request holds it, whatever the alignment costs. */
  lemma LastHolds(bs: seq<Block>, lo: nat, hi: nat, size: nat, align: nat)
    requires align > 0 && bs != [] && !bs[|bs| - 1].used && bs[|bs| - 1].size >= size + align + 4
    ensures Fits(bs[|bs| - 1], size, align)
  {
    hide UserIn;
  }

  lemma FitMeans(bs: seq<Block>, lo: nat, hi: nat, i: nat, size: nat, align: nat)
    requires Ordered(bs, lo, hi) && i < |bs| && IsPow2(align) && align >= MIN_ALIGNMENT && Fits(bs[i], size, align)
    ensures var u, c := UserIn(bs[i], align), Needs(bs[i], size, align);
            !bs[i].used && c <= bs[i].size && bs[i].addr + HEADER + 4 <= u && u + size == bs[i].addr + HEADER + c
                && u % MIN_ALIGNMENT == 0
  {
    PointerMultiple(bs[i], align);
  }

  lemma PointerMultiple(b: Block, align: nat)
    requires IsPow2(align) && align >= MIN_ALIGNMENT
    ensures UserIn(b, align) % MIN_ALIGNMENT == 0 && UserIn(b, align) % align == 0
  {
    hide AlignUp;
    PowerOfEight(align);
    AlignedUp(b.addr + HEADER + 4, align);
    MultipleOfEight(UserIn(b, align), align);
  }

  lemma MultipleOfEight(u: nat, align: nat)
    requires align > 0 && align % 8 == 0 && u % align == 0
    ensures u % 8 == 0
  {
    var k, q := align / 8, u / align;
    assert u == q * align && align == 8 * k;
    assert u == 8 * (q * k);
  }

  lemma SmallPower(align: nat, u: nat)
    requires u % 8 == 0
    ensures IsPow2(align) && align < 8 ==> u % align == 0
  {
    hide IsPow2;
    SmallPowers(align);
    assert u % 1 == 0 && u % 2 == 0 && u % 4 == 0;
    if align == 1 || align == 2 || align == 4 {
      Divides(align, u);
    }
  }

  lemma Divides(align: nat, u: nat)
    requires u % 8 == 0 && (align == 1 || align == 2 || align == 4)
    ensures u % align == 0
  {
    if align == 1 {
    } else if align == 2 {
      assert u % 2 == 0;
    } else {
      assert u % 4 == 0;
    }
  }

  lemma SmallPowers(align: nat)
    ensures IsPow2(align) && align < 8 ==> align == 1 || align == 2 || align == 4
  {
    assert !IsPow2(3) && !IsPow2(5) && !IsPow2(7);
  }

  // ---- Handing out a block ----

  lemma TakenReplaces(bs: seq<Block>, i: nat, user: nat, req: nat, lo: nat, hi: nat)
    requires Ordered(bs, lo, hi) && i < |bs| && Shaped(bs[i].(used := true, user := user, req := req))
    ensures Replaces(bs, i, 1, [TakeAt(bs, i, user, req)[i]])
            && TakeAt(bs, i, user, req) == Swap(bs, i, 1, [TakeAt(bs, i, user, req)[i]])
  {
  }

  lemma TakeSteps(m: seq<byte>, m1: seq<byte>, m2: seq<byte>, bs: seq<Block>, i: nat, user: nat, req: nat, lo: nat,
                  hi: nat)
    requires Linked(m, bs) && Ordered(bs, lo, hi) && 0 < lo && hi <= |m| && i < |bs| && !bs[i].used
    requires Shaped(bs[i].(used := true, user := user, req := req)) && user >= 4
    requires Stored(m, m1, bs[i].addr + 16, 1) && Stored(m1, m2, user - 4, bs[i].addr)
    ensures Linked(m2, TakeAt(bs, i, user, req)) && Ordered(TakeAt(bs, i, user, req), lo, hi)
    ensures FirstOf(TakeAt(bs, i, user, req)) == FirstOf(bs) && LastOf(TakeAt(bs, i, user, req)) == LastOf(bs)
    ensures DataKept(m, m2, Allocs(bs))
  {
    hide Linked, Ordered, Stored, Patched, Shown, DataKept, Allocs, Replaces, Swap;
    var b2 := TakeAt(bs, i, user, req)[i];
    TakenReplaces(bs, i, user, req, lo, hi);
    ShownOf(m, bs, i);
    StoredPatches(m, m1, bs[i].addr + 16, 1, bs[i].addr, End(bs[i]));
    StoredPatches(m1, m2, user - 4, bs[i].addr, bs[i].addr, End(bs[i]));
    PatchedTwice(m, m1, m2, bs[i].addr, End(bs[i]));
    TakenStored(m, m1, m2, bs[i], PrevOf(bs, i), NextOf(bs, i), user, req);
    InPlace(m, m2, bs, i, b2, lo, hi);
    FreeAllocs(bs, i, 1);
  }

  /** Rewriting one block inside its span. */
  lemma InPlace(m: seq<byte>, m2: seq<byte>, bs: seq<Block>, i: nat, b2: Block, lo: nat, hi: nat)
    requires Linked(m, bs) && Ordered(bs, lo, hi) && hi <= |m| && i < |bs| && Replaces(bs, i, 1, [b2])
    requires Patched(m, m2, bs[i].addr, End(bs[i])) && Shown(m2, b2, PrevOf(bs, i), NextOf(bs, i))
    ensures Linked(m2, Swap(bs, i, 1, [b2])) && Ordered(Swap(bs, i, 1, [b2]), lo, hi)
    ensures DataKept(m, m2, Allocs(bs[..i]) + Allocs(bs[i + 1..]))
    ensures FirstOf(Swap(bs, i, 1, [b2])) == FirstOf(bs) && LastOf(Swap(bs, i, 1, [b2])) == LastOf(bs)
  {
    hide Linked, Ordered, Shown, DataKept, Allocs, Swap;
    var mid := [b2];
    assert Rewritten(m, m2, m2, m2, bs, i, 1, mid);
    assert MidPrev(bs, i, mid, 0) == PrevOf(bs, i) && MidNext(bs, i, 1, mid, 0) == NextOf(bs, i);
    SwapLinked(m, m2, m2, m2, bs, i, 1, mid, lo, hi);
    SwapOrdered(bs, i, 1, mid, lo, hi);
    SwapData(m, m2, m2, m2, bs, i, 1, mid, lo, hi);
    SwapEnds(bs, i, 1, mid);
  }

  lemma SplitAllocs(bs: seq<Block>, i: nat, consumed: nat)
    requires i < |bs| && !bs[i].used
    ensures Allocs(SplitAt(bs, i, consumed)) == Allocs(bs)
  {
    hide Allocs;
    if bs[i].size > consumed + HEADER + SPLIT_THRESHOLD {
      var mid := Parts(bs[i], consumed);
      AllocsSwap(bs, i, 1, mid);
      assert bs[i..i + 1] == [bs[i]];
      NoAlloc(bs[i]);
      assert mid == [mid[0]] + [mid[1]];
      AllocsJoin([mid[0]], [mid[1]]);
      NoAlloc(mid[0]);
      NoAlloc(mid[1]);
    }
  }

  lemma SplitSum(bs: seq<Block>, i: nat, consumed: nat)
    requires i < |bs| && !bs[i].used
    ensures UsedSum(SplitAt(bs, i, consumed)) == UsedSum(bs)
  {
    hide UsedSum;
    if bs[i].size > consumed + HEADER + SPLIT_THRESHOLD {
      var mid := Parts(bs[i], consumed);
      SumSwap(bs, i, 1, mid);
      assert bs[i..i + 1] == [bs[i]] && mid == [mid[0]] + [mid[1]];
      SumJoin([mid[0]], [mid[1]]);
      SumOne(bs[i]);
      SumOne(mid[0]);
      SumOne(mid[1]);
    }
  }

  lemma TakeSum(bs: seq<Block>, i: nat, user: nat, req: nat)
    requires i < |bs| && !bs[i].used
    ensures UsedSum(TakeAt(bs, i, user, req)) == UsedSum(bs) + bs[i].size
    ensures Allocs(TakeAt(bs, i, user, req)) == Allocs(bs) + {Region(user, req)}
  {
    hide UsedSum, Allocs;
    var b2 := TakeAt(bs, i, user, req)[i];
    assert TakeAt(bs, i, user, req) == Swap(bs, i, 1, [b2]) && bs[i..i + 1] == [bs[i]];
    SumSwap(bs, i, 1, [b2]);
    SumOne(bs[i]);
    SumOne(b2);
    AllocsSwap(bs, i, 1, [b2]);
    NoAlloc(bs[i]);
    OneAlloc(b2);
  }

  lemma OneAlloc(b: Block)
    requires b.used
    ensures Allocs([b]) == {Region(b.user, b.req)}
  {
  }

  /** A region inside a free block is not an allocation yet. */
  lemma FreshRegion(bs: seq<Block>, lo: nat, hi: nat, i: nat, user: nat, req: nat)
    requires Ordered(bs, lo, hi) && i < |bs| && !bs[i].used && bs[i].addr <= user && user + req <= End(bs[i]) && req > 0
    ensures Region(user, req) !in Allocs(bs)
  {
    forall k | 0 <= k < |bs| && bs[k].used
      ensures Region(bs[k].user, bs[k].req) != Region(user, req)
    {
      assert Shaped(bs[k]) && (End(bs[k]) <= bs[i].addr || End(bs[i]) <= bs[k].addr);
    }
  }

  lemma SplitOrder(bs: seq<Block>, i: nat, consumed: nat, lo: nat, hi: nat)
    requires Ordered(bs, lo, hi) && i < |bs| && !bs[i].used && consumed <= bs[i].size
    ensures var cs := SplitAt(bs, i, consumed);
            && i < |cs| && cs[i].addr == bs[i].addr && !cs[i].used && consumed <= cs[i].size <= bs[i].size
            && (Tiled(bs, lo, hi) ==> Tiled(cs, lo, hi))
  {
    var cs := SplitAt(bs, i, consumed);
    if bs[i].size > consumed + HEADER + SPLIT_THRESHOLD {
      var mid := Parts(bs[i], consumed);
      assert cs[i] == mid[0] && cs[i + 1] == mid[1];
      if Tiled(bs, lo, hi) {
        forall j | 0 <= j < |cs| - 1
          ensures End(cs[j]) == cs[j + 1].addr
        {
          if j > i + 1 { assert cs[j] == bs[j - 1] && cs[j + 1] == bs[j]; }
        }
      }
    }
  }

  lemma TakeOrder(bs: seq<Block>, i: nat, user: nat, req: nat, lo: nat, hi: nat)
    requires i < |bs|
    ensures Tiled(bs, lo, hi) ==> Tiled(TakeAt(bs, i, user, req), lo, hi)
  {
    var cs := TakeAt(bs, i, user, req);
    assert forall j | 0 <= j < |bs| :: cs[j].addr == bs[j].addr && End(cs[j]) == End(bs[j]);
  }

  lemma AllocCoalesced(bs: seq<Block>, i: nat, consumed: nat, user: nat, req: nat)
    requires Coalesced(bs) && i < |bs| && !bs[i].used
    ensures i < |SplitAt(bs, i, consumed)| && Coalesced(TakeAt(SplitAt(bs, i, consumed), i, user, req))
  {
    var cs := TakeAt(SplitAt(bs, i, consumed), i, user, req);
    if bs[i].size > consumed + HEADER + SPLIT_THRESHOLD {
      forall j | 0 <= j < |cs| - 1
        ensures cs[j].used || cs[j + 1].used
      {
        if j > i + 1 { assert cs[j] == bs[j - 1] && cs[j + 1] == bs[j]; }
        if j == i + 1 { assert cs[j + 1] == bs[i + 1]; }
      }
    }
  }

  lemma AllocMeans(bs: seq<Block>, cs: seq<Block>, i: nat, consumed: nat, user: nat, req: nat, lo: nat, hi: nat)
    requires Ordered(bs, lo, hi) && Coalesced(bs) && i < |bs| && !bs[i].used && consumed <= bs[i].size
             && cs == SplitAt(bs, i, consumed)
    requires bs[i].addr + HEADER + 4 <= user && user + req == bs[i].addr + HEADER + consumed
             && user % MIN_ALIGNMENT == 0 && req > 0
    ensures i < |cs| && cs[i].addr == bs[i].addr && !cs[i].used
            && Shaped(cs[i].(used := true, user := user, req := req))
    ensures var ds := TakeAt(cs, i, user, req);
            && Coalesced(ds) && UsedSum(ds) == UsedSum(bs) + cs[i].size && (Tiled(bs, lo, hi) ==> Tiled(ds, lo, hi))
            && Allocs(ds) == Allocs(bs) + {Region(user, req)} && Region(user, req) !in Allocs(bs)
  {
    hide Ordered, Coalesced, UsedSum, Allocs, Tiled, TakeAt, SplitAt;
    SplitOrder(bs, i, consumed, lo, hi);
    SplitSum(bs, i, consumed);
    SplitAllocs(bs, i, consumed);
    TakeSum(cs, i, user, req);
    TakeOrder(cs, i, user, req, lo, hi);
    AllocCoalesced(bs, i, consumed, user, req);
    FreshRegion(bs, lo, hi, i, user, req);
  }

  // ---- Releasing a block ----

  lemma ReleaseSteps(m: seq<byte>, m2: seq<byte>, bs: seq<Block>, i: nat, lo: nat, hi: nat)
    requires Linked(m, bs) && Ordered(bs, lo, hi) && 0 < lo && hi <= |m| && i < |bs| && bs[i].used
    requires Stored(m, m2, bs[i].addr + 16, 0)
    ensures Linked(m2, ReleaseAt(bs, i)) && Ordered(ReleaseAt(bs, i), lo, hi)
    ensures FirstOf(ReleaseAt(bs, i)) == FirstOf(bs) && LastOf(ReleaseAt(bs, i)) == LastOf(bs)
    ensures DataKept(m, m2, Allocs(ReleaseAt(bs, i)))
    ensures |ReleaseAt(bs, i)| == |bs| && ReleaseAt(bs, i)[i] == bs[i].(used := false)
  {
    hide Linked, Ordered, Stored, Patched, Shown, DataKept, Allocs, Replaces, Swap;
    var b2 := ReleaseAt(bs, i)[i];
    ReleasedReplaces(bs, i, lo, hi);
    ShownOf(m, bs, i);
    StoredPatches(m, m2, bs[i].addr + 16, 0, bs[i].addr, End(bs[i]));
    FreedStored(m, m2, bs[i], PrevOf(bs, i), NextOf(bs, i));
    InPlace(m, m2, bs, i, b2, lo, hi);
    AllocsSwap(bs, i, 1, [b2]);
    NoAlloc(b2);
    assert Allocs(ReleaseAt(bs, i)) == Allocs(bs[..i]) + Allocs(bs[i + 1..]);
  }

  lemma ReleasedReplaces(bs: seq<Block>, i: nat, lo: nat, hi: nat)
    requires Ordered(bs, lo, hi) && i < |bs|
    ensures Replaces(bs, i, 1, [ReleaseAt(bs, i)[i]]) && ReleaseAt(bs, i) == Swap(bs, i, 1, [ReleaseAt(bs, i)[i]])
  {
  }

  lemma ReleaseMeans(bs: seq<Block>, i: nat, lo: nat, hi: nat)
    requires Ordered(bs, lo, hi) && i < |bs| && bs[i].used
    ensures UsedSum(ReleaseAt(bs, i)) + bs[i].size == UsedSum(bs)
    ensures Allocs(ReleaseAt(bs, i)) == Allocs(bs) - {Region(bs[i].user, bs[i].req)}
    ensures Tiled(bs, lo, hi) ==> Tiled(ReleaseAt(bs, i), lo, hi)
  {
    hide UsedSum, Allocs, Ordered, Tiled;
    var cs := ReleaseAt(bs, i);
    assert cs == Swap(bs, i, 1, [cs[i]]) && bs[i..i + 1] == [bs[i]];
    SumSwap(bs, i, 1, [cs[i]]);
    SumOne(bs[i]);
    SumOne(cs[i]);
    AllocsSwap(bs, i, 1, [cs[i]]);
    NoAlloc(cs[i]);
    OneAlloc(bs[i]);
    ReleasedGone(bs, i, lo, hi);
    if Tiled(bs, lo, hi) { ReleaseTiles(bs, i, lo, hi); }
  }

  lemma ReleaseTiles(bs: seq<Block>, i: nat, lo: nat, hi: nat)
    requires i < |bs| && Tiled(bs, lo, hi)
    ensures Tiled(ReleaseAt(bs, i), lo, hi)
  {
    var cs := ReleaseAt(bs, i);
    assert forall j | 0 <= j < |bs| :: cs[j].addr == bs[j].addr && End(cs[j]) == End(bs[j]);
  }

  lemma ReleasedGone(bs: seq<Block>, i: nat, lo: nat, hi: nat)
    requires Ordered(bs, lo, hi) && i < |bs| && bs[i].used
    ensures Region(bs[i].user, bs[i].req) !in Allocs(bs[..i]) + Allocs(bs[i + 1..])
  {
    forall k | 0 <= k < |bs| && bs[k].used && k != i
      ensures Region(bs[k].user, bs[k].req) != Region(bs[i].user, bs[i].req)
    {
      assert Shaped(bs[k]) && Shaped(bs[i]) && (End(bs[k]) <= bs[i].addr || End(bs[i]) <= bs[k].addr);
    }
  }

  lemma AbsorbMeans(bs: seq<Block>, i: nat, lo: nat, hi: nat)
    requires i < |bs| && !bs[i].used
    ensures i < |AbsorbAt(bs, i)| && AbsorbAt(bs, i)[i].addr == bs[i].addr && !AbsorbAt(bs, i)[i].used
    ensures forall k | 0 <= k < i :: AbsorbAt(bs, i)[k] == bs[k]
    ensures UsedSum(AbsorbAt(bs, i)) == UsedSum(bs) && Allocs(AbsorbAt(bs, i)) == Allocs(bs)
    ensures Tiled(bs, lo, hi) ==> Tiled(AbsorbAt(bs, i), lo, hi)
  {
    hide UsedSum, Allocs;
    var cs := AbsorbAt(bs, i);
    if i + 1 < |bs| && !bs[i + 1].used {
      var b := Joined(bs[i], bs[i + 1]);
      assert bs[i..i + 2] == [bs[i]] + [bs[i + 1]];
      SumSwap(bs, i, 2, [b]);
      SumJoin([bs[i]], [bs[i + 1]]);
      SumOne(bs[i]);
      SumOne(bs[i + 1]);
      SumOne(b);
      AllocsSwap(bs, i, 2, [b]);
      AllocsJoin([bs[i]], [bs[i + 1]]);
      NoAlloc(bs[i]);
      NoAlloc(bs[i + 1]);
      NoAlloc(b);
      AbsorbTiled(bs, i, lo, hi);
    }
  }

  lemma AbsorbTiled(bs: seq<Block>, i: nat, lo: nat, hi: nat)
    requires i + 1 < |bs| && !bs[i + 1].used
    ensures Tiled(bs, lo, hi) ==> Tiled(AbsorbAt(bs, i), lo, hi)
  {
    if Tiled(bs, lo, hi) {
      var cs := AbsorbAt(bs, i);
      forall j | 0 <= j < |cs| - 1
        ensures End(cs[j]) == cs[j + 1].addr
      {
        if j > i { assert cs[j] == bs[j + 1] && cs[j + 1] == bs[j + 2]; }
        if j == i { assert cs[j + 1] == bs[j + 2] && End(bs[i]) == bs[i + 1].addr && End(bs[i + 1]) == bs[i + 2].addr; }
        if j < i { assert End(bs[j]) == bs[j + 1].addr; }
      }
    }
  }

  /** Used blocks stand on both sides of a free block that was joined with its neighbours. */
  lemma FreeCoalesced(bs: seq<Block>, i: nat)
    requires Coalesced(bs) && i < |bs|
    ensures Coalesced(FreeAt(bs, i))
  {
    var b1 := ReleaseAt(bs, i);
    var b2 := AbsorbAt(b1, i);
    RightCoalesced(bs, i);
    if i > 0 && !bs[i - 1].used {
      var cs := AbsorbAt(b2, i - 1);
      assert cs == Swap(b2, i - 1, 2, [Joined(b2[i - 1], b2[i])]);
      forall j | 0 <= j < |cs| - 1
        ensures cs[j].used || cs[j + 1].used
      {
        if j >= i { assert cs[j] == b2[j + 1] && cs[j + 1] == b2[j + 2]; }
        if j == i - 1 { assert cs[j + 1] == b2[j + 2]; }
        if j < i - 1 { assert cs[j] == bs[j]; }
        if j == i - 2 { assert bs[j].used; }
      }
    }
  }

  /** After the right-hand join, only the pair left of `i` may be free together. */
  lemma RightCoalesced(bs: seq<Block>, i: nat)
    requires Coalesced(bs) && i < |bs|
    ensures var b2 := AbsorbAt(ReleaseAt(bs, i), i);
            && i < |b2| && !b2[i].used && (forall k | 0 <= k < i :: b2[k] == bs[k])
            && forall j | 0 <= j < |b2| - 1 && j != i - 1 :: b2[j].used || b2[j + 1].used
  {
    var b1 := ReleaseAt(bs, i);
    var b2 := AbsorbAt(b1, i);
    if i + 1 < |b1| && !b1[i + 1].used {
      forall j | 0 <= j < |b2| - 1 && j != i - 1
        ensures b2[j].used || b2[j + 1].used
      {
        if j > i { assert b2[j] == bs[j + 1] && b2[j + 1] == bs[j + 2]; }
        if j == i { assert b2[j + 1] == bs[j + 2] && (bs[i + 1].used || bs[i + 2].used); }
      }
    }
  }

  /** A byte stored inside an allocation is no header byte and no back word. */
  lemma PokeLinked(m: seq<byte>, m2: seq<byte>, bs: seq<Block>, lo: nat, hi: nat, i: nat, x: nat)
    requires Linked(m, bs) && Ordered(bs, lo, hi) && hi <= |m| == |m2| && i < |bs| && bs[i].used
    requires bs[i].user <= x < bs[i].user + bs[i].req && forall y | 0 <= y < |m| && y != x :: m2[y] == m[y]
    ensures Linked(m2, bs)
  {
    hide Shown;
    forall j: nat | j < |bs|
      ensures ShownAt(m2, bs, j)
    {
      ShownOf(m, bs, j);
      if j == i {
        PokeOwn(m, m2, bs[i], x, PrevOf(bs, i), NextOf(bs, i));
      } else {
        assert Shaped(bs[i]);
        assert Patched(m, m2, x, x + 1);
        ShownPatched(m, m2, x, x + 1, bs[j], PrevOf(bs, j), NextOf(bs, j));
      }
    }
  }

  lemma PokeOwn(m: seq<byte>, m2: seq<byte>, b: Block, x: nat, p: nat, n: nat)
    requires Shown(m, b, p, n) && b.used && b.user <= x < b.user + b.req && |m2| == |m|
    requires forall y | 0 <= y < |m| && y != x :: m2[y] == m[y]
    ensures Shown(m2, b, p, n)
  {
    hide Word;
    assert Patched(m, m2, x, x + 1);
    WordPatched(m, m2, x, x + 1, b.addr);
    WordPatched(m, m2, x, x + 1, b.addr + 4);
    WordPatched(m, m2, x, x + 1, b.addr + 8);
    WordPatched(m, m2, x, x + 1, b.addr + 12);
    WordPatched(m, m2, x, x + 1, b.addr + 16);
    WordPatched(m, m2, x, x + 1, b.user - 4);
  }

  // ---- Whole runs ----

  /** A client's request: memory, the release of what request `which` got, or a byte stored into it. */
  datatype Request = Get(size: nat, align: nat) | Drop(which: nat) | Put(which: nat, off: nat, value: byte)

  /** The requests whose memory is still held after a run that answered `ptrs`. */
  function Held(rs: seq<Request>, ptrs: seq<nat>): (s: set<nat>)
    requires |ptrs| == |rs|
    ensures forall i | i in s :: i < |rs| && rs[i].Get? && ptrs[i] != 0
  {
    if rs == [] then {}
    else
      var n := |rs| - 1;
      var held := Held(rs[..n], ptrs[..n]);
      if rs[n].Drop? then held - {rs[n].which} else if rs[n].Get? && ptrs[n] != 0 then held + {n} else held
  }

  /** Whether request `r` is a store a client may make: into what it holds. */
  predicate Allowed(rs: seq<Request>, ptrs: seq<nat>, r: Request)
    requires |ptrs| == |rs|
  {
    r.Put? && r.which in Held(rs, ptrs) && r.off < rs[r.which].size
  }

  /** The byte last stored at offset `off` of what request `i` got. */
  function Cell(rs: seq<Request>, ptrs: seq<nat>, i: nat, off: nat): (c: Option<byte>)
    requires |ptrs| == |rs|
    ensures c.Some? ==> i < |rs|
  {
    if rs == [] then None
    else
      var n := |rs| - 1;
      if Allowed(rs[..n], ptrs[..n], rs[n]) && rs[n].which == i && rs[n].off == off then Some(rs[n].value)
      else Cell(rs[..n], ptrs[..n], i, off)
  }

  /** Memory `m` still holds what was stored into the memory held. */
  ghost predicate Intact(rs: seq<Request>, ptrs: seq<nat>, m: seq<byte>)
    requires |ptrs| == |rs|
  {
    forall i: nat, off: nat {:trigger Cell(rs, ptrs, i, off)} |
      i in Held(rs, ptrs) && off < rs[i].size && Cell(rs, ptrs, i, off).Some? ::
      ptrs[i] + off < |m| && m[ptrs[i] + off] == Cell(rs, ptrs, i, off).value
  }

  /** Every pointer handed out has the alignment asked for. */
  ghost predicate Aligned(rs: seq<Request>, ptrs: seq<nat>)
    requires |ptrs| == |rs|
  {
    forall i | 0 <= i < |rs| && rs[i].Get? && ptrs[i] != 0 :: AlignedTo(ptrs[i], rs[i].align)
  }

  predicate AlignedTo(ptr: nat, align: nat) {
    ptr % MIN_ALIGNMENT == 0 && (IsPow2(align) ==> ptr % align == 0)
  }

  /** No two regions held share a byte, not even with the word below. */
  ghost predicate Separate(rs: seq<Request>, ptrs: seq<nat>)
    requires |ptrs| == |rs|
  {
    forall i, j | i in Held(rs, ptrs) && j in Held(rs, ptrs) && i != j ::
      ptrs[i] + rs[i].size + 4 <= ptrs[j] || ptrs[j] + rs[j].size + 4 <= ptrs[i]
  }

  ghost function Regions(rs: seq<Request>, ptrs: seq<nat>, held: set<nat>): set<Region>
    requires |ptrs| == |rs| && forall i | i in held :: i < |rs| && rs[i].Get?
  {
    set i | i in held :: Region(ptrs[i], rs[i].size)
  }

  /** No two held requests have the same region. */
  ghost predicate Distinct(rs: seq<Request>, ptrs: seq<nat>, held: set<nat>)
    requires |ptrs| == |rs| && forall i | i in held :: i < |rs| && rs[i].Get?
  {
    forall i, j | i in held && j in held && i != j :: Region(ptrs[i], rs[i].size) != Region(ptrs[j], rs[j].size)
  }

  /** How far a run of requests can take the end of the heap. */
  function Demand(rs: seq<Request>): nat {
    if rs == [] then 0 else (if rs[0].Get? then Reach(rs[0].size, rs[0].align) else 0) + Demand(rs[1..])
  }

  lemma DemandNext(rs: seq<Request>, n: nat)
    requires n < |rs|
    ensures Demand(rs[n..]) == (if rs[n].Get? then Reach(rs[n].size, rs[n].align) else 0) + Demand(rs[n + 1..])
  {
    hide Reach;
    assert rs[n..][0] == rs[n] && rs[n..][1..] == rs[n + 1..];
  }

  lemma DemandOne(rs: seq<Request>, n: nat)
    requires n < |rs| && rs[n].Get?
    ensures Reach(rs[n].size, rs[n].align) <= Demand(rs[n..])
  {
    hide Reach;
    DemandNext(rs, n);
  }

  /** A byte of the memory held is mapped exactly when its page is not in `missed`. */
  ghost predicate Reached(rs: seq<Request>, ptrs: seq<nat>, t: map<nat, Paging.Mapping>, missed: set<nat>)
    requires |ptrs| == |rs|
  {
    forall i, a | i in Held(rs, ptrs) && ptrs[i] <= a < ptrs[i] + rs[i].size ::
      Paging.PageOf(a) in t <==> Paging.PageOf(a) !in missed
  }

  /** Every request for memory that asked for some got it. */
  ghost predicate Answered(rs: seq<Request>, ptrs: seq<nat>)
    requires |ptrs| == |rs|
  {
    forall i | 0 <= i < |rs| && rs[i].Get? && rs[i].size > 0 :: ptrs[i] != 0
  }

  lemma NoneAnswered()
    ensures Answered([], [])
  {
  }

  lemma AnsweredNext(rs: seq<Request>, ptrs: seq<nat>, ptr: nat)
    requires |ptrs| < |rs|
    ensures Answered(rs[..|ptrs|], ptrs) && (rs[|ptrs|].Get? && rs[|ptrs|].size > 0 ==> ptr != 0) ==>
              Answered(rs[..|ptrs| + 1], ptrs + [ptr])
  {
    assert rs[..|ptrs| + 1] == rs[..|ptrs|] + [rs[|ptrs|]];
  }

  /** What a run of requests has led to so far. */
  ghost predicate Served(rs: seq<Request>, ptrs: seq<nat>, bs: seq<Block>, m: seq<byte>)
    requires |ptrs| == |rs|
  {
    && Allocs(bs) == Regions(rs, ptrs, Held(rs, ptrs)) && Distinct(rs, ptrs, Held(rs, ptrs))
    && Aligned(rs, ptrs) && Intact(rs, ptrs, m)
  }

  /** Every run of requests on an unused heap: what is held is exactly what is allocated, whatever growth failed on
      the way. The regions held are apart and aligned as asked for, and their bytes are those last stored there; a byte
      of them is mapped exactly when its page is not one that growth failed to map. As long as a frame is free, every
      request but those for nothing is answered. When everything is back and no growth failed, one free block spans
      the heap. */
  method Serve(h: Heap, rs: seq<Request>) returns (ptrs: seq<nat>)
    requires h.Valid() && Allocs(h.blocks) == {} && h.end + Demand(rs) <= U32_LIMIT
    requires forall r | r in rs && r.Get? :: r.align <= 0x8000_0000
    modifies h`end, h`first, h`last, h`blocks, h`gap, h`missed, h`usedBytes, h.mem, h.pt.mem, h.pt.pmm`freeFrames,
             h.pt.pmm.bitmap
    ensures h.Valid() && |ptrs| == |rs| && Allocs(h.blocks) == Regions(rs, ptrs, Held(rs, ptrs))
    ensures Separate(rs, ptrs) && Aligned(rs, ptrs) && Intact(rs, ptrs, h.mem[..])
    ensures Reached(rs, ptrs, h.pt.Map(), h.missed) && old(h.missed) <= h.missed
    ensures old(h.InWindow()) && h.end <= Paging.WINDOW_FRAMES * PAGE_SIZE ==> h.InWindow() && h.missed == old(h.missed)
    ensures h.pt.pmm.Free() <= old(h.pt.pmm.Free()) && (h.pt.pmm.Free() != {} ==> Answered(rs, ptrs))
    ensures Held(rs, ptrs) == {} && !h.gap && h.blocks != [] ==>
              |h.blocks| == 1 && !h.blocks[0].used && h.blocks[0].addr == h.base && End(h.blocks[0]) == h.end
  {
    hide Allocs, Ordered, Linked, Coalesced, Tiled, UsedSum, Backed, Served, Separate, Aligned, Intact, Reached,
         Answered, Paging.Apart, Paging.Translation, Paging.WindowReady, Reach;
    ptrs := [];
    NoneAnswered();
    NoneHeld(h.blocks, h.mem[..]);
    assert rs[0..] == rs;
    for n := 0 to |rs|
      invariant h.Valid() && |ptrs| == n && h.end + Demand(rs[n..]) <= U32_LIMIT
      invariant Served(rs[..n], ptrs, h.blocks, h.mem[..])
      invariant old(h.missed) <= h.missed && h.pt.pmm.Free() <= old(h.pt.pmm.Free()) && h.end >= old(h.end)
      invariant old(h.InWindow()) && h.end <= Paging.WINDOW_FRAMES * PAGE_SIZE ==>
                  h.InWindow() && h.missed == old(h.missed)
      invariant h.pt.pmm.Free() != {} ==> Answered(rs[..n], ptrs)
    {
      var ptr := ServeOne(h, rs, ptrs);
      AnsweredNext(rs, ptrs, ptr);
      DemandNext(rs, n);
      ptrs := ptrs + [ptr];
    }
    assert rs[..|rs|] == rs;
    ServedMeans(rs, ptrs, h.blocks, h.mem[..], h.base, h.end);
    ServedReached(rs, ptrs, h.blocks, h.mem[..], h.base, h.end, h.pt.Map(), h.pt.pmm.Free(), h.missed);
    if Held(rs, ptrs) == {} && !h.gap && h.blocks != [] {
      AllFree(h.blocks, h.base, h.end);
    }
  }

  /** One request of a run. */
  method ServeOne(h: Heap, rs: seq<Request>, ptrs: seq<nat>) returns (ptr: nat)
    requires h.Valid() && |ptrs| < |rs| && Served(rs[..|ptrs|], ptrs, h.blocks, h.mem[..])
    requires h.end + Demand(rs[|ptrs|..]) <= U32_LIMIT
    requires forall r | r in rs && r.Get? :: r.align <= 0x8000_0000
    modifies h`end, h`first, h`last, h`blocks, h`gap, h`missed, h`usedBytes, h.mem, h.pt.mem, h.pt.pmm`freeFrames,
             h.pt.pmm.bitmap
    ensures h.Valid() && Served(rs[..|ptrs| + 1], ptrs + [ptr], h.blocks, h.mem[..])
    ensures h.end <= old(h.end) + if rs[|ptrs|].Get? then Reach(rs[|ptrs|].size, rs[|ptrs|].align) else 0
    ensures old(h.missed) <= h.missed && h.pt.pmm.Free() <= old(h.pt.pmm.Free()) && h.end >= old(h.end)
    ensures old(h.InWindow()) && h.end <= Paging.WINDOW_FRAMES * PAGE_SIZE ==> h.InWindow() && h.missed == old(h.missed)
    ensures rs[|ptrs|].Get? && ptr == 0 ==> rs[|ptrs|].size == 0 || h.pt.pmm.Free() == {}
  {
    hide Allocs, Ordered, Linked, Coalesced, Tiled, UsedSum, Backed, DataKept, Served, Paging.Apart,
         Paging.Translation, Paging.WindowReady, Reach, IsPow2;
    ghost var bs, m := h.blocks, h.mem[..];
    var n := |ptrs|;
    ptr := 0;
    NothingKept(m, Allocs(bs));
    match rs[n] {
      case Get(size, align) =>
        DemandOne(rs, n);
        assert rs[n] in rs;
        ptr := h.Alloc(size, align);
        ServedGet(rs, ptrs, ptr, bs, h.blocks, m, h.mem[..], h.base, old(h.end));
      case Drop(j) =>
        if j in Held(rs[..n], ptrs) {
          ghost var i := HeldBlock(rs[..n], ptrs, bs, m, j);
          h.Free(ptrs[j], i);
        }
        ServedDrop(rs, ptrs, bs, h.blocks, m, h.mem[..], h.base, old(h.end));
      case Put(j, off, value) =>
        if j in Held(rs[..n], ptrs) && off < rs[j].size {
          ghost var i := HeldBlock(rs[..n], ptrs, bs, m, j);
          h.Poke(ptrs[j], off, value, i);
        }
        ServedPut(rs, ptrs, bs, m, h.mem[..], h.base, old(h.end));
    }
  }

  lemma HeldBlock(rs: seq<Request>, ptrs: seq<nat>, bs: seq<Block>, m: seq<byte>, j: nat) returns (i: nat)
    requires |ptrs| == |rs| && Served(rs, ptrs, bs, m) && j in Held(rs, ptrs)
    ensures i < |bs| && bs[i].used && bs[i].user == ptrs[j] && bs[i].req == rs[j].size
  {
    hide Allocs;
    HeldIsAlloc(rs, ptrs, Held(rs, ptrs), j);
    i := AllocIndex(bs, Region(ptrs[j], rs[j].size));
  }

  lemma ServedMeans(rs: seq<Request>, ptrs: seq<nat>, bs: seq<Block>, m: seq<byte>, lo: nat, hi: nat)
    requires |ptrs| == |rs| && Served(rs, ptrs, bs, m) && Ordered(bs, lo, hi)
    ensures Allocs(bs) == Regions(rs, ptrs, Held(rs, ptrs)) && Separate(rs, ptrs) && Aligned(rs, ptrs)
    ensures Intact(rs, ptrs, m)
  {
    hide Allocs, Ordered, Held, Aligned, Intact;
    forall i, j | i in Held(rs, ptrs) && j in Held(rs, ptrs) && i != j
      ensures ptrs[i] + rs[i].size + 4 <= ptrs[j] || ptrs[j] + rs[j].size + 4 <= ptrs[i]
    {
      HeldIsAlloc(rs, ptrs, Held(rs, ptrs), i);
      HeldIsAlloc(rs, ptrs, Held(rs, ptrs), j);
      AllocsApart(bs, lo, hi, Region(ptrs[i], rs[i].size), Region(ptrs[j], rs[j].size));
    }
  }

  lemma ServedReached(rs: seq<Request>, ptrs: seq<nat>, bs: seq<Block>, m: seq<byte>, lo: nat, hi: nat,
                      t: map<nat, Paging.Mapping>, free: set<nat>, missed: set<nat>)
    requires |ptrs| == |rs| && Served(rs, ptrs, bs, m) && Ordered(bs, lo, hi)
    requires lo % PAGE_SIZE == 0 && hi % PAGE_SIZE == 0 && Backed(t, lo / PAGE_SIZE, hi / PAGE_SIZE, free, missed)
    ensures Reached(rs, ptrs, t, missed)
  {
    hide Allocs, Ordered, Held, Aligned, Intact, Backed, Regions;
    forall i, a | i in Held(rs, ptrs) && ptrs[i] <= a < ptrs[i] + rs[i].size
      ensures Paging.PageOf(a) in t <==> Paging.PageOf(a) !in missed
    {
      HeldIsAlloc(rs, ptrs, Held(rs, ptrs), i);
      RegionInside(bs, lo, hi, Region(ptrs[i], rs[i].size));
      PageBacked(t, lo, hi, free, missed, a);
    }
  }

  lemma PageBacked(t: map<nat, Paging.Mapping>, lo: nat, hi: nat, free: set<nat>, missed: set<nat>, a: nat)
    requires lo % PAGE_SIZE == 0 && hi % PAGE_SIZE == 0 && lo <= a < hi
    requires Backed(t, lo / PAGE_SIZE, hi / PAGE_SIZE, free, missed)
    ensures Paging.PageOf(a) in t <==> Paging.PageOf(a) !in missed
  {
    assert lo / PAGE_SIZE <= a / PAGE_SIZE < hi / PAGE_SIZE;
  }

  lemma ServedGet(rs: seq<Request>, ptrs: seq<nat>, ptr: nat, bs: seq<Block>, bs2: seq<Block>, m: seq<byte>,
                  m2: seq<byte>, lo: nat, hi: nat)
    requires |ptrs| < |rs| && rs[|ptrs|].Get? && Served(rs[..|ptrs|], ptrs, bs, m) && DataKept(m, m2, Allocs(bs))
    requires Ordered(bs, lo, hi) && hi <= |m|
    requires if ptr == 0 then Allocs(bs2) == Allocs(bs)
             else var r := Region(ptr, rs[|ptrs|].size); Allocs(bs2) == Allocs(bs) + {r} && r !in Allocs(bs)
    requires ptr != 0 ==> AlignedTo(ptr, rs[|ptrs|].align)
    ensures Served(rs[..|ptrs| + 1], ptrs + [ptr], bs2, m2)
  {
    hide Allocs, Ordered, DataKept, Held, Cell, AlignedTo, Intact, Regions, Distinct;
    var n := |ptrs|;
    HeldNext(rs, ptrs, n, ptr);
    IntactNext(rs, ptrs, ptr, bs, m, m2, Allocs(bs), lo, hi);
    AlignedNext(rs, ptrs, ptr);
  }

  lemma ServedDrop(rs: seq<Request>, ptrs: seq<nat>, bs: seq<Block>, bs2: seq<Block>, m: seq<byte>, m2: seq<byte>,
                   lo: nat, hi: nat)
    requires |ptrs| < |rs| && rs[|ptrs|].Drop? && Served(rs[..|ptrs|], ptrs, bs, m) && DataKept(m, m2, Allocs(bs2))
    requires Ordered(bs, lo, hi) && hi <= |m|
    requires var j := rs[|ptrs|].which;
             Allocs(bs2) == if j in Held(rs[..|ptrs|], ptrs) then Allocs(bs) - {Region(ptrs[j], rs[j].size)}
                            else Allocs(bs)
    ensures Served(rs[..|ptrs| + 1], ptrs + [0], bs2, m2)
  {
    hide Allocs, Ordered, DataKept, Held, Cell, Intact, Regions, Distinct;
    var n := |ptrs|;
    HeldNext(rs, ptrs, n, 0);
    IntactNext(rs, ptrs, 0, bs, m, m2, Allocs(bs2), lo, hi);
    AlignedNext(rs, ptrs, 0);
  }

  lemma ServedPut(rs: seq<Request>, ptrs: seq<nat>, bs: seq<Block>, m: seq<byte>, m2: seq<byte>, lo: nat, hi: nat)
    requires |ptrs| < |rs| && rs[|ptrs|].Put? && Served(rs[..|ptrs|], ptrs, bs, m) && Ordered(bs, lo, hi)
    requires var r := rs[|ptrs|];
             if Allowed(rs[..|ptrs|], ptrs, r) then ptrs[r.which] + r.off < |m|
                 && m2 == m[ptrs[r.which] + r.off := r.value]
             else m2 == m
    ensures Served(rs[..|ptrs| + 1], ptrs + [0], bs, m2)
  {
    hide Allocs, Ordered, Held, Cell, Regions, Distinct;
    var n := |ptrs|;
    HeldNext(rs, ptrs, n, 0);
    ServedMeans(rs[..n], ptrs, bs, m, lo, hi);
    IntactPut(rs, ptrs, m, m2);
    AlignedNext(rs, ptrs, 0);
  }

  lemma AlignedNext(rs: seq<Request>, ptrs: seq<nat>, ptr: nat)
    requires |ptrs| < |rs| && Aligned(rs[..|ptrs|], ptrs)
    requires rs[|ptrs|].Get? && ptr != 0 ==> AlignedTo(ptr, rs[|ptrs|].align)
    ensures Aligned(rs[..|ptrs| + 1], ptrs + [ptr])
  {
    hide AlignedTo;
    assert rs[..|ptrs| + 1] == rs[..|ptrs|] + [rs[|ptrs|]];
  }

  /** One more request, as Held and Cell see it. */
  lemma CellNext(rs: seq<Request>, ptrs: seq<nat>, ptr: nat, i: nat, off: nat)
    requires |ptrs| < |rs|
    ensures var n, r := |ptrs|, rs[|ptrs|];
            Cell(rs[..n + 1], ptrs + [ptr], i, off) ==
            if Allowed(rs[..n], ptrs, r) && r.which == i
                && r.off == off then Some(r.value) else Cell(rs[..n], ptrs, i, off)
  {
    hide Allowed;
    var n := |ptrs|;
    assert rs[..n + 1][..n] == rs[..n] && (ptrs + [ptr])[..n] == ptrs && rs[..n + 1][n] == rs[n];
  }

  lemma HeldStep(rs: seq<Request>, ptrs: seq<nat>, before: seq<Request>, given: seq<nat>)
    requires |ptrs| == |rs| > 0 && rs[..|rs| - 1] == before && ptrs[..|rs| - 1] == given
    ensures Held(rs, ptrs) <= Held(before, given) + {|rs| - 1}
    ensures rs[|rs| - 1].Drop? ==> rs[|rs| - 1].which !in Held(rs, ptrs)
  {
  }

  lemma HeldBefore(rs: seq<Request>, ptrs: seq<nat>, ptr: nat, i: nat)
    requires |ptrs| < |rs| && i in Held(rs[..|ptrs| + 1], ptrs + [ptr]) && i < |ptrs|
    ensures i in Held(rs[..|ptrs|], ptrs) && rs[i].Get?
    ensures rs[|ptrs|].Drop? ==> i != rs[|ptrs|].which
  {
    hide Held;
    var n := |ptrs|;
    HeldStep(rs[..n + 1], ptrs + [ptr], rs[..n], ptrs);
  }

  /** A request that is no store leaves the bytes held alone. */
  lemma IntactNext(rs: seq<Request>, ptrs: seq<nat>, ptr: nat, bs: seq<Block>, m: seq<byte>, m2: seq<byte>,
                   kept: set<Region>, lo: nat, hi: nat)
    requires |ptrs| < |rs| && !rs[|ptrs|].Put? && Served(rs[..|ptrs|], ptrs, bs, m) && DataKept(m, m2, kept)
    requires Ordered(bs, lo, hi) && hi <= |m|
    requires var j := if rs[|ptrs|].Drop? then rs[|ptrs|].which else |ptrs|;
             kept == if j in Held(rs[..|ptrs|], ptrs) then Allocs(bs) - {Region(ptrs[j], rs[j].size)} else Allocs(bs)
    ensures Intact(rs[..|ptrs| + 1], ptrs + [ptr], m2)
  {
    hide Allocs, Ordered, DataKept, Held, Cell, Regions, Aligned;
    var n := |ptrs|;
    var rs2, ptrs2 := rs[..n + 1], ptrs + [ptr];
    forall i: nat, off: nat | i in Held(rs2, ptrs2) && off < rs2[i].size && Cell(rs2, ptrs2, i, off).Some?
      ensures ptrs2[i] + off < |m2| && m2[ptrs2[i] + off] == Cell(rs2, ptrs2, i, off).value
    {
      CellNext(rs, ptrs, ptr, i, off);
      assert i < n;
      HeldBefore(rs, ptrs, ptr, i);
      HeldIsAlloc(rs[..n], ptrs, Held(rs[..n], ptrs), i);
      RegionInside(bs, lo, hi, Region(ptrs[i], rs[i].size));
      ByteKept(m, m2, kept, Region(ptrs[i], rs[i].size), off);
    }
  }

  lemma RegionInside(bs: seq<Block>, lo: nat, hi: nat, a: Region)
    requires Ordered(bs, lo, hi) && a in Allocs(bs)
    ensures lo <= a.ptr && a.ptr + a.size <= hi
  {
    var k := AllocIndex(bs, a);
    assert Shaped(bs[k]);
  }

  lemma ByteKept(m: seq<byte>, m2: seq<byte>, kept: set<Region>, a: Region, off: nat)
    requires DataKept(m, m2, kept) && a in kept && a.ptr + a.size <= |m| && off < a.size
    ensures |m2| == |m| && m2[a.ptr + off] == m[a.ptr + off]
  {
    assert m2[a.ptr + off] == m2[a.ptr..a.ptr + a.size][off];
    assert m[a.ptr + off] == m[a.ptr..a.ptr + a.size][off];
  }

  /** A store changes the one byte it is meant to change. */
  lemma IntactPut(rs: seq<Request>, ptrs: seq<nat>, m: seq<byte>, m2: seq<byte>)
    requires |ptrs| < |rs| && rs[|ptrs|].Put? && Intact(rs[..|ptrs|], ptrs, m) && Separate(rs[..|ptrs|], ptrs)
    requires var r := rs[|ptrs|];
             if Allowed(rs[..|ptrs|], ptrs, r) then ptrs[r.which] + r.off < |m|
                 && m2 == m[ptrs[r.which] + r.off := r.value]
             else m2 == m
    ensures Intact(rs[..|ptrs| + 1], ptrs + [0], m2)
  {
    hide Held, Cell;
    var n, r := |ptrs|, rs[|ptrs|];
    var rs2, ptrs2 := rs[..n + 1], ptrs + [0];
    forall i: nat, off: nat | i in Held(rs2, ptrs2) && off < rs2[i].size && Cell(rs2, ptrs2, i, off).Some?
      ensures ptrs2[i] + off < |m2| && m2[ptrs2[i] + off] == Cell(rs2, ptrs2, i, off).value
    {
      CellNext(rs, ptrs, 0, i, off);
      HeldBefore(rs, ptrs, 0, i);
    }
  }

  lemma HeldIsAlloc(rs: seq<Request>, ptrs: seq<nat>, held: set<nat>, j: nat)
    requires |ptrs| == |rs| && (forall i | i in held :: i < |rs| && rs[i].Get?) && j in held
    ensures Region(ptrs[j], rs[j].size) in Regions(rs, ptrs, held)
  {
  }

  lemma NoneHeld(bs: seq<Block>, m: seq<byte>)
    requires Allocs(bs) == {}
    ensures Served([], [], bs, m)
  {
    hide Allocs;
    assert Regions([], [], {}) == {};
  }

  /** What one request does to the regions held. */
  ghost function After(was: set<Region>, rs: seq<Request>, ptrs: seq<nat>, n: nat, ptr: nat,
                       held: set<nat>): set<Region>
    requires n < |rs| && |ptrs| == n && forall i | i in held :: i < n && rs[i].Get?
  {
    if rs[n].Get? then (if ptr != 0 then was + {Region(ptr, rs[n].size)} else was)
    else if rs[n].Drop? && rs[n].which in held then was - {Region(ptrs[rs[n].which], rs[rs[n].which].size)}
    else was
  }

  lemma HeldNext(rs: seq<Request>, ptrs: seq<nat>, n: nat, ptr: nat)
    requires n < |rs| && |ptrs| == n && Distinct(rs[..n], ptrs, Held(rs[..n], ptrs))
    requires rs[n].Get? && ptr != 0 ==> Region(ptr, rs[n].size) !in Regions(rs[..n], ptrs, Held(rs[..n], ptrs))
    ensures var held, held2 := Held(rs[..n], ptrs), Held(rs[..n + 1], ptrs + [ptr]);
            && Distinct(rs[..n + 1], ptrs + [ptr], held2)
            && Regions(rs[..n + 1], ptrs + [ptr], held2) ==
               After(Regions(rs[..n], ptrs, held), rs, ptrs, n, ptr, held)
  {
    var held, held2 := Held(rs[..n], ptrs), Held(rs[..n + 1], ptrs + [ptr]);
    assert rs[..n + 1][..n] == rs[..n] && (ptrs + [ptr])[..n] == ptrs;
    assert forall i | i in held :: rs[..n + 1][i] == rs[..n][i] && (ptrs + [ptr])[i] == ptrs[i];
  }

  // ---- Where the ranges end ----

  /** On any heap whose only block is free, the wrapped sum makes find_block answer a request of almost 4 GiB with
      that block, which does not hold it. */
  method HugeRequest(h: Heap, align: nat) returns (size: nat, block: nat)
    requires h.Structure() && |h.blocks| == 1 && !h.blocks[0].used && 0 < align && h.end + align + 4 <= U32_LIMIT
    ensures size < U32_LIMIT && block == h.blocks[0].addr && !Fits(h.blocks[0], size, align)
  {
    hide Passes, Fits, AlignUp, Needs, Linked, Ordered;
    BlockHeader(h.mem[..], h.blocks, h.base, h.end, 0);
    WrapPasses(h.blocks[0], align);
    var prefix := AlignUp(h.first + HEADER + 4, align) - (h.first + HEADER);
    size := U32_LIMIT - prefix;
    var found, user, consumed, i := h.FindBlock(size, align);
    block := found;
  }

  /** The value of `normalized` after `k` shifts. */
  function Shifted(k: nat): nat {
    if k == 0 then MIN_ALIGNMENT else Shifted(k - 1) * 2 % U32_LIMIT
  }

  /** An alignment above 2^31 is never reached, so normalize_align does not end for it. */
  lemma {:induction false} NeverReached(k: nat)
    ensures Shifted(k) <= 0x8000_0000
    ensures Shifted(k) == 0 || IsPow2(Shifted(k))
  {
    hide IsPow2;
    if k > 0 {
      NeverReached(k - 1);
      var x := Shifted(k - 1);
      if x != 0 {
        Doubled(x);
        if x < 0x8000_0000 {
          TopPower();
          PowerGap(x, 0x8000_0000);
        }
      }
    } else {
      LeastAlignment();
    }
  }

  lemma LeastAlignment()
    ensures IsPow2(MIN_ALIGNMENT)
  {
    assert IsPow2(2) && IsPow2(4);
  }

  lemma TopPower()
    ensures IsPow2(0x8000_0000)
  {
    assert IsPow2(0x8) && IsPow2(0x10) by { assert IsPow2(2) && IsPow2(4); }
    PowerProduct(0x10, 0x10);
    PowerProduct(0x100, 0x100);
    PowerProduct(0x10, 0x100);
    PowerProduct(0x1000, 0x1_0000);
    PowerProduct(0x8, 0x1000_0000);
  }

  lemma {:induction false} PowerProduct(a: nat, b: nat)
    requires IsPow2(a) && IsPow2(b)
    ensures IsPow2(a * b)
  {
    if a > 1 {
      PowerProduct(a / 2, b);
      Doubled(a / 2 * b);
      assert a * b == 2 * (a / 2 * b);
    }
  }

  lemma {:induction false} PowerGap(a: nat, b: nat)
    requires IsPow2(a) && IsPow2(b) && a < b
    ensures 2 * a <= b
  {
    if a > 1 {
      PowerGap(a / 2, b / 2);
    }
  }
}

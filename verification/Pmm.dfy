/** Single bits of a 32-bit word. */
module Bits {
  function Mask(k: bv6): bv32
    requires k < 32
  {
    (1 as bv32) << k
  }

  predicate Bit(w: bv32, k: bv6)
    requires k < 32
  {
    (w >> k) & 1 == 1
  }

  function WithBit(w: bv32, k: bv6): bv32
    requires k < 32
  {
    w | Mask(k)
  }

  function WithoutBit(w: bv32, k: bv6): bv32
    requires k < 32
  {
    w & !Mask(k)
  }

  lemma MaskBit(k: bv6, j: bv6)
    requires k < 32 && j < 32
    ensures Bit(Mask(k), j) <==> j == k
  {
  }

  lemma OrBit(w: bv32, m: bv32, j: bv6)
    requires j < 32
    ensures Bit(w | m, j) <==> Bit(w, j) || Bit(m, j)
  {
  }

  lemma AndNotBit(w: bv32, m: bv32, j: bv6)
    requires j < 32
    ensures Bit(w & !m, j) <==> Bit(w, j) && !Bit(m, j)
  {
  }

  lemma NoBit(k: bv6)
    requires k < 32
    ensures !Bit(0, k)
  {
  }

  lemma SetBit(w: bv32, k: bv6, j: bv6)
    requires k < 32 && j < 32
    ensures Bit(WithBit(w, k), j) <==> j == k || Bit(w, j)
  {
    hide Bit, Mask;
    MaskBit(k, j);
    OrBit(w, Mask(k), j);
  }

  lemma ClearBit(w: bv32, k: bv6, j: bv6)
    requires k < 32 && j < 32
    ensures Bit(WithoutBit(w, k), j) <==> j != k && Bit(w, j)
  {
    hide Bit, Mask;
    MaskBit(k, j);
    AndNotBit(w, Mask(k), j);
  }

  /** The bit of frame `f` within its word. */
  function Index(f: nat): (k: bv6)
    ensures k < 32
  {
    (f % 32) as bv6
  }

  lemma IndexBack(f: nat)
    ensures Index(f) as nat == f % 32
  {
  }

  lemma IndexDiffers(f: nat, g: nat)
    requires f / 32 == g / 32 && Index(f) == Index(g)
    ensures f == g
  {
    IndexBack(f);
    IndexBack(g);
  }
}

/** The physical frame allocator: a word bitmap searched first-fit. */
module Pmm {
  import opened Bits
  import opened Bytes

  const MAX_FRAMES: nat := 1024 * 1024
  const LOW_FRAMES: nat := 256

  predicate Used(words: seq<bv32>, f: nat)
    requires f / 32 < |words|
  {
    Bit(words[f / 32], Index(f))
  }

  /** The frames below `cap` whose bit is clear. */
  ghost function FreeSet(words: seq<bv32>, cap: nat): set<nat> {
    set f: nat | f < cap && f / 32 < |words| && !Used(words, f)
  }

  predicate Between(f: nat, lo: nat, hi: nat) {
    lo <= f < hi
  }

  ghost function Frames(lo: nat, hi: nat): set<nat> {
    set f: nat | f < hi && Between(f, lo, hi)
  }

  ghost predicate IsLeast(s: set<nat>, f: nat) {
    f in s && forall g | g in s :: f <= g
  }

  lemma UsedSet(words: seq<bv32>, f: nat, g: nat)
    requires f / 32 < |words| && g / 32 < |words|
    ensures Used(words[f / 32 := WithBit(words[f / 32], Index(f))], g) <==> g == f || Used(words, g)
  {
    hide Bit, WithBit, WithoutBit, Index;
    SetBit(words[f / 32], Index(f), Index(g));
    if f / 32 == g / 32 && Index(f) == Index(g) { IndexDiffers(f, g); }
  }

  lemma UsedClear(words: seq<bv32>, f: nat, g: nat)
    requires f / 32 < |words| && g / 32 < |words|
    ensures Used(words[f / 32 := WithoutBit(words[f / 32], Index(f))], g) <==> g != f && Used(words, g)
  {
    hide Bit, WithBit, WithoutBit, Index;
    ClearBit(words[f / 32], Index(f), Index(g));
    if f / 32 == g / 32 && Index(f) == Index(g) { IndexDiffers(f, g); }
  }

  lemma FreeAfterSet(words: seq<bv32>, cap: nat, f: nat)
    requires f / 32 < |words|
    ensures FreeSet(words[f / 32 := WithBit(words[f / 32], Index(f))], cap) == FreeSet(words, cap) - {f}
  {
    hide Used, WithBit, WithoutBit, Index;
    var w := words[f / 32 := WithBit(words[f / 32], Index(f))];
    forall g: nat | g < cap && g / 32 < |words|
      ensures Used(w, g) <==> g == f || Used(words, g)
    {
      UsedSet(words, f, g);
    }
  }

  lemma FreeAfterClear(words: seq<bv32>, cap: nat, f: nat)
    requires f / 32 < |words| && f < cap
    ensures FreeSet(words[f / 32 := WithoutBit(words[f / 32], Index(f))], cap) == FreeSet(words, cap) + {f}
  {
    hide Used, WithBit, WithoutBit, Index;
    var w := words[f / 32 := WithoutBit(words[f / 32], Index(f))];
    forall g: nat | g < cap && g / 32 < |words|
      ensures Used(w, g) <==> g != f && Used(words, g)
    {
      UsedClear(words, f, g);
    }
  }

  class PMM {
    const bitmap: array<bv32>
    var frameCap: nat
    var freeFrames: nat

    /** The static storage: 32768 words, one bit for each of a million frames. */
    constructor ()
      ensures fresh(bitmap) && bitmap.Length == 32768 && frameCap == 0 && freeFrames == 0 && Valid()
    {
      bitmap := new bv32[32768];
      frameCap, freeFrames := 0, 0;
    }

    ghost function Free(): (s: set<nat>)
      reads this, bitmap
      ensures forall f | f in s :: f < frameCap
    {
      FreeSet(bitmap[..], frameCap)
    }

    /** The counter is the exact number of free frames. */
    ghost predicate Valid()
      reads this, bitmap
    {
      bitmap.Length == 32768 && frameCap <= MAX_FRAMES && freeFrames == |Free()|
    }

    method BSet(f: nat)
      requires f / 32 < bitmap.Length
      modifies bitmap
      ensures bitmap[..] == old(bitmap[..])[f / 32 := WithBit(old(bitmap[f / 32]), Index(f))]
      ensures Free() == old(Free()) - {f}
    {
      hide Used, WithBit, WithoutBit, Index, FreeSet;
      FreeAfterSet(bitmap[..], frameCap, f);
      bitmap[f / 32] := WithBit(bitmap[f / 32], Index(f));
      assert bitmap[..] == old(bitmap[..])[f / 32 := WithBit(old(bitmap[f / 32]), Index(f))];
    }

    method BClr(f: nat)
      requires f / 32 < bitmap.Length && f < frameCap
      modifies bitmap
      ensures Free() == old(Free()) + {f}
    {
      hide Used, WithBit, WithoutBit, Index, FreeSet;
      FreeAfterClear(bitmap[..], frameCap, f);
      bitmap[f / 32] := WithoutBit(bitmap[f / 32], Index(f));
      assert bitmap[..] == old(bitmap[..])[f / 32 := WithoutBit(old(bitmap[f / 32]), Index(f))];
    }

    method BGet(f: nat) returns (b: bool)
      requires f / 32 < bitmap.Length && f < frameCap
      ensures b <==> f !in Free()
    {
      b := Bit(bitmap[f / 32], Index(f));
    }

    /** Everything from 1 MiB up to the cap is free, except the kernel image. */
    method Init(memLowerKB: nat, memUpperKB: nat, kernelStart: nat, kernelEnd: nat)
      requires bitmap.Length == 32768
      modifies this, bitmap
      ensures Valid() && frameCap == FrameCap(memLowerKB, memUpperKB)
      ensures Free() == Frames(LOW_FRAMES, frameCap) - Frames(FrameOf(kernelStart), FrameUp(kernelEnd))
      ensures kernelStart < kernelEnd ==>
                Free() == Frames(LOW_FRAMES, frameCap) - Overlap(kernelStart, kernelEnd, frameCap)
    {
      hide Used, WithBit, WithoutBit, Index, FreeSet, FrameCap, Frames, Overlap, FrameOf, FrameUp;
      frameCap := CapFrames(memLowerKB, memUpperKB);
      ClearWords();
      TakeFrames(0, LOW_FRAMES);
      if kernelStart < kernelEnd {
        OverlapIs(kernelStart, kernelEnd, frameCap);
      }
      var kendF := FrameUp(kernelEnd);
      if kendF > frameCap {
        kendF := frameCap;
      }
      TakeFrames(FrameOf(kernelStart), kendF);
      InitiallyFree(frameCap, FrameOf(kernelStart), FrameUp(kernelEnd));
      var used := CountUsed();
      freeFrames := frameCap - used;
    }

    /** Sets the bits of a run of frames. */
    method TakeFrames(lo: nat, hi: nat)
      requires bitmap.Length == 32768 && hi <= MAX_FRAMES
      modifies bitmap
      ensures Free() == old(Free()) - Frames(lo, hi)
    {
      hide Used, WithBit, WithoutBit, Index, FreeSet, Frames;
      FramesNone(lo, if lo < hi then lo else hi);
      var f := lo;
      while f < hi
        invariant lo <= f && Free() == old(Free()) - Frames(lo, if f < hi then f else hi)
      {
        FramesNext(lo, f);
        BSet(f);
        f := f + 1;
      }
    }

    method ClearWords()
      requires bitmap.Length == 32768 && frameCap <= MAX_FRAMES
      modifies bitmap
      ensures Free() == Frames(0, frameCap)
    {
      var words := (frameCap + 31) / 32;
      var i := 0;
      while i < words
        invariant 0 <= i <= words
        invariant forall k | 0 <= k < i :: bitmap[k] == 0
      {
        bitmap[i] := 0;
        i := i + 1;
      }
      forall f: nat | f < frameCap
        ensures !Used(bitmap[..], f)
      {
        assert f / 32 < words && bitmap[f / 32] == 0;
        NoBit(Index(f));
      }
    }

    method CountUsed() returns (used: nat)
      requires bitmap.Length == 32768 && frameCap <= MAX_FRAMES
      ensures used + |Free()| == frameCap
    {
      hide Used;
      used := 0;
      var f := 0;
      ghost var seen: set<nat> := {};
      while f < frameCap
        invariant 0 <= f <= frameCap
        invariant seen == (set g: nat | g < f && g in Free()) && used + |seen| == f
      {
        var b := BGet(f);
        if b {
          used := used + 1;
        } else {
          seen := seen + {f};
        }
        f := f + 1;
      }
      assert seen == Free();
    }

    /** Marks one frame used, if it was free. */
    method TakeOne(f: nat)
      requires Valid() && f < frameCap
      modifies this`freeFrames, bitmap
      ensures Valid() && Free() == old(Free()) - {f}
    {
      hide Used, WithBit, WithoutBit, Index, FreeSet;
      var b := BGet(f);
      if !b {
        BSet(f);
        if freeFrames != 0 {
          freeFrames := freeFrames - 1;
        }
      }
    }

    /** Marks one frame free, if it was used. */
    method GiveOne(f: nat)
      requires Valid() && f < frameCap
      modifies this`freeFrames, bitmap
      ensures Valid() && Free() == old(Free()) + {f}
    {
      hide Used, WithBit, WithoutBit, Index, FreeSet;
      var b := BGet(f);
      if b {
        BClr(f);
        freeFrames := freeFrames + 1;
      }
    }

    method TakeRun(lo: nat, hi: nat)
      requires Valid() && hi <= frameCap
      modifies this`freeFrames, bitmap
      ensures Valid() && Free() == old(Free()) - Frames(lo, hi)
    {
      hide Used, WithBit, WithoutBit, Index, FreeSet, Frames;
      FramesNone(lo, if lo < hi then lo else hi);
      var f := lo;
      while f < hi
        invariant lo <= f && Valid() && Free() == old(Free()) - Frames(lo, if f < hi then f else hi)
      {
        FramesNext(lo, f);
        TakeOne(f);
        f := f + 1;
      }
    }

    method GiveRun(lo: nat, hi: nat)
      requires Valid() && hi <= frameCap
      modifies this`freeFrames, bitmap
      ensures Valid() && Free() == old(Free()) + Frames(lo, hi)
    {
      hide Used, WithBit, WithoutBit, Index, FreeSet, Frames;
      FramesNone(lo, if lo < hi then lo else hi);
      var f := lo;
      while f < hi
        invariant lo <= f && Valid() && Free() == old(Free()) + Frames(lo, if f < hi then f else hi)
      {
        FramesNext(lo, f);
        GiveOne(f);
        f := f + 1;
      }
    }

    /** Takes the frames that overlap [start, end). */
    method MarkRangeUsed(start: nat, end: nat)
      requires Valid()
      modifies this`freeFrames, bitmap
      ensures Valid() && Free() == old(Free()) - Overlap(start, end, frameCap)
    {
      hide Used, WithBit, WithoutBit, Index, FreeSet, Frames, Touches, Overlap, FrameOf, FrameUp;
      if end <= start {
        NoOverlap(start, end, frameCap);
        return;
      }
      OverlapIs(start, end, frameCap);
      var s := FrameOf(start);
      var e := FrameUp(end);
      if e > frameCap {
        e := frameCap;
      }
      TakeRun(s, e);
    }

    /** Gives back the frames that overlap [start, end). */
    method MarkRangeFree(start: nat, end: nat)
      requires Valid()
      modifies this`freeFrames, bitmap
      ensures Valid() && Free() == old(Free()) + Overlap(start, end, frameCap)
    {
      hide Used, WithBit, WithoutBit, Index, FreeSet, Frames, Touches, Overlap, FrameOf, FrameUp;
      if end <= start {
        NoOverlap(start, end, frameCap);
        return;
      }
      OverlapIs(start, end, frameCap);
      var s := FrameOf(start);
      var e := FrameUp(end);
      if e > frameCap {
        e := frameCap;
      }
      GiveRun(s, e);
    }

    /** First fit: the address of the least free frame, or 0 when none is free. */
    method AllocFrame() returns (pa: nat)
      requires Valid()
      modifies this`freeFrames, bitmap
      ensures Valid() && pa % PAGE_SIZE == 0
      ensures old(Free()) == {} ==> pa == 0 && Free() == {}
      ensures old(Free()) != {} ==> IsLeast(old(Free()), pa / PAGE_SIZE) && Free() == old(Free()) - {pa / PAGE_SIZE}
    {
      hide Used, WithBit, WithoutBit, Index;
      var f := 0;
      while f < frameCap
        invariant 0 <= f <= frameCap && Valid() && Free() == old(Free())
        invariant forall g: nat | g < f :: g !in Free()
      {
        var b := BGet(f);
        if !b {
          BSet(f);
          if freeFrames != 0 {
            freeFrames := freeFrames - 1;
          }
          return f * PAGE_SIZE;
        }
        f := f + 1;
      }
      return 0;
    }

    /** Frees a used frame; a frame that is free already or beyond the cap is left alone. */
    method FreeFrame(addr: nat)
      requires Valid() && addr % PAGE_SIZE == 0
      modifies this`freeFrames, bitmap
      ensures Valid()
      ensures Free() == if addr / PAGE_SIZE < frameCap then old(Free()) + {addr / PAGE_SIZE} else old(Free())
    {
      hide Used, WithBit, WithoutBit, Index;
      var f := addr / PAGE_SIZE;
      if f < frameCap {
        GiveOne(f);
      }
    }
  }

  function FrameCap(memLowerKB: nat, memUpperKB: nat): (r: nat)
    ensures LOW_FRAMES <= r <= MAX_FRAMES
  {
    var bytes := if memLowerKB == 0 && memUpperKB == 0 then 0x800_0000 else (memLowerKB + memUpperKB) * 1024;
    if bytes < 0x100000 then LOW_FRAMES
    else if bytes / PAGE_SIZE > MAX_FRAMES then MAX_FRAMES
    else bytes / PAGE_SIZE
  }

  method CapFrames(memLowerKB: nat, memUpperKB: nat) returns (cap: nat)
    ensures cap == FrameCap(memLowerKB, memUpperKB)
  {
    var totalBytes := memLowerKB * 1024 + memUpperKB * 1024;
    if memLowerKB == 0 && memUpperKB == 0 {
      totalBytes := 128 * 1024 * 1024;
    }
    if totalBytes < 0x100000 {
      totalBytes := 0x100000;
    }
    cap := totalBytes / PAGE_SIZE;
    if cap > MAX_FRAMES {
      cap := MAX_FRAMES;
    }
  }

  lemma InitiallyFree(cap: nat, lo: nat, hi: nat)
    ensures Frames(0, cap) - Frames(0, LOW_FRAMES) - Frames(lo, if hi > cap then cap else hi)
            == Frames(LOW_FRAMES, cap) - Frames(lo, hi) ==
                Frames(LOW_FRAMES, cap) - Frames(lo, if hi > cap then cap else hi)
  {
  }

  lemma FramesNext(lo: nat, hi: nat)
    requires lo <= hi
    ensures Frames(lo, hi + 1) == Frames(lo, hi) + {hi}
  {
  }

  lemma FramesNone(lo: nat, hi: nat)
    requires hi <= lo
    ensures Frames(lo, hi) == {}
  {
  }

  /** Frame `f` shares a byte with [start, end). */
  ghost predicate Touches(start: nat, end: nat, f: nat) {
    exists a: nat :: start <= a < end && FrameOf(a) == f
  }

  function FrameOf(a: nat): nat {
    a / PAGE_SIZE
  }

  /** Rounded up. The sum does not wrap: the page size is a 64-bit constant, so it is taken in 64 bits. */
  function FrameUp(a: nat): (f: nat)
    ensures a < U32_LIMIT ==> a + PAGE_SIZE - 1 < 0x1_0000_0000_0000_0000 && f <= MAX_FRAMES
  {
    (a + PAGE_SIZE - 1) / PAGE_SIZE
  }

  ghost function Overlap(start: nat, end: nat, cap: nat): set<nat> {
    set f: nat | f < cap && Touches(start, end, f)
  }

  lemma TouchesIff(start: nat, end: nat, f: nat)
    requires start < end
    ensures Touches(start, end, f) <==> FrameOf(start) <= f < FrameUp(end)
  {
    assert PAGE_SIZE == 4096 && FrameOf(start) == start / 4096 && FrameUp(end) == (end + 4095) / 4096;
    if FrameOf(start) <= f < FrameUp(end) {
      var a := if start <= f * 4096 then f * 4096 else start;
      assert FrameOf(a) == f && start <= a < end;
    }
  }

  lemma NoOverlap(start: nat, end: nat, cap: nat)
    requires end <= start
    ensures Overlap(start, end, cap) == {}
  {
  }

  lemma OverlapIs(start: nat, end: nat, cap: nat)
    requires start < end
    ensures var e := FrameUp(end); Overlap(start, end, cap) == Frames(FrameOf(start), if e > cap then cap else e)
  {
    hide FrameOf, FrameUp, Touches;
    forall f: nat
      ensures Touches(start, end, f) <==> FrameOf(start) <= f < FrameUp(end)
    {
      TouchesIff(start, end, f);
    }
  }

  // ---- Runs of clients that free only what they got ----

  datatype Request = Take | Give(addr: nat)

  /** The frames that may ever be handed out: from 1 MiB on, below the cap, and clear of the kernel image. */
  ghost function Usable(cap: nat, kernelStart: nat, kernelEnd: nat): (s: set<nat>)
    ensures forall f | f in s :: f * PAGE_SIZE >= 0x100000 && f < cap && !Touches(kernelStart, kernelEnd, f)
  {
    hide Touches;
    Frames(LOW_FRAMES, cap) - Overlap(kernelStart, kernelEnd, cap)
  }

  /** What one request does, when `held` is lent out of `all`: a frame that is not lent, the least of them, or 0 when
      all are lent; a frame given back is no longer lent, and one that is not lent is not given back. */
  ghost predicate Answered(req: Request, pa: nat, held: set<nat>, held2: set<nat>, all: set<nat>) {
    match req
    case Take =>
      if pa == 0 then held == all && held2 == held
      else pa % PAGE_SIZE == 0 && IsLeast(all - held, pa / PAGE_SIZE) && held2 == held + {pa / PAGE_SIZE}
    case Give(addr) => pa == 0 && held2 == held - {addr / PAGE_SIZE}
  }

  /** Boots the allocator and serves requests in order. At every point what is free and what is lent make up the
      usable frames, so no frame is lent twice and no reserved one is ever lent. */
  method Serve(pmm: PMM, memLowerKB: nat, memUpperKB: nat, kernelStart: nat, kernelEnd: nat, reqs: seq<Request>)
    returns (pas: seq<nat>, ghost helds: seq<set<nat>>)
    requires pmm.bitmap.Length == 32768 && kernelStart < kernelEnd
    requires forall req | req in reqs && req.Give? :: req.addr % PAGE_SIZE == 0
    modifies pmm, pmm.bitmap
    ensures pmm.Valid() && |pas| == |reqs| && |helds| == |reqs| + 1 && helds[0] == {}
    ensures var all := Usable(FrameCap(memLowerKB, memUpperKB), kernelStart, kernelEnd);
            && (forall i | 0 <= i < |reqs| :: Answered(reqs[i], pas[i], helds[i], helds[i + 1], all))
            && helds[|reqs|] <= all && pmm.Free() == all - helds[|reqs|]
  {
    hide FreeSet, Frames, Overlap, Touches, Answered, FrameCap;
    pmm.Init(memLowerKB, memUpperKB, kernelStart, kernelEnd);
    ghost var all := Usable(pmm.frameCap, kernelStart, kernelEnd);
    UsableIs(pmm.frameCap, kernelStart, kernelEnd);
    var lent: set<nat> := {};
    pas, helds := [], [{}];
    for i := 0 to |reqs|
      invariant pmm.Valid() && pmm.frameCap == FrameCap(memLowerKB, memUpperKB) && |pas| == i && |helds| == i + 1
      invariant helds[0] == {} && helds[i] == lent <= all && pmm.Free() == all - lent
      invariant forall j | 0 <= j < i :: Answered(reqs[j], pas[j], helds[j], helds[j + 1], all)
    {
      assert reqs[i] in reqs;
      var pa, lent2 := Answer(pmm, reqs[i], lent, all);
      lent := lent2;
      pas, helds := pas + [pa], helds + [lent];
    }
  }

  method Answer(pmm: PMM, req: Request, lent: set<nat>, ghost all: set<nat>) returns (pa: nat, lent2: set<nat>)
    requires pmm.Valid() && lent <= all && pmm.Free() == all - lent && (req.Give? ==> req.addr % PAGE_SIZE == 0)
    requires forall f | f in all :: 0 < f < pmm.frameCap
    modifies pmm`freeFrames, pmm.bitmap
    ensures pmm.Valid() && lent2 <= all && pmm.Free() == all - lent2
    ensures Answered(req, pa, lent, lent2, all)
  {
    hide FreeSet, Answered, IsLeast;
    ghost var free := pmm.Free();
    match req {
      case Take =>
        pa := pmm.AllocFrame();
        Lent(free, lent, all, pa);
        lent2 := if pa == 0 then lent else lent + {FrameOf(pa)};
      case Give(addr) =>
        Returned(lent, all, addr);
        pa, lent2 := 0, lent - {FrameOf(addr)};
        if FrameOf(addr) in lent {
          pmm.FreeFrame(addr);
        }
    }
  }

  lemma Lent(free: set<nat>, lent: set<nat>, all: set<nat>, pa: nat)
    requires free == all - lent && lent <= all && pa % PAGE_SIZE == 0 && (forall f | f in all :: f > 0)
    requires if free == {} then pa == 0 else IsLeast(free, pa / PAGE_SIZE)
    ensures free == {} <==> pa == 0
    ensures Answered(Take, pa, lent, if pa == 0 then lent else lent + {FrameOf(pa)}, all)
    ensures pa != 0 ==> FrameOf(pa) in all && all - (lent + {FrameOf(pa)}) == free - {FrameOf(pa)}
  {
    assert all <= lent + free;
    assert 0 / PAGE_SIZE == 0;
  }

  lemma Returned(lent: set<nat>, all: set<nat>, addr: nat)
    requires lent <= all
    ensures Answered(Give(addr), 0, lent, lent - {FrameOf(addr)}, all)
    ensures FrameOf(addr) in lent ==> all - (lent - {FrameOf(addr)}) == all - lent + {FrameOf(addr)}
    ensures FrameOf(addr) !in lent ==> lent - {FrameOf(addr)} == lent
  {
  }

  lemma UsableIs(cap: nat, kernelStart: nat, kernelEnd: nat)
    ensures Usable(cap, kernelStart, kernelEnd) == Frames(LOW_FRAMES, cap) - Overlap(kernelStart, kernelEnd, cap)
    ensures forall f | f in Usable(cap, kernelStart, kernelEnd) :: 0 < f < cap
  {
    hide Overlap;
  }
}

/**
  The two-level page tables of 32-bit paging (section 4.3 of volume 3A of the Intel SDM). Page directory and page
  tables are frames of the identity-mapped first 64 MiB of physical memory, kept here as an array of words.
*/
module Paging {
  import opened Bytes
  import opened Pmm

  const WINDOW_FRAMES: nat := 16384
  const ENTRIES: nat := 1024
  const PAGES: nat := 1024 * 1024

  const PRESENT: nat := 1
  const RW: nat := 2
  const USER: nat := 4

  datatype Mapping = Mapping(frame: nat, flags: nat)

  function PdeIndex(addr: nat): (i: nat)
    ensures i < ENTRIES
  {
    addr / 0x400000 % ENTRIES
  }

  function PteIndex(addr: nat): (i: nat)
    ensures i < ENTRIES
  {
    addr / PAGE_SIZE % ENTRIES
  }

  function PageOf(addr: nat): nat {
    addr / PAGE_SIZE
  }

  predicate IsPresent(e: nat) {
    e % 2 == 1
  }

  predicate HasUser(e: nat) {
    e / USER % 2 == 1
  }

  function OrUser(e: nat): nat {
    if HasUser(e) then e else e + USER
  }

  /** The low twelve bits of an entry: the flags given, with the present bit. */
  function EntryFlags(flags: nat): (r: nat)
    ensures r < PAGE_SIZE && IsPresent(r)
  {
    var f := flags % PAGE_SIZE;
    if IsPresent(f) then f else f + PRESENT
  }

  // ---- The tables as a value ----

  ghost predicate Sized(m: seq<nat>, pd: nat) {
    |m| == WINDOW_FRAMES * ENTRIES && pd < WINDOW_FRAMES
  }

  ghost function Pde(m: seq<nat>, pd: nat, i: nat): nat
    requires Sized(m, pd) && i < ENTRIES
  {
    m[pd * ENTRIES + i]
  }

  /** Directory slot `i` points to a table in the window. */
  ghost predicate HasTable(m: seq<nat>, pd: nat, i: nat) {
    Sized(m, pd) && i < ENTRIES && IsPresent(Pde(m, pd, i))
  }

  ghost function Table(m: seq<nat>, pd: nat, i: nat): nat
    requires HasTable(m, pd, i)
  {
    Pde(m, pd, i) / PAGE_SIZE
  }

  /** Directory and tables occupy distinct frames of the window, none of them free. */
  ghost predicate Apart(m: seq<nat>, pd: nat, free: set<nat>) {
    && Sized(m, pd) && pd !in free && 0 !in free
    && (forall i | 0 <= i < ENTRIES && HasTable(m, pd, i) ::
          Table(m, pd, i) < WINDOW_FRAMES && Table(m, pd, i) != pd && Table(m, pd, i) !in free)
    && (forall i, j | 0 <= i < j < ENTRIES && HasTable(m, pd, i)
        && HasTable(m, pd, j) :: Table(m, pd, i) != Table(m, pd, j))
  }

  /** The entry that decides page `p`; 0 when its table is missing. */
  ghost function Pte(m: seq<nat>, pd: nat, p: nat): nat
    requires p < PAGES
  {
    if HasTable(m, pd, p / ENTRIES) && Table(m, pd, p / ENTRIES) < WINDOW_FRAMES
    then m[Table(m, pd, p / ENTRIES) * ENTRIES + p % ENTRIES] else 0
  }

  /** The translation the tables stand for. */
  ghost function Translation(m: seq<nat>, pd: nat): map<nat, Mapping> {
    map p: nat | p < PAGES && IsPresent(Pte(m, pd, p)) :: Mapping(Pte(m, pd, p) / PAGE_SIZE, Pte(m, pd, p) % PAGE_SIZE)
  }

  lemma SameEntries(m: seq<nat>, m2: seq<nat>, pd: nat)
    requires forall p: nat | p < PAGES :: Pte(m2, pd, p) == Pte(m, pd, p)
    ensures Translation(m2, pd) == Translation(m, pd)
  {
    hide Pte;
  }

  /** Writing one table slot changes the entry of one page. */
  lemma WriteEntry(m: seq<nat>, pd: nat, free: set<nat>, p: nat, e: nat)
    requires Apart(m, pd, free) && p < PAGES && HasTable(m, pd, p / ENTRIES)
    ensures Table(m, pd, p / ENTRIES) * ENTRIES + p % ENTRIES < |m|
    ensures var m2 := m[Table(m, pd, p / ENTRIES) * ENTRIES + p % ENTRIES := e];
            && Apart(m2, pd, free) && TablesKept(m, m2, pd) && TablesKept(m2, m, pd)
            && (forall i | 0 <= i < ENTRIES :: Pde(m2, pd, i) == Pde(m, pd, i))
            && (forall q: nat | q < PAGES :: Pte(m2, pd, q) == if q == p then e else Pte(m, pd, q))
  {
    var t := Table(m, pd, p / ENTRIES);
    var w := t * ENTRIES + p % ENTRIES;
    var m2 := m[w := e];
    assert forall i | 0 <= i < ENTRIES :: Pde(m2, pd, i) == Pde(m, pd, i);
    forall q: nat | q < PAGES
      ensures Pte(m2, pd, q) == if q == p then e else Pte(m, pd, q)
    {
      EntryElsewhere(m, pd, free, p, q, e);
    }
    ApartSame(m, m2, pd, free);
  }

  lemma EntryElsewhere(m: seq<nat>, pd: nat, free: set<nat>, p: nat, q: nat, e: nat)
    requires Apart(m, pd, free) && p < PAGES && q < PAGES && HasTable(m, pd, p / ENTRIES)
    ensures Table(m, pd, p / ENTRIES) * ENTRIES + p % ENTRIES < |m|
    ensures var m2 := m[Table(m, pd, p / ENTRIES) * ENTRIES + p % ENTRIES := e];
            Pte(m2, pd, q) == if q == p then e else Pte(m, pd, q)
  {
    var i, j := p / ENTRIES, q / ENTRIES;
    var m2 := m[Table(m, pd, i) * ENTRIES + p % ENTRIES := e];
    assert Pde(m2, pd, j) == Pde(m, pd, j);
    if i == j {
      assert q % ENTRIES == p % ENTRIES ==> q == p;
    }
  }

  lemma ApartSame(m: seq<nat>, m2: seq<nat>, pd: nat, free: set<nat>)
    requires Apart(m, pd, free) && Sized(m2, pd)
    requires forall i | 0 <= i < ENTRIES :: IsPresent(Pde(m2, pd, i)) == IsPresent(Pde(m, pd, i))
                                          && Pde(m2, pd, i) / PAGE_SIZE == Pde(m, pd, i) / PAGE_SIZE
    ensures Apart(m2, pd, free)
  {
    hide IsPresent;
    assert forall i | 0 <= i < ENTRIES :: HasTable(m2, pd, i) == HasTable(m, pd, i);
  }

  /** Frames taken from the free set by others leave the tables apart. */
  lemma ApartLess(m: seq<nat>, pd: nat, free: set<nat>, free2: set<nat>)
    requires Apart(m, pd, free) && free2 <= free
    ensures Apart(m, pd, free2) && 0 !in free
  {
  }

  /** Changing only flags of a directory slot changes no entry. */
  lemma WriteFlags(m: seq<nat>, pd: nat, free: set<nat>, i: nat, e: nat)
    requires Apart(m, pd, free) && HasTable(m, pd, i) && IsPresent(e) && e / PAGE_SIZE == Table(m, pd, i)
    ensures var m2 := m[pd * ENTRIES + i := e];
            Apart(m2, pd, free) && HasTable(m2, pd, i) && Table(m2, pd, i) == Table(m, pd, i) && TablesKept(m, m2, pd)
                && TablesKept(m2, m, pd) && forall q: nat | q < PAGES :: Pte(m2, pd, q) == Pte(m, pd, q)
  {
    var m2 := m[pd * ENTRIES + i := e];
    assert forall j | 0 <= j < ENTRIES :: Pde(m2, pd, j) == if j == i then e else Pde(m, pd, j);
    ApartSame(m, m2, pd, free);
    forall q: nat | q < PAGES
      ensures Pte(m2, pd, q) == Pte(m, pd, q)
    {
      var j := q / ENTRIES;
      assert HasTable(m2, pd, j) == HasTable(m, pd, j);
      if HasTable(m, pd, j) {
        assert Table(m2, pd, j) == Table(m, pd, j) && Table(m, pd, j) != pd;
      }
    }
  }

  /** Every directory slot that had a table still has one. */
  ghost predicate TablesKept(m: seq<nat>, m2: seq<nat>, pd: nat) {
    forall i: nat | i < ENTRIES && HasTable(m, pd, i) :: HasTable(m2, pd, i)
  }

  /** Every directory slot of the 64 MiB window has its table, as after a complete identity map. */
  ghost predicate WindowReady(m: seq<nat>, pd: nat) {
    forall i: nat | i < 16 :: HasTable(m, pd, i)
  }

  lemma ReadyBelow(m: seq<nat>, m2: seq<nat>, pd: nat, vaddr: nat)
    ensures WindowReady(m, pd) && vaddr < WINDOW_FRAMES * PAGE_SIZE ==> HasTable(m, pd, PdeIndex(vaddr))
    ensures WindowReady(m, pd) && TablesKept(m, m2, pd) ==> WindowReady(m2, pd)
  {
  }

  lemma ReadyAfterIdentity(m: seq<nat>, pd: nat)
    requires TablesFor(m, pd, WINDOW_FRAMES)
    ensures WindowReady(m, pd)
  {
  }

  /** A table appeared at most in directory slot `i`. */
  ghost predicate OneNewTable(m: seq<nat>, m2: seq<nat>, pd: nat, i: nat) {
    forall j: nat | j < ENTRIES && HasTable(m2, pd, j) && j != i :: HasTable(m, pd, j)
  }

  /** `m2` is `m` with frame `t` zeroed and directory slot `i` pointing to it. */
  ghost predicate Added(m: seq<nat>, m2: seq<nat>, pd: nat, i: nat, t: nat, e: nat) {
    && Sized(m, pd) && |m2| == |m| && i < ENTRIES && t < WINDOW_FRAMES
    && forall w | 0 <= w < |m| ::
         m2[w] == if w == pd * ENTRIES + i then e else if t * ENTRIES <= w < t * ENTRIES + ENTRIES then 0 else m[w]
  }

  /** A new empty table in a free frame changes no entry. */
  lemma AddTable(m: seq<nat>, m2: seq<nat>, pd: nat, free: set<nat>, i: nat, t: nat, e: nat)
    requires Apart(m, pd, free) && t in free && Added(m, m2, pd, i, t, e)
    requires !HasTable(m, pd, i) && IsPresent(e) && e / PAGE_SIZE == t
    ensures Apart(m2, pd, free - {t}) && HasTable(m2, pd, i) && Table(m2, pd, i) == t && TablesKept(m, m2, pd)
            && OneNewTable(m, m2, pd, i)
    ensures forall q: nat | q < PAGES :: Pte(m2, pd, q) == Pte(m, pd, q)
  {
    assert t != pd;
    forall j | 0 <= j < ENTRIES
      ensures Pde(m2, pd, j) == if j == i then e else Pde(m, pd, j)
    {
    }
    AddedApart(m, m2, pd, free, i, t, e);
    forall q: nat | q < PAGES
      ensures Pte(m2, pd, q) == Pte(m, pd, q)
    {
      AddedEntry(m, m2, pd, free, i, t, e, q);
    }
  }

  lemma AddedApart(m: seq<nat>, m2: seq<nat>, pd: nat, free: set<nat>, i: nat, t: nat, e: nat)
    requires Apart(m, pd, free) && Sized(m2, pd) && t in free && t < WINDOW_FRAMES && i < ENTRIES
    requires !HasTable(m, pd, i) && IsPresent(e) && e / PAGE_SIZE == t
    requires forall j | 0 <= j < ENTRIES :: Pde(m2, pd, j) == if j == i then e else Pde(m, pd, j)
    ensures Apart(m2, pd, free - {t}) && HasTable(m2, pd, i) && Table(m2, pd, i) == t
  {
    hide IsPresent;
    assert forall j | 0 <= j < ENTRIES && j != i :: HasTable(m2, pd, j) == HasTable(m, pd, j);
  }

  lemma AddedEntry(m: seq<nat>, m2: seq<nat>, pd: nat, free: set<nat>, i: nat, t: nat, e: nat, q: nat)
    requires Apart(m, pd, free) && t in free && Added(m, m2, pd, i, t, e) && q < PAGES
    requires !HasTable(m, pd, i) && IsPresent(e) && e / PAGE_SIZE == t
    ensures Pte(m2, pd, q) == Pte(m, pd, q)
  {
    var j := q / ENTRIES;
    assert Pde(m2, pd, j) == if j == i then e else Pde(m, pd, j);
    if j == i {
      assert Table(m2, pd, j) == t;
      assert m2[t * ENTRIES + q % ENTRIES] == 0;
    } else if HasTable(m, pd, j) {
      var x := Table(m, pd, j);
      assert x != t && x != pd;
      assert m2[x * ENTRIES + q % ENTRIES] == m[x * ENTRIES + q % ENTRIES];
    }
  }

  /** What one page's entry becoming `e` does to the translation. */
  lemma OneEntry(m: seq<nat>, m2: seq<nat>, pd: nat, p: nat, e: nat)
    requires p < PAGES && forall q: nat | q < PAGES :: Pte(m2, pd, q) == if q == p then e else Pte(m, pd, q)
    ensures Translation(m2, pd) ==
            if IsPresent(e) then Translation(m, pd)[p := Mapping(e / PAGE_SIZE, e % PAGE_SIZE)]
                else Translation(m, pd) - {p}
  {
    hide Pte, IsPresent;
  }

  /** A page table can be had: the first-fit search yields a frame of the window. */
  ghost predicate TableToHave(free: set<nat>) {
    exists f | f in free :: f < WINDOW_FRAMES
  }

  lemma LeastInWindow(free: set<nat>, f: nat)
    requires IsLeast(free, f)
    ensures TableToHave(free) <==> f < WINDOW_FRAMES
  {
  }

  class PageTables {
    const pmm: PMM
    const mem: array<nat>
    var pd: nat

    ghost predicate Valid()
      reads this, mem, pmm, pmm.bitmap
    {
      pmm.Valid() && mem.Length == WINDOW_FRAMES * ENTRIES && Apart(mem[..], pd, pmm.Free())
    }

    /** The translation in force. */
    ghost function Map(): map<nat, Mapping>
      reads this, mem
    {
      Translation(mem[..], pd)
    }

    /** MapPage can install an entry for this address. */
    ghost predicate Reachable(vaddr: nat)
      reads this, mem, pmm, pmm.bitmap
    {
      HasTable(mem[..], pd, PdeIndex(vaddr)) || TableToHave(pmm.Free())
    }

    /** Allocates the directory in a frame of the window and clears it. */
    constructor (pmm: PMM, mem: array<nat>)
      requires pmm.Valid() && mem.Length == WINDOW_FRAMES * ENTRIES && TableToHave(pmm.Free()) && 0 !in pmm.Free()
      modifies pmm`freeFrames, pmm.bitmap, mem
      ensures this.pmm == pmm && this.mem == mem && Valid() && Map() == map[]
      ensures IsLeast(old(pmm.Free()), pd) && pmm.Free() == old(pmm.Free()) - {pd}
    {
      this.pmm, this.mem := pmm, mem;
      var pdPhys := pmm.AllocFrame();
      pd := pdPhys / PAGE_SIZE;
      new;
      LeastInWindow(old(pmm.Free()), pd);
      ClearFrame(pd);
      forall i | 0 <= i < ENTRIES
        ensures !HasTable(mem[..], pd, i)
      {
        assert mem[..][pd * ENTRIES + i] == mem[pd * ENTRIES + i];
      }
    }

    /** Zeroes the 1024 words of a frame. */
    method ClearFrame(frame: nat)
      requires mem.Length == WINDOW_FRAMES * ENTRIES && frame < WINDOW_FRAMES
      modifies mem
      ensures forall w | 0 <= w < mem.Length ::
                mem[w] == if frame * ENTRIES <= w < frame * ENTRIES + ENTRIES then 0 else old(mem[w])
    {
      var i := 0;
      while i < ENTRIES
        invariant 0 <= i <= ENTRIES
        invariant forall w | 0 <= w < mem.Length ::
                    mem[w] == if frame * ENTRIES <= w < frame * ENTRIES + i then 0 else old(mem[w])
      {
        mem[frame * ENTRIES + i] := 0;
        i := i + 1;
      }
    }

    /** The retry loop: a frame of the window, or nothing and the allocator as before. The search is first-fit,
        so a frame given back is the one offered again, and the hundred tries see one frame. */
    method TableFrame() returns (ok: bool, frame: nat)
      requires pmm.Valid() && 0 !in pmm.Free()
      modifies pmm`freeFrames, pmm.bitmap
      ensures pmm.Valid() && (ok <==> old(TableToHave(pmm.Free())))
      ensures ok ==> frame < WINDOW_FRAMES && IsLeast(old(pmm.Free()), frame) && pmm.Free() == old(pmm.Free()) - {frame}
      ensures !ok ==> pmm.Free() == old(pmm.Free())
    {
      hide FreeSet;
      ghost var free := pmm.Free();
      var tries := 0;
      while tries < 100
        invariant 0 <= tries <= 100 && pmm.Valid() && pmm.Free() == free
        invariant tries > 0 ==> !TableToHave(free)
      {
        var pa := pmm.AllocFrame();
        if pa == 0 {
          return false, 0;
        }
        LeastInWindow(free, pa / PAGE_SIZE);
        if pa < WINDOW_FRAMES * PAGE_SIZE {
          return true, pa / PAGE_SIZE;
        }
        pmm.FreeFrame(pa);
        tries := tries + 1;
      }
      return false, 0;
    }

    method EnsureTable(vaddr: nat, create: bool, user: bool) returns (ok: bool, pt: nat)
      requires Valid()
      modifies mem, pmm`freeFrames, pmm.bitmap
      ensures Valid() && Map() == old(Map())
      ensures forall q: nat | q < PAGES :: Pte(mem[..], pd, q) == old(Pte(mem[..], pd, q))
      ensures TablesKept(old(mem[..]), mem[..], pd) && OneNewTable(old(mem[..]), mem[..], pd, PdeIndex(vaddr))
      ensures ok <==> old(HasTable(mem[..], pd, PdeIndex(vaddr))) || (create && old(Reachable(vaddr)))
      ensures ok ==> HasTable(mem[..], pd, PdeIndex(vaddr)) && pt == Table(mem[..], pd, PdeIndex(vaddr))
      ensures !ok || old(HasTable(mem[..], pd, PdeIndex(vaddr))) ==>
                mem[..] == old(mem[..]) && pmm.Free() == old(pmm.Free())
      ensures ok && !old(HasTable(mem[..], pd, PdeIndex(vaddr))) ==>
                IsLeast(old(pmm.Free()), pt) && pmm.Free() == old(pmm.Free()) - {pt}
    {
      hide FreeSet, Pte, Translation, PdeIndex;
      var pdi := PdeIndex(vaddr);
      ghost var m := mem[..];
      var pde := mem[pd * ENTRIES + pdi];
      assert pde == Pde(m, pd, pdi);
      if !IsPresent(pde) {
        if !create {
          return false, 0;
        }
        ghost var free := pmm.Free();
        var fine, frame := TableFrame();
        if !fine {
          return false, 0;
        }
        ClearFrame(frame);
        var entry := frame * PAGE_SIZE + PRESENT + RW + (if user then USER else 0);
        mem[pd * ENTRIES + pdi] := entry;
        EntryParts(frame, PRESENT + RW + (if user then USER else 0));
        AddTable(m, mem[..], pd, free, pdi, frame, entry);
        SameEntries(m, mem[..], pd);
        return true, frame;
      }
      assert HasTable(m, pd, pdi);
      return pde / PAGE_SIZE < WINDOW_FRAMES, pde / PAGE_SIZE;
    }

    /** Maps one page; `ok` tells whether a table was there or could be had. */
    method MapPage(vaddr: nat, paddr: nat, flags: nat) returns (ghost ok: bool)
      requires Valid() && vaddr < U32_LIMIT && paddr % PAGE_SIZE == 0
      modifies mem, pmm`freeFrames, pmm.bitmap
      ensures Valid() && (ok <==> old(Reachable(vaddr)))
      ensures ok ==> Map() == old(Map())[PageOf(vaddr) := Mapping(paddr / PAGE_SIZE, EntryFlags(flags))]
      ensures ok ==> HasTable(mem[..], pd, PdeIndex(vaddr))
      ensures !ok ==> Map() == old(Map()) && mem[..] == old(mem[..])
      ensures !ok || old(HasTable(mem[..], pd, PdeIndex(vaddr))) ==> pmm.Free() == old(pmm.Free())
      ensures ok && !old(HasTable(mem[..], pd, PdeIndex(vaddr))) ==>
                exists t :: IsLeast(old(pmm.Free()), t) && pmm.Free() == old(pmm.Free()) - {t}
      ensures TablesKept(old(mem[..]), mem[..], pd) && OneNewTable(old(mem[..]), mem[..], pd, PdeIndex(vaddr))
    {
      hide FreeSet, Pte, Translation, PdeIndex, PteIndex, HasUser, EntryFlags, Apart, IsPresent, PageOf, IsLeast,
           TablesKept, OneNewTable;
      ghost var m0 := mem[..];
      var pdi := PdeIndex(vaddr);
      var fine, pt := EnsureTable(vaddr, true, HasUser(flags));
      ok := fine;
      if !fine {
        return;
      }
      ghost var m1 := mem[..];
      TablesSame(m1, pd);
      if HasUser(flags) {
        var entry := OrUser(mem[pd * ENTRIES + pdi]);
        AddUser(m1, pd, pmm.Free(), pdi);
        mem[pd * ENTRIES + pdi] := entry;
        assert mem[..] == m1[pd * ENTRIES + pdi := entry];
      }
      ghost var m2 := mem[..];
      Install(m0, m1, m2, pd, pmm.Free(), vaddr, paddr, flags);
      var entry: nat := paddr + EntryFlags(flags);
      mem[pt * ENTRIES + PteIndex(vaddr)] := entry;
      assert mem[..] == m2[pt * ENTRIES + PteIndex(vaddr) := entry];
    }

    method UnmapPage(vaddr: nat)
      requires Valid() && vaddr < U32_LIMIT
      modifies mem, pmm`freeFrames, pmm.bitmap
      ensures Valid() && Map() == old(Map()) - {PageOf(vaddr)} && pmm.Free() == old(pmm.Free())
      ensures TablesKept(old(mem[..]), mem[..], pd)
    {
      hide FreeSet, Pte, Translation, PdeIndex, PteIndex, Apart, PageOf, TablesKept;
      ghost var m := mem[..];
      var ok, pt := EnsureTable(vaddr, false, false);
      if !ok {
        NotMapped(m, pd, vaddr);
        return;
      }
      Erase(m, pd, pmm.Free(), vaddr);
      mem[pt * ENTRIES + PteIndex(vaddr)] := 0;
      assert mem[..] == m[pt * ENTRIES + PteIndex(vaddr) := 0];
    }

    method GetPhys(vaddr: nat) returns (pa: nat)
      requires Valid() && vaddr < U32_LIMIT
      modifies mem, pmm`freeFrames, pmm.bitmap
      ensures Valid() && mem[..] == old(mem[..]) && pmm.Free() == old(pmm.Free())
      ensures pa == if PageOf(vaddr) in Map() then Map()[PageOf(vaddr)].frame * PAGE_SIZE + vaddr % PAGE_SIZE else 0
    {
      hide FreeSet, PdeIndex, PteIndex, Apart, PageOf;
      var ok, pt := EnsureTable(vaddr, false, false);
      PageParts(vaddr);
      if !ok {
        return 0;
      }
      InWindow(mem[..], pd, pmm.Free(), PdeIndex(vaddr));
      var e := mem[pt * ENTRIES + PteIndex(vaddr)];
      assert e == Pte(mem[..], pd, PageOf(vaddr));
      if !IsPresent(e) {
        return 0;
      }
      return e / PAGE_SIZE * PAGE_SIZE + vaddr % PAGE_SIZE;
    }

    /** Rewrites the flags of a mapped page. The translation keeps every frame. */
    method RemapPageFlags(vaddr: nat, flags: nat)
      requires Valid() && vaddr < U32_LIMIT
      modifies mem, pmm`freeFrames, pmm.bitmap
      ensures Valid() && TablesKept(old(mem[..]), mem[..], pd)
      ensures Map() == if PageOf(vaddr) in old(Map())
                       then old(Map())[PageOf(vaddr) := Mapping(old(Map())[PageOf(vaddr)].frame, EntryFlags(flags))]
                       else old(Map())
      ensures pmm.Free() <= old(pmm.Free())
    {
      hide FreeSet, Pte, Translation, PdeIndex, PteIndex, Apart, PageOf, TablesKept, IsLeast, HasUser, EntryFlags,
           IsPresent;
      ghost var m0 := mem[..];
      var ok, pt := EnsureTable(vaddr, HasUser(flags), HasUser(flags));
      if !ok {
        NotMapped(m0, pd, vaddr);
        return;
      }
      ghost var m := mem[..];
      InWindow(m, pd, pmm.Free(), PdeIndex(vaddr));
      var e := mem[pt * ENTRIES + PteIndex(vaddr)];
      MappedIff(m, pd, vaddr);
      if !IsPresent(e) {
        return;
      }
      var entry: nat := e / PAGE_SIZE * PAGE_SIZE + EntryFlags(flags);
      TablesSame(m, pd);
      Reflag(m0, m, pd, pmm.Free(), vaddr, flags);
      mem[pt * ENTRIES + PteIndex(vaddr)] := entry;
      assert mem[..] == m[pt * ENTRIES + PteIndex(vaddr) := entry];
    }

    /** Maps a range page by page and stops at the first page that did not take; `n` counts the pages mapped. */
    method MapRange(vaddr: nat, paddr: nat, size: nat, flags: nat) returns (ghost n: nat)
      requires Valid() && vaddr + size <= U32_LIMIT && paddr % PAGE_SIZE == 0 && 0 < paddr && paddr + size <= U32_LIMIT
      modifies mem, pmm`freeFrames, pmm.bitmap
      ensures Valid() && n <= PageCount(size)
      ensures Map() == Ranged(old(Map()), PageOf(vaddr), PageOf(paddr), n, EntryFlags(flags))
      ensures n < PageCount(size) ==> vaddr + n * PAGE_SIZE < U32_LIMIT && !Reachable(vaddr + n * PAGE_SIZE)
    {
      hide FreeSet, Translation, PdeIndex, Apart, EntryFlags, TablesKept, OneNewTable, IsLeast, HasTable, TableToHave;
      n := 0;
      var off := 0;
      while off < size
        invariant Valid() && off == n * PAGE_SIZE && n <= PageCount(size)
        invariant Map() == Ranged(old(Map()), PageOf(vaddr), PageOf(paddr), n, EntryFlags(flags))
      {
        PageStep(vaddr, n);
        PageStep(paddr, n);
        ghost var ok := MapPage(vaddr + off, paddr + off, flags);
        var expected := (paddr + off) / PAGE_SIZE * PAGE_SIZE;
        ghost var before := mem[..];
        var phys := GetPhys(vaddr + off);
        var got := phys / PAGE_SIZE * PAGE_SIZE;
        if ok {
          SamePage(paddr + off, vaddr + off);
        } else {
          Unreached(mem[..], pd, vaddr + off);
        }
        if got != expected {
          break;
        }
        n := n + 1;
        off := off + PAGE_SIZE;
      }
    }

    method UnmapRange(vaddr: nat, size: nat)
      requires Valid() && vaddr + size <= U32_LIMIT && size <= 0xFFFF_F000
      modifies mem, pmm`freeFrames, pmm.bitmap
      ensures Valid() && pmm.Free() == old(pmm.Free())
      ensures Map() == old(Map()) - Frames(PageOf(vaddr), PageOf(vaddr) + PageCount(size))
    {
      hide FreeSet, Translation, Apart, TablesKept, Frames, PageOf;
      FramesNone(PageOf(vaddr), PageOf(vaddr));
      var off := 0;
      ghost var n := 0;
      while off < size
        invariant Valid() && off == n * PAGE_SIZE && n <= PageCount(size) && pmm.Free() == old(pmm.Free())
        invariant Map() == old(Map()) - Frames(PageOf(vaddr), PageOf(vaddr) + n)
      {
        PageStep(vaddr, n);
        FramesNext(PageOf(vaddr), PageOf(vaddr) + n);
        UnmapPage(vaddr + off);
        n := n + 1;
        off := off + PAGE_SIZE;
      }
    }

    /** Changes flags over a range; no page changes frames, appears or disappears. */
    method RemapRangeFlags(vaddr: nat, size: nat, flags: nat)
      requires Valid() && vaddr + size <= U32_LIMIT && size <= 0xFFFF_F000
      modifies mem, pmm`freeFrames, pmm.bitmap
      ensures Valid() && SameFrames(old(Map()), Map())
      ensures forall p | p in Map() :: Map()[p].flags ==
                if PageOf(vaddr) <= p < PageOf(vaddr) + PageCount(size) then EntryFlags(flags) else old(Map())[p].flags
    {
      hide FreeSet, Translation, Apart, TablesKept, EntryFlags;
      var off := 0;
      ghost var n := 0;
      while off < size
        invariant Valid() && off == n * PAGE_SIZE && n <= PageCount(size) && SameFrames(old(Map()), Map())
        invariant forall p | p in Map() :: Map()[p].flags ==
                    if PageOf(vaddr) <= p < PageOf(vaddr) + n then EntryFlags(flags) else old(Map())[p].flags
      {
        PageStep(vaddr, n);
        RemapPageFlags(vaddr + off, flags);
        n := n + 1;
        off := off + PAGE_SIZE;
      }
    }

    /** The loop of Init: maps the window onto itself. It covers a prefix, and all of it exactly when sixteen
        frames of the window are free for tables. */
    method IdentityMap() returns (ghost n: nat)
      requires Valid() && Map() == map[] && forall i: nat | i < ENTRIES :: !HasTable(mem[..], pd, i)
      modifies mem, pmm`freeFrames, pmm.bitmap
      ensures Valid() && Map() == Ranged(map[], 0, 0, n, PRESENT + RW) && n <= WINDOW_FRAMES
      ensures n == WINDOW_FRAMES ==> WindowReady(mem[..], pd)
      ensures n == WINDOW_FRAMES <==> |InWindowOf(old(pmm.Free()))| >= 16
      ensures n < WINDOW_FRAMES ==> n == ENTRIES * |InWindowOf(old(pmm.Free()))|
    {
      hide FreeSet, Translation, Apart, TablesKept, OneNewTable, IsLeast, HasTable, TableToHave, Ranged, InWindowOf,
           PdeIndex;
      n := 0;
      RangedNone(map[], 0, 0, PRESENT + RW);
      ghost var free0 := pmm.Free();
      var addr := 0;
      ghost var k := 0;
      while addr < WINDOW_FRAMES * PAGE_SIZE
        invariant Valid() && addr == k * PAGE_SIZE && n <= k <= WINDOW_FRAMES
        invariant Map() == Ranged(map[], 0, 0, n, PRESENT + RW)
        invariant TablesFor(mem[..], pd, n)
        invariant |InWindowOf(pmm.Free())| + (n + ENTRIES - 1) / ENTRIES == |InWindowOf(free0)|
        invariant n < k ==> n % ENTRIES == 0 && InWindowOf(pmm.Free()) == {}
      {
        ghost var m, free := mem[..], pmm.Free();
        ghost var ok := MapPage(addr, addr, PRESENT + RW);
        IdentityStep(m, mem[..], pd, free, pmm.Free(), n, k, ok);
        RangedNext(map[], 0, 0, n, PRESENT + RW);
        PageStep(0, k);
        n := if ok then n + 1 else n;
        k := k + 1;
        addr := addr + PAGE_SIZE;
      }
      if n == WINDOW_FRAMES { ReadyAfterIdentity(mem[..], pd); }
    }
  }

  lemma TablesSame(m: seq<nat>, pd: nat)
    ensures TablesKept(m, m, pd)
  {
  }

  /** Setting the user bit of a directory slot. */
  lemma AddUser(m: seq<nat>, pd: nat, free: set<nat>, i: nat)
    requires Apart(m, pd, free) && HasTable(m, pd, i)
    ensures pd * ENTRIES + i < |m|
    ensures var m2 := m[pd * ENTRIES + i := OrUser(m[pd * ENTRIES + i])];
            && Apart(m2, pd, free) && HasTable(m2, pd, i) && Table(m2, pd, i) == Table(m, pd, i)
            && TablesKept(m, m2, pd) && TablesKept(m2, m, pd)
            && forall q: nat | q < PAGES :: Pte(m2, pd, q) == Pte(m, pd, q)
  {
    hide Apart, Pte, TablesKept;
    var e := m[pd * ENTRIES + i];
    assert OrUser(e) / PAGE_SIZE == e / PAGE_SIZE && IsPresent(OrUser(e));
    WriteFlags(m, pd, free, i, OrUser(e));
  }

  /** The final store of MapPage, seen from the state before the call. */
  lemma Install(m0: seq<nat>, m1: seq<nat>, m2: seq<nat>, pd: nat, free: set<nat>, vaddr: nat, paddr: nat, flags: nat)
    requires vaddr < U32_LIMIT && paddr % PAGE_SIZE == 0 && Apart(m2, pd, free) && HasTable(m2, pd, PdeIndex(vaddr))
    requires forall q: nat | q < PAGES :: Pte(m1, pd, q) == Pte(m0, pd, q)
    requires forall q: nat | q < PAGES :: Pte(m2, pd, q) == Pte(m1, pd, q)
    requires TablesKept(m0, m1, pd) && TablesKept(m1, m2, pd) && TablesKept(m2, m1, pd)
             && OneNewTable(m0, m1, pd, PdeIndex(vaddr))
    ensures var w, e: nat := Table(m2, pd, PdeIndex(vaddr)) * ENTRIES + PteIndex(vaddr), paddr + EntryFlags(flags);
            && w < |m2|
            && var m3 := m2[w := e];
            && Apart(m3, pd, free) && HasTable(m3, pd, PdeIndex(vaddr)) && TablesKept(m0, m3, pd)
            && OneNewTable(m0, m3, pd, PdeIndex(vaddr))
            && Translation(m3, pd) ==
               Translation(m0, pd)[PageOf(vaddr) := Mapping(paddr / PAGE_SIZE, EntryFlags(flags))]
  {
    hide Apart, Pte, Translation, EntryFlags, IsPresent;
    PageParts(vaddr);
    var e: nat := paddr + EntryFlags(flags);
    WriteEntry(m2, pd, free, PageOf(vaddr), e);
    var m3 := m2[Table(m2, pd, PdeIndex(vaddr)) * ENTRIES + PteIndex(vaddr) := e];
    AlignedParts(paddr, EntryFlags(flags));
    OneEntry(m0, m3, pd, PageOf(vaddr), e);
  }

  lemma PageParts(vaddr: nat)
    requires vaddr < U32_LIMIT
    ensures PageOf(vaddr) < PAGES && PageOf(vaddr) / ENTRIES == PdeIndex(vaddr)
            && PageOf(vaddr) % ENTRIES == PteIndex(vaddr)
  {
  }

  lemma AlignedParts(a: nat, low: nat)
    requires a % PAGE_SIZE == 0 && low < PAGE_SIZE
    ensures (a + low) / PAGE_SIZE == a / PAGE_SIZE && (a + low) % PAGE_SIZE == low
            && IsPresent(a + low) == IsPresent(low)
  {
    EntryParts(a / PAGE_SIZE, low);
  }

  lemma InWindow(m: seq<nat>, pd: nat, free: set<nat>, i: nat)
    requires Apart(m, pd, free) && HasTable(m, pd, i)
    ensures Table(m, pd, i) < WINDOW_FRAMES
  {
  }

  lemma NotMapped(m: seq<nat>, pd: nat, vaddr: nat)
    requires vaddr < U32_LIMIT && !HasTable(m, pd, PdeIndex(vaddr))
    ensures PageOf(vaddr) !in Translation(m, pd) && Translation(m, pd) - {PageOf(vaddr)} == Translation(m, pd)
    ensures TablesKept(m, m, pd)
  {
    hide PageOf, PdeIndex;
    PageParts(vaddr);
    assert Pte(m, pd, PageOf(vaddr)) == 0;
  }

  lemma MappedIff(m: seq<nat>, pd: nat, vaddr: nat)
    requires vaddr < U32_LIMIT && HasTable(m, pd, PdeIndex(vaddr)) && Table(m, pd, PdeIndex(vaddr)) < WINDOW_FRAMES
    ensures var e := m[Table(m, pd, PdeIndex(vaddr)) * ENTRIES + PteIndex(vaddr)];
            && (IsPresent(e) <==> PageOf(vaddr) in Translation(m, pd))
            && (IsPresent(e) ==> Translation(m, pd)[PageOf(vaddr)].frame == e / PAGE_SIZE)
  {
    hide PageOf, PdeIndex, PteIndex, IsPresent;
    PageParts(vaddr);
  }

  lemma Erase(m: seq<nat>, pd: nat, free: set<nat>, vaddr: nat)
    requires vaddr < U32_LIMIT && Apart(m, pd, free) && HasTable(m, pd, PdeIndex(vaddr))
    ensures var w := Table(m, pd, PdeIndex(vaddr)) * ENTRIES + PteIndex(vaddr);
            && w < |m|
            && Apart(m[w := 0], pd, free) && TablesKept(m, m[w := 0], pd)
            && Translation(m[w := 0], pd) == Translation(m, pd) - {PageOf(vaddr)}
  {
    hide Apart, Pte, Translation;
    PageParts(vaddr);
    WriteEntry(m, pd, free, PageOf(vaddr), 0);
    OneEntry(m, m[Table(m, pd, PdeIndex(vaddr)) * ENTRIES + PteIndex(vaddr) := 0], pd, PageOf(vaddr), 0);
  }

  lemma Reflag(m0: seq<nat>, m: seq<nat>, pd: nat, free: set<nat>, vaddr: nat, flags: nat)
    requires vaddr < U32_LIMIT && Apart(m, pd, free) && HasTable(m, pd, PdeIndex(vaddr)) && TablesKept(m0, m, pd)
             && OneNewTable(m0, m, pd, PdeIndex(vaddr))
    requires PageOf(vaddr) in Translation(m, pd) && Translation(m0, pd) == Translation(m, pd)
    requires forall q: nat | q < PAGES :: Pte(m, pd, q) == Pte(m0, pd, q)
    ensures var w := Table(m, pd, PdeIndex(vaddr)) * ENTRIES + PteIndex(vaddr);
            && w < |m|
            && var e: nat := m[w] / PAGE_SIZE * PAGE_SIZE + EntryFlags(flags);
            && Apart(m[w := e], pd, free) && TablesKept(m0, m[w := e], pd)
            && Translation(m[w := e], pd) ==
               Translation(m0, pd)[PageOf(vaddr) := Mapping(Translation(m0, pd)[PageOf(vaddr)].frame,
                                                            EntryFlags(flags))]
  {
    hide Apart, Pte, Translation, PageOf, PdeIndex, PteIndex, EntryFlags, IsPresent, TablesKept, OneNewTable;
    InWindow(m, pd, free, PdeIndex(vaddr));
    MappedIff(m, pd, vaddr);
    var w := Table(m, pd, PdeIndex(vaddr)) * ENTRIES + PteIndex(vaddr);
    TablesSame(m, pd);
    EntryParts(m[w] / PAGE_SIZE, 0);
    Install(m0, m, m, pd, free, vaddr, m[w] / PAGE_SIZE * PAGE_SIZE, flags);
  }

  // ---- Ranges ----

  function PageCount(size: nat): nat {
    (size + PAGE_SIZE - 1) / PAGE_SIZE
  }

  /** The loop counter of the range calls after `k` turns; it is a 32-bit word. */
  function OffsetAfter(k: nat): (off: nat)
    ensures off < U32_LIMIT && off % PAGE_SIZE == 0
  {
    if k == 0 then 0 else (OffsetAfter(k - 1) + PAGE_SIZE) % U32_LIMIT
  }

  lemma {:induction false} OffsetIs(k: nat)
    requires k < PAGES
    ensures OffsetAfter(k) == k * PAGE_SIZE
  {
    if k > 0 {
      OffsetIs(k - 1);
    }
  }

  /** The loops of UnmapRange and RemapRangeFlags never end if and only if the size is above 0xFFFFF000. */
  lemma RangeNeverEnds(size: nat)
    ensures (forall k: nat :: OffsetAfter(k) < size) <==> size > 0xFFFF_F000
  {
    OffsetIs(0xFFFFF);
    forall k: nat
      ensures OffsetAfter(k) <= 0xFFFF_F000
    {
      LastPage(OffsetAfter(k));
    }
  }

  lemma LastPage(off: nat)
    requires off < U32_LIMIT && off % PAGE_SIZE == 0
    ensures off <= 0xFFFF_F000
  {
  }

  /** `t` with `n` pages from `v` on mapped to the frames from `f` on. */
  ghost function Ranged(t: map<nat, Mapping>, v: nat, f: nat, n: nat, flags: nat): map<nat, Mapping> {
    if n == 0 then t else Ranged(t, v, f, n - 1, flags)[v + n - 1 := Mapping(f + n - 1, flags)]
  }

  /** Exactly the pages of the range are mapped anew, each to its own frame. */
  lemma {:induction false} RangedAt(t: map<nat, Mapping>, v: nat, f: nat, n: nat, flags: nat, p: nat)
    ensures v <= p < v + n ==>
          p in Ranged(t, v, f, n, flags)
          && Ranged(t, v, f, n, flags)[p] == Mapping(f + (p - v), flags)
    ensures !(v <= p < v + n) ==> (p in Ranged(t, v, f, n, flags) <==> p in t)
    ensures !(v <= p < v + n) && p in t ==> Ranged(t, v, f, n, flags)[p] == t[p]
  {
    if n > 0 {
      RangedAt(t, v, f, n - 1, flags, p);
    }
  }

  ghost predicate SameFrames(t: map<nat, Mapping>, t2: map<nat, Mapping>) {
    t.Keys == t2.Keys && forall p | p in t :: t2[p].frame == t[p].frame
  }

  lemma PageStep(a: nat, n: nat)
    ensures PageOf(a + n * PAGE_SIZE) == PageOf(a) + n
    ensures a % PAGE_SIZE == 0 ==> (a + n * PAGE_SIZE) % PAGE_SIZE == 0
  {
  }

  lemma SamePage(p: nat, v: nat)
    requires p % PAGE_SIZE == 0
    ensures (p / PAGE_SIZE * PAGE_SIZE + v % PAGE_SIZE) / PAGE_SIZE * PAGE_SIZE == p / PAGE_SIZE * PAGE_SIZE
  {
  }

  lemma Unreached(m: seq<nat>, pd: nat, vaddr: nat)
    requires vaddr < U32_LIMIT && !HasTable(m, pd, PdeIndex(vaddr))
    ensures PageOf(vaddr) !in Translation(m, pd)
  {
    NotMapped(m, pd, vaddr);
  }

  ghost function InWindowOf(free: set<nat>): set<nat> {
    set f | f in free && f < WINDOW_FRAMES
  }

  /** The directory slots with tables are those of the first `n` pages. */
  ghost predicate TablesFor(m: seq<nat>, pd: nat, n: nat) {
    forall i: nat | i < ENTRIES :: HasTable(m, pd, i) <==> i * ENTRIES < n
  }

  lemma RangedNone(t: map<nat, Mapping>, v: nat, f: nat, flags: nat)
    ensures Ranged(t, v, f, 0, flags) == t
  {
  }

  lemma RangedNext(t: map<nat, Mapping>, v: nat, f: nat, n: nat, flags: nat)
    ensures Ranged(t, v, f, n + 1, flags) == Ranged(t, v, f, n, flags)[v + n := Mapping(f + n, flags)]
  {
  }

  lemma BlockOf(k: nat)
    requires k < WINDOW_FRAMES
    ensures PdeIndex(k * PAGE_SIZE) == k / ENTRIES < ENTRIES
  {
  }

  lemma WindowTaken(free: set<nat>, t: nat)
    requires IsLeast(free, t) && TableToHave(free)
    ensures |InWindowOf(free - {t})| == |InWindowOf(free)| - 1
  {
    LeastInWindow(free, t);
    assert InWindowOf(free - {t}) == InWindowOf(free) - {t};
  }

  lemma WindowLess(free: set<nat>, f: nat)
    requires IsLeast(free, f)
    ensures |InWindowOf(free - {f})| == if |InWindowOf(free)| == 0 then 0 else |InWindowOf(free)| - 1
  {
    HaveWindow(free);
    if TableToHave(free) {
      WindowTaken(free, f);
    } else {
      assert InWindowOf(free - {f}) == {};
    }
  }

  lemma HaveWindow(free: set<nat>)
    ensures TableToHave(free) <==> |InWindowOf(free)| > 0
  {
    if TableToHave(free) {
      var f :| f in free && f < WINDOW_FRAMES;
      assert f in InWindowOf(free);
    } else {
      assert InWindowOf(free) == {};
    }
  }

  // ---- Pages that are mapped one after the other, each to the next free frame ----

  /** The directory slots that have a table. */
  ghost function Slots(m: seq<nat>, pd: nat): set<nat> {
    set i: nat | i < ENTRIES && HasTable(m, pd, i)
  }

  lemma SlotsAfter(m: seq<nat>, m2: seq<nat>, pd: nat, i: nat)
    requires TablesKept(m, m2, pd) && OneNewTable(m, m2, pd, i) && i < ENTRIES
    ensures HasTable(m2, pd, i) ==> Slots(m2, pd) == Slots(m, pd) + {i}
    ensures !HasTable(m2, pd, i) ==> Slots(m2, pd) == Slots(m, pd)
  {
    hide HasTable;
  }

  /** The free frames of the window left after one more page, which takes a frame and perhaps one for its table. */
  function Left(w: nat, tabled: bool): nat {
    if tabled then (if w == 0 then 0 else w - 1) else if w >= 2 then w - 2 else 0
  }

  /** The directory slot of a page. */
  function SlotOf(page: nat): nat {
    page / ENTRIES
  }

  /** How many free frames of the window it takes to map `n` pages from `page` on, when `slots` have tables. */
  function Needed(slots: set<nat>, page: nat, n: nat): nat
    decreases n
  {
    if n == 0 then 0
    else
      var rest := Needed(slots + {SlotOf(page)}, page + 1, n - 1);
      if SlotOf(page) !in slots then rest + 2 else if rest == 0 then 0 else rest + 1
  }

  /** With enough of them this page and all the others can be mapped. */
  lemma NeededStep(slots: set<nat>, page: nat, n: nat, w: nat)
    requires n > 0
    ensures w >= Needed(slots, page, n) <==>
            var tabled := SlotOf(page) in slots;
            (tabled || w >= 2) && Left(w, tabled) >= Needed(slots + {SlotOf(page)}, page + 1, n - 1)
  {
  }

  /** No table is missing: nothing is needed. */
  lemma {:induction false} NoneNeeded(slots: set<nat>, page: nat, n: nat)
    requires forall q: nat | page <= q < page + n :: SlotOf(q) in slots
    ensures Needed(slots, page, n) == 0
    decreases n
  {
    if n > 0 {
      assert slots + {SlotOf(page)} == slots;
      NoneNeeded(slots, page + 1, n - 1);
    }
  }

  /** The directory slots of `n` pages from `page` on that have no table. */
  ghost function Missing(slots: set<nat>, page: nat, n: nat): set<nat> {
    set q: nat | page <= q < page + n && SlotOf(q) !in slots :: SlotOf(q)
  }

  /** If page `k` of them is the first one of the last missing table, all pages up to it and all missing tables take a
      frame of the window. */
  lemma {:induction false} NeededIs(slots: set<nat>, page: nat, n: nat, k: nat)
    requires k < n && SlotOf(page + k) !in slots && (k == 0 || SlotOf(page + k - 1) != SlotOf(page + k))
    requires forall q: nat | page + k < q < page + n :: SlotOf(q) in slots + {SlotOf(page + k)}
    ensures Needed(slots, page, n) == k + 1 + |Missing(slots, page, n)|
    decreases n
  {
    hide SlotOf, Missing;
    var s := SlotOf(page);
    if k == 0 {
      NoneNeeded(slots + {s}, page + 1, n - 1);
      MissingOnly(slots, page, n, page);
    } else {
      LaterSlot(page, page + k - 1, page + k);
      assert (page + 1) + (k - 1) == page + k;
      NeededIs(slots + {s}, page + 1, n - 1, k - 1);
      MissingNext(slots, page, n);
    }
  }

  lemma LaterSlot(a: nat, b: nat, c: nat)
    requires a <= b < c && SlotOf(b) != SlotOf(c)
    ensures SlotOf(a) != SlotOf(c)
  {
  }

  lemma MissingOnly(slots: set<nat>, page: nat, n: nat, p: nat)
    requires page <= p < page + n && SlotOf(p) !in slots
    requires forall q: nat | page <= q < page + n :: SlotOf(q) in slots + {SlotOf(p)}
    ensures Missing(slots, page, n) == {SlotOf(p)}
  {
  }

  lemma MissingNext(slots: set<nat>, page: nat, n: nat)
    requires n > 0
    ensures var s, rest := SlotOf(page), Missing(slots + {SlotOf(page)}, page + 1, n - 1);
            && s !in rest && Missing(slots, page, n) == if s in slots then rest else rest + {s}
  {
    hide SlotOf;
  }

  /** One turn of the identity loop, at page `k` with `n` pages mapped so far. */
  lemma IdentityStep(m: seq<nat>, m2: seq<nat>, pd: nat, free: set<nat>, free2: set<nat>, n: nat, k: nat, ok: bool)
    requires n <= k < WINDOW_FRAMES && TablesFor(m, pd, n)
    requires n < k ==> n % ENTRIES == 0 && InWindowOf(free) == {}
    requires var i := PdeIndex(k * PAGE_SIZE);
             && (ok <==> HasTable(m, pd, i) || TableToHave(free)) && TablesKept(m, m2, pd) && OneNewTable(m, m2, pd, i)
             && (ok ==> HasTable(m2, pd, i)) && (!ok ==> m2 == m) && (!ok || HasTable(m, pd, i) ==> free2 == free)
             && (ok && !HasTable(m, pd, i) ==> exists t :: IsLeast(free, t) && free2 == free - {t})
    ensures ok ==> n == k
    ensures TablesFor(m2, pd, if ok then n + 1 else n)
    ensures |InWindowOf(free2)| + ((if ok then n + 1 else n) + ENTRIES - 1) / ENTRIES
            == |InWindowOf(free)| + (n + ENTRIES - 1) / ENTRIES
    ensures !ok ==> n % ENTRIES == 0 && InWindowOf(free2) == {}
  {
    hide HasTable, IsLeast, PdeIndex;
    BlockOf(k);
    var i := k / ENTRIES;
    assert HasTable(m, pd, i) <==> i * ENTRIES < n;
    assert !TableToHave(free) ==> InWindowOf(free) == {};
    if ok && !HasTable(m, pd, i) {
      var t :| IsLeast(free, t) && free2 == free - {t};
      WindowTaken(free, t);
    }
  }

  lemma EntryParts(frame: nat, low: nat)
    requires low < PAGE_SIZE
    ensures (frame * PAGE_SIZE + low) / PAGE_SIZE == frame && (frame * PAGE_SIZE + low) % PAGE_SIZE == low
    ensures IsPresent(frame * PAGE_SIZE + low) == IsPresent(low)
  {
    assert frame * PAGE_SIZE == 2 * (frame * 2048);
  }
}

/** Physical memory that backs a heap: the page tables say exactly "linear map plus heap pages", and
    every frame has one owner. Growing, shrinking and storing into the heap keep it so. */
module HeapPages {
  import opened Words
  import opened PageTables
  import opened FramePool
  import opened Vmm
  import opened HeapSpec
  import opened HeapRuns

  const HEAP_SLOT := 896        // PGD_INDEX(HEAP_START)
  const HEAP_PAGE := 0xE_0000   // HEAP_START / PAGE_SIZE
  const FLAGS := 3              // PAGE_PRESENT | PAGE_WRITE

  /** Where the kernel keeps its static tables. */
  datatype Kernel = Kernel(pgd: Word, pteKern: Word)

  /** The frames the allocator was given: pages of RAM outside the directory and static tables. */
  ghost predicate GoodFrames(k: Kernel, all: set<Word>) {
    && StaticPlacement(k.pgd, k.pteKern)
    && |all| < MAX_FRAMES
    && forall f :: f in all ==>
         && 0 < f && f % 4096 == 0 && f + 4096 <= RAM_SIZE && f != k.pgd
         && (f + 4096 <= k.pteKern || k.pteKern + PTE_COUNT * 4096 <= f)
  }

  /** The word that belongs in directory slot `d`. */
  function SlotWord(k: Kernel, tables: seq<Word>, d: nat): int {
    if KERNEL_SLOT <= d < KERNEL_SLOT + PTE_COUNT then k.pteKern + 4096 * (d - KERNEL_SLOT) + FLAGS
    else if HEAP_SLOT <= d < HEAP_SLOT + |tables| then tables[d - HEAP_SLOT] + FLAGS
    else 0
  }

  /** The entry that belongs to page `p`. */
  function PageWord(pages: seq<Word>, p: nat): int {
    if KERNEL_PAGE < p < KERNEL_PAGE + PTE_COUNT * 1024 then 4096 * (p - KERNEL_PAGE) + FLAGS
    else if HEAP_PAGE <= p < HEAP_PAGE + |pages| then pages[p - HEAP_PAGE] + FLAGS
    else 0
  }

  ghost predicate Slots(ram: seq<Byte>, k: Kernel, tables: seq<Word>)
    requires k.pgd + 4096 <= |ram|
  {
    forall d :: 0 <= d < 1024 ==> Entry(ram, k.pgd, d) == SlotWord(k, tables, d)
  }

  ghost predicate Mapped(ram: seq<Byte>, k: Kernel, pages: seq<Word>)
    requires WellFormed(ram, k.pgd)
  {
    forall p :: 0 <= p < 0x10_0000 ==> Pte(ram, k.pgd, p) == PageWord(pages, p)
  }

  /** Over all 2^20 pages the tables map the linear range and the heap's pages, and nothing else. */
  ghost predicate Backed(ram: seq<Byte>, k: Kernel, pool: Pool, all: set<Word>) {
    && |ram| == RAM_SIZE
    && GoodFrames(k, all)
    && Conserved(pool, all)
    && WellFormed(ram, k.pgd)
    && Slots(ram, k, pool.tables)
    && Mapped(ram, k, pool.pages)
  }

  ghost predicate InRam(ram: seq<Byte>, pages: seq<Word>) {
    forall j :: 0 <= j < |pages| ==> pages[j] + 4096 <= |ram|
  }

  /** Physical address of heap byte `i`. */
  function Phys(pages: seq<Word>, i: nat): nat
    requires i < 4096 * |pages|
  {
    pages[i / 4096] + i % 4096
  }

  /** The heap's bytes as the processor sees them from HEAP_START up. */
  ghost function View(ram: seq<Byte>, pages: seq<Word>): (v: seq<Byte>)
    requires InRam(ram, pages)
    ensures |v| == 4096 * |pages|
    ensures forall i :: 0 <= i < |v| ==> Phys(pages, i) < |ram| && v[i] == ram[Phys(pages, i)]
  {
    seq(4096 * |pages|, i requires 0 <= i < 4096 * |pages| => ram[Phys(pages, i)])
  }

  /** Address of heap page `n`. */
  function PageAddr(n: nat): Word
    requires n < PTE_COUNT * 1024
  {
    HEAP_START + 4096 * n
  }

  lemma PageAddrParts(n: nat)
    requires n < PTE_COUNT * 1024
    ensures PageOf(PageAddr(n)) == HEAP_PAGE + n
    ensures PgdIndex(PageAddr(n)) == HEAP_SLOT + n / 1024
  {
  }

  lemma Owners(k: Kernel, pool: Pool, all: set<Word>)
    requires GoodFrames(k, all) && Conserved(pool, all)
    ensures Distinct(pool.free) && Distinct(pool.pages) && Distinct(pool.tables)
    ensures Disjoint(pool.free, pool.pages) && Disjoint(pool.free, pool.tables) && Disjoint(pool.pages, pool.tables)
    ensures |pool.free| + |pool.pages| + |pool.tables| < MAX_FRAMES
    ensures forall f :: f in pool.free || f in pool.pages || f in pool.tables ==>
      f in all && 0 < f && f % 4096 == 0 && f + 4096 <= RAM_SIZE
  {
    OneOwnerPerFrame(pool, all);
  }

  lemma PagesInRam(ram: seq<Byte>, k: Kernel, pool: Pool, all: set<Word>)
    requires Backed(ram, k, pool, all)
    ensures InRam(ram, pool.pages)
  {
    Owners(k, pool, all);
    forall j | 0 <= j < |pool.pages|
      ensures pool.pages[j] + 4096 <= |ram|
    {
      assert pool.pages[j] in pool.pages;
    }
  }

  /** An aligned address keeps its page base when flags are added. */
  lemma Aligned(t: Word, f: nat)
    requires t % 4096 == 0 && f < 4096 && t + f < 0x1_0000_0000
    ensures PageBase(t + f) == t && (t + f) % 2 == f % 2
  {
  }

  lemma SlotTable(ram: seq<Byte>, k: Kernel, tables: seq<Word>, d: nat)
    requires k.pgd + 4096 <= |ram| && d < 1024 && Slots(ram, k, tables)
    requires k.pteKern % 4096 == 0
    requires forall t :: t in tables ==> t % 4096 == 0
    ensures Table(ram, k.pgd, d) ==
            if KERNEL_SLOT <= d < KERNEL_SLOT + PTE_COUNT then k.pteKern + 4096 * (d - KERNEL_SLOT)
            else if HEAP_SLOT <= d < HEAP_SLOT + |tables| then tables[d - HEAP_SLOT]
            else 0
  {
    hide PageBase, Entry;
    assert Entry(ram, k.pgd, d) == SlotWord(k, tables, d);
    if KERNEL_SLOT <= d < KERNEL_SLOT + PTE_COUNT {
      PageBaseOf(k.pteKern, d - KERNEL_SLOT, FLAGS);
    } else if HEAP_SLOT <= d < HEAP_SLOT + |tables| {
      assert tables[d - HEAP_SLOT] in tables;
      Aligned(tables[d - HEAP_SLOT], FLAGS);
    } else {
      Aligned(0, 0);
    }
  }

  /** The next heap page lacks a page table exactly when the pool says a table is needed. */
  lemma NextSlot(ram: seq<Byte>, k: Kernel, pool: Pool, all: set<Word>)
    requires Backed(ram, k, pool, all)
    ensures |pool.pages| < PTE_COUNT * 1024
    ensures Table(ram, k.pgd, PgdIndex(PageAddr(|pool.pages|))) == 0 <==> NeedsTable(pool)
  {
    Owners(k, pool, all);
    var n := |pool.pages|;
    PageAddrParts(n);
    SlotTable(ram, k, pool.tables, HEAP_SLOT + n / 1024);
    if !NeedsTable(pool) {
      assert pool.tables[n / 1024] in pool.tables;
    }
  }

  /** A free frame aliases no table in use. */
  lemma FreeIsFresh(ram: seq<Byte>, k: Kernel, pool: Pool, all: set<Word>, f: Word)
    requires Backed(ram, k, pool, all) && f in pool.free
    ensures Fresh(ram, k.pgd, f)
  {
    Owners(k, pool, all);
    var i :| 0 <= i < |pool.free| && pool.free[i] == f;
    forall d | 0 <= d < 1024
      ensures Table(ram, k.pgd, d) != f
    {
      SlotTable(ram, k, pool.tables, d);
    }
  }

  lemma GrowBounds(k: Kernel, pool: Pool, all: set<Word>)
    requires GoodFrames(k, all) && Conserved(pool, all) && GrowOne(pool).Some?
    ensures |pool.pages| + 1 < PTE_COUNT * 1024
    ensures NeedsTable(pool) ==> |pool.tables| < 128
  {
    Owners(k, pool, all);
  }

  /** The frame `map` would take for a page table while growing, 0 if it needs none. */
  function Spare(pool: Pool): Word
    requires GrowOne(pool).Some?
  {
    if NeedsTable(pool) then Last(Front(pool.free)) else 0
  }

  lemma GrowSlots(ram: seq<Byte>, r: seq<Byte>, k: Kernel, pool: Pool)
    requires |ram| == |r| && k.pgd + 4096 <= |ram|
    requires GrowOne(pool).Some? && |pool.pages| <= 1024 * |pool.tables|
    requires NeedsTable(pool) ==> |pool.tables| < 128
    requires Slots(ram, k, pool.tables)
    requires forall d :: 0 <= d < 1024 ==>
               Entry(r, k.pgd, d) ==
               if d == HEAP_SLOT + |pool.pages| / 1024 && NeedsTable(pool) then Spare(pool) + FLAGS
               else Entry(ram, k.pgd, d)
    ensures Slots(r, k, GrowOne(pool).value.tables)
  {
    hide Entry;
  }

  lemma GrowMapped(ram: seq<Byte>, r: seq<Byte>, k: Kernel, pool: Pool)
    requires WellFormed(ram, k.pgd) && WellFormed(r, k.pgd)
    requires GrowOne(pool).Some? && |pool.pages| < PTE_COUNT * 1024
    requires Mapped(ram, k, pool.pages)
    requires forall p :: 0 <= p < 0x10_0000 ==>
               Pte(r, k.pgd, p) == if p == HEAP_PAGE + |pool.pages| then Last(pool.free) + FLAGS else Pte(ram, k.pgd, p)
    ensures Mapped(r, k, GrowOne(pool).value.pages)
  {
    hide WellFormed, Pte;
  }

  /** The entries after mapping frame `pa` at heap page `n`. */
  lemma MapHeapPage(ram: seq<Byte>, pgd: Word, n: nat, pa: Word, spare: Word, missing: bool)
    requires WellFormed(ram, pgd) && n < PTE_COUNT * 1024 && pa % 4096 == 0
    requires Table(ram, pgd, PgdIndex(PageAddr(n))) == 0 <==> missing
    requires missing ==> Fresh(ram, pgd, spare)
    ensures var r := MapBytes(ram, pgd, PageAddr(n), pa, FLAGS, spare);
      && |r| == |ram| && WellFormed(r, pgd)
      && (forall d :: 0 <= d < 1024 ==>
            Entry(r, pgd, d) == if d == HEAP_SLOT + n / 1024 && missing then spare + FLAGS else Entry(ram, pgd, d))
      && (forall p :: 0 <= p < 0x10_0000 ==>
            Pte(r, pgd, p) == if p == HEAP_PAGE + n then pa + FLAGS else Pte(ram, pgd, p))
  {
    hide PgdIndex, PteIndex, PageOf, PageAddr, PageBase, MapBytes, WellFormed, Fresh, Table, Pte, Entry;
    PageAddrParts(n);
    Aligned(pa, 0);
    TableBounds(ram, pgd, PgdIndex(PageAddr(n)));
    if missing {
      FreshBounds(ram, pgd, spare);
    }
    MapChangesOnePage(ram, pgd, PageAddr(n), pa, FLAGS, spare);
  }

  /** Mapping the next page yields the tables of the grown pool. */
  lemma GrowStep(ram: seq<Byte>, k: Kernel, pool: Pool, all: set<Word>)
    requires Backed(ram, k, pool, all) && GrowOne(pool).Some?
    ensures |pool.pages| < PTE_COUNT * 1024
    ensures NeedsTable(pool) ==> Fresh(ram, k.pgd, Spare(pool))
    ensures Table(ram, k.pgd, PgdIndex(PageAddr(|pool.pages|))) == 0 <==> NeedsTable(pool)
    ensures Backed(MapBytes(ram, k.pgd, PageAddr(|pool.pages|), Last(pool.free), FLAGS, Spare(pool)),
                   k, GrowOne(pool).value, all)
  {
    hide MapBytes, Fresh, Owned, Slots, Mapped, PgdIndex, PageAddr, WellFormed, Table, Pte, Entry;
    var n, pa := |pool.pages|, Last(pool.free);
    NextSlot(ram, k, pool, all);
    GrowBounds(k, pool, all);
    if NeedsTable(pool) {
      FreeIsFresh(ram, k, pool, all, Spare(pool));
      FreshBounds(ram, k.pgd, Spare(pool));
    }
    TableBounds(ram, k.pgd, PgdIndex(PageAddr(n)));
    Owners(k, pool, all);
    assert pa in pool.free;
    MapHeapPage(ram, k.pgd, n, pa, Spare(pool), NeedsTable(pool));
    GrowOneKeeps(pool, all);
    var r := MapBytes(ram, k.pgd, PageAddr(n), pa, FLAGS, Spare(pool));
    GrowSlots(ram, r, k, pool);
    GrowMapped(ram, r, k, pool);
  }

  /** Page frames lie in RAM, apart from the directory, the tables and each other. */
  lemma HeapByteIsNoTable(ram: seq<Byte>, k: Kernel, pool: Pool, all: set<Word>, i: nat, d: nat)
    requires Backed(ram, k, pool, all) && i < 4096 * |pool.pages| && d < 1024
    ensures var a := Phys(pool.pages, i);
      && a < |ram|
      && !(k.pgd <= a < k.pgd + 4096)
      && var t := Table(ram, k.pgd, d); t != 0 ==> !(t <= a < t + 4096)
  {
    Owners(k, pool, all);
    SlotTable(ram, k, pool.tables, d);
    var f := pool.pages[i / 4096];
    assert f in pool.pages;
    PagesApart(f, k.pgd);
    if HEAP_SLOT <= d < HEAP_SLOT + |pool.tables| {
      assert pool.tables[d - HEAP_SLOT] in pool.tables;
      PagesApart(f, pool.tables[d - HEAP_SLOT]);
    }
  }

  /** Growing leaves every byte of the heap as it was. */
  lemma GrowKeepsView(ram: seq<Byte>, k: Kernel, pool: Pool, all: set<Word>)
    requires Backed(ram, k, pool, all) && GrowOne(pool).Some?
    requires |pool.pages| < PTE_COUNT * 1024
    requires Table(ram, k.pgd, PgdIndex(PageAddr(|pool.pages|))) == 0 <==> NeedsTable(pool)
    requires NeedsTable(pool) ==> Fresh(ram, k.pgd, Spare(pool))
    ensures var r := MapBytes(ram, k.pgd, PageAddr(|pool.pages|), Last(pool.free), FLAGS, Spare(pool));
      var pages := GrowOne(pool).value.pages;
      && InRam(ram, pool.pages) && InRam(r, pages)
      && View(r, pages)[..4096 * |pool.pages|] == View(ram, pool.pages)
  {
    var n := |pool.pages|;
    var va := PageAddr(n);
    var r := MapBytes(ram, k.pgd, va, Last(pool.free), FLAGS, Spare(pool));
    var pages := GrowOne(pool).value.pages;
    PagesInRam(ram, k, pool, all);
    Owners(k, pool, all);
    assert Last(pool.free) in pool.free;
    forall i | 0 <= i < 4096 * n
      ensures r[Phys(pool.pages, i)] == ram[Phys(pool.pages, i)]
    {
      HeapByteIsNoTable(ram, k, pool, all, i, PgdIndex(va));
      if NeedsTable(pool) {
        FreeAndPageApart(k, pool, all, i);
      }
      MapTouches(ram, k.pgd, va, Last(pool.free), FLAGS, Spare(pool), Phys(pool.pages, i));
    }
    hide MapBytes;
    forall i | 0 <= i < 4096 * n
      ensures View(r, pages)[i] == View(ram, pool.pages)[i]
    {
      assert Phys(pages, i) == Phys(pool.pages, i);
    }
  }

  lemma FreeAndPageApart(k: Kernel, pool: Pool, all: set<Word>, i: nat)
    requires GoodFrames(k, all) && Conserved(pool, all) && GrowOne(pool).Some? && NeedsTable(pool)
    requires i < 4096 * |pool.pages|
    ensures var a := Phys(pool.pages, i); !(Spare(pool) <= a < Spare(pool) + 4096)
  {
    Owners(k, pool, all);
    var f := pool.pages[i / 4096];
    var j := |pool.free| - 2;
    assert f in pool.pages && pool.free[j] == Spare(pool) && Spare(pool) in pool.free;
    assert pool.free[j] != pool.pages[i / 4096];
    PagesApart(f, Spare(pool));
  }

  lemma ShrinkMapped(ram: seq<Byte>, r: seq<Byte>, k: Kernel, pages: seq<Word>)
    requires WellFormed(ram, k.pgd) && WellFormed(r, k.pgd)
    requires pages != [] && |pages| <= PTE_COUNT * 1024
    requires Mapped(ram, k, pages)
    requires forall p :: 0 <= p < 0x10_0000 ==>
               Pte(r, k.pgd, p) == if p == HEAP_PAGE + (|pages| - 1) then 0 else Pte(ram, k.pgd, p)
    ensures Mapped(r, k, Front(pages))
  {
    hide WellFormed, Pte;
  }

  /** Unmapping the last page yields the tables of the shrunk pool and keeps the remaining bytes. */
  lemma ShrinkStep(ram: seq<Byte>, k: Kernel, pool: Pool, all: set<Word>)
    requires Backed(ram, k, pool, all) && pool.pages != []
    ensures |pool.pages| <= PTE_COUNT * 1024
    ensures Pte(ram, k.pgd, PageOf(PageAddr(|pool.pages| - 1))) == Last(pool.pages) + FLAGS
    ensures PageBase(Last(pool.pages) + FLAGS) == Last(pool.pages)
    ensures Backed(UnmapBytes(ram, k.pgd, PageAddr(|pool.pages| - 1)), k, ShrinkOne(pool), all)
  {
    hide UnmapBytes, Owned;
    var n := |pool.pages| - 1;
    Owners(k, pool, all);
    PageAddrParts(n);
    UnmapRemovesOnePage(ram, k.pgd, PageAddr(n));
    ShrinkToConserves(pool, n, all);
    assert ShrinkTo(pool, n) == ShrinkOne(pool);
    assert Last(pool.pages) in pool.pages;
    Aligned(Last(pool.pages), FLAGS);
    assert Pte(ram, k.pgd, HEAP_PAGE + n) == PageWord(pool.pages, HEAP_PAGE + n);
    var r := UnmapBytes(ram, k.pgd, PageAddr(n));
    hide WellFormed, Table, Pte, Entry;
    ShrinkMapped(ram, r, k, pool.pages);
  }

  lemma ShrinkKeepsView(ram: seq<Byte>, k: Kernel, pool: Pool, all: set<Word>)
    requires Backed(ram, k, pool, all) && pool.pages != [] && |pool.pages| <= PTE_COUNT * 1024
    ensures var r := UnmapBytes(ram, k.pgd, PageAddr(|pool.pages| - 1));
      && InRam(ram, pool.pages) && InRam(r, Front(pool.pages))
      && View(r, Front(pool.pages)) == View(ram, pool.pages)[..4096 * (|pool.pages| - 1)]
  {
    var n := |pool.pages| - 1;
    var va := PageAddr(n);
    var r := UnmapBytes(ram, k.pgd, va);
    PagesInRam(ram, k, pool, all);
    forall i | 0 <= i < 4096 * n
      ensures r[Phys(pool.pages, i)] == ram[Phys(pool.pages, i)]
    {
      HeapByteIsNoTable(ram, k, pool, all, i, PgdIndex(va));
    }
    hide UnmapBytes;
    forall i | 0 <= i < 4096 * n
      ensures View(r, Front(pool.pages))[i] == View(ram, pool.pages)[i]
    {
      assert Phys(Front(pool.pages), i) == Phys(pool.pages, i);
    }
  }

  lemma PhysIsInjective(k: Kernel, pool: Pool, all: set<Word>, i: nat, j: nat)
    requires GoodFrames(k, all) && Conserved(pool, all)
    requires i < 4096 * |pool.pages| && j < 4096 * |pool.pages| && i != j
    ensures Phys(pool.pages, i) != Phys(pool.pages, j)
  {
    Owners(k, pool, all);
    var f, g := pool.pages[i / 4096], pool.pages[j / 4096];
    assert f in pool.pages && g in pool.pages;
    if i / 4096 != j / 4096 {
      PagesApart(f, g);
    }
  }

  /** Storing a byte into the heap changes that byte of the heap, no other, and no mapping. */
  lemma StoreStep(ram: seq<Byte>, k: Kernel, pool: Pool, all: set<Word>, i: nat, b: Byte)
    requires Backed(ram, k, pool, all) && i < 4096 * |pool.pages|
    ensures Phys(pool.pages, i) < |ram| && InRam(ram, pool.pages)
    ensures var r := ram[Phys(pool.pages, i) := b];
      && Backed(r, k, pool, all) && InRam(r, pool.pages)
      && View(r, pool.pages) == View(ram, pool.pages)[i := b]
  {
    PagesInRam(ram, k, pool, all);
    HeapByteIsNoTable(ram, k, pool, all, i, 0);
    var a := Phys(pool.pages, i);
    var r := ram[a := b];
    forall d | 0 <= d < 1024 && Table(ram, k.pgd, d) != 0
      ensures !(Table(ram, k.pgd, d) <= a < Table(ram, k.pgd, d) + 4096)
    {
      HeapByteIsNoTable(ram, k, pool, all, i, d);
    }
    StoreKeepsTables(ram, k, pool, all, a, b);
    forall j | 0 <= j < 4096 * |pool.pages| && j != i
      ensures View(r, pool.pages)[j] == View(ram, pool.pages)[j]
    {
      PhysIsInjective(k, pool, all, i, j);
    }
  }

  lemma StoreKeepsTables(ram: seq<Byte>, k: Kernel, pool: Pool, all: set<Word>, a: nat, b: Byte)
    requires Backed(ram, k, pool, all) && a < |ram|
    requires !(k.pgd <= a < k.pgd + 4096)
    requires forall d :: 0 <= d < 1024 && Table(ram, k.pgd, d) != 0 ==>
               !(Table(ram, k.pgd, d) <= a < Table(ram, k.pgd, d) + 4096)
    ensures Backed(ram[a := b], k, pool, all)
  {
    TablesFrame(ram, ram[a := b], k.pgd);
  }

  // ----- what the processor sees

  /** Below a present directory entry the walk is decided by the page's table entry. */
  lemma WalkByPte(ram: seq<Byte>, pgd: Word, va: Word)
    requires WellFormed(ram, pgd)
    requires Entry(ram, pgd, PgdIndex(va)) % 2 == 1 && Table(ram, pgd, PgdIndex(va)) != 0
    ensures var pte := Pte(ram, pgd, PageOf(va));
      Walk(ram, pgd, va) == if pte % 2 == 0 then Fault else At(PageBase(pte) + va % 4096)
  {
    hide Get32;
  }

  lemma HeapParts(va: Word)
    requires HEAP_START <= va
    ensures var i := va - HEAP_START;
      && PageOf(va) == HEAP_PAGE + i / 4096 && va % 4096 == i % 4096
      && PgdIndex(va) == HEAP_SLOT + i / 4096 / 1024
  {
  }

  lemma HeapPresent(ram: seq<Byte>, k: Kernel, pool: Pool, all: set<Word>, va: Word)
    requires Backed(ram, k, pool, all) && HEAP_START <= va
    ensures var d := PgdIndex(va);
      if d < HEAP_SLOT + |pool.tables| then Entry(ram, k.pgd, d) % 2 == 1 && Table(ram, k.pgd, d) != 0
      else Entry(ram, k.pgd, d) == 0
    ensures var n := (va - HEAP_START) / 4096;
      Pte(ram, k.pgd, PageOf(va)) == if n < |pool.pages| then pool.pages[n] + FLAGS else 0
  {
    Owners(k, pool, all);
    HeapParts(va);
    var d := PgdIndex(va);
    SlotTable(ram, k, pool.tables, d);
    assert Entry(ram, k.pgd, d) == SlotWord(k, pool.tables, d);
    assert Pte(ram, k.pgd, PageOf(va)) == PageWord(pool.pages, PageOf(va));
    if d < HEAP_SLOT + |pool.tables| {
      assert pool.tables[d - HEAP_SLOT] in pool.tables;
      Aligned(pool.tables[d - HEAP_SLOT], FLAGS);
    }
  }

  lemma WalkPhys(ram: seq<Byte>, k: Kernel, pool: Pool, all: set<Word>, va: Word)
    requires Backed(ram, k, pool, all) && HEAP_START <= va
    ensures Walk(ram, k.pgd, va) ==
            if va - HEAP_START < 4096 * |pool.pages| then At(Phys(pool.pages, va - HEAP_START)) else Fault
  {
    HeapPresent(ram, k, pool, all, va);
    HeapParts(va);
    Owners(k, pool, all);
    var n := (va - HEAP_START) / 4096;
    if n < |pool.pages| {
      assert pool.pages[n] in pool.pages;
      Aligned(pool.pages[n], FLAGS);
    }
    if PgdIndex(va) < HEAP_SLOT + |pool.tables| {
      WalkByPte(ram, k.pgd, va);
    }
    hide Entry, PgdIndex, PteIndex, PageOf, WellFormed, Slots, Mapped, PageBase, Pte, Table;
  }

  /** The processor finds every heap byte at the frame its page was given, present and writable, and
      faults beyond. */
  lemma WalkHeap(ram: seq<Byte>, k: Kernel, pool: Pool, all: set<Word>, va: Word)
    requires Backed(ram, k, pool, all) && 0xE000_0000 <= va
    ensures var n := (va - 0xE000_0000) / 0x1000;
      && Walk(ram, k.pgd, va) == (if n < |pool.pages| then At(pool.pages[n] + va % 0x1000) else Fault)
      && Pte(ram, k.pgd, PageOf(va)) == if n < |pool.pages| then pool.pages[n] + 3 else 0
  {
    WalkPhys(ram, k, pool, all, va);
    HeapPresent(ram, k, pool, all, va);
    hide Walk, Entry, Table, Pte, PageOf, PgdIndex;
  }

  lemma LinearPresent(ram: seq<Byte>, k: Kernel, pool: Pool, all: set<Word>, a: nat)
    requires Backed(ram, k, pool, all) && a < RAM_SIZE
    ensures var va: Word := PAGE_OFFSET + a;
      && Entry(ram, k.pgd, PgdIndex(va)) % 2 == 1 && Table(ram, k.pgd, PgdIndex(va)) != 0
      && va % 4096 == a % 4096
      && Pte(ram, k.pgd, PageOf(va)) == if a < 4096 then 0 else 4096 * (a / 4096) + FLAGS
  {
    Owners(k, pool, all);
    var va: Word := PAGE_OFFSET + a;
    assert PageOf(va) == KERNEL_PAGE + a / 4096 && KERNEL_SLOT <= PgdIndex(va) < KERNEL_SLOT + PTE_COUNT;
    var d := PgdIndex(va);
    SlotTable(ram, k, pool.tables, d);
    assert Entry(ram, k.pgd, d) == SlotWord(k, pool.tables, d);
    Aligned(k.pteKern + 4096 * (d - KERNEL_SLOT), FLAGS);
    assert Pte(ram, k.pgd, PageOf(va)) == PageWord(pool.pages, PageOf(va));
  }

  /** In every reachable state the kernel's linear map stands: PAGE_OFFSET + a is physical `a`, and
      page 0 faults. */
  lemma WalkLinear(ram: seq<Byte>, k: Kernel, pool: Pool, all: set<Word>, a: nat)
    requires Backed(ram, k, pool, all) && a < 0x2000_0000
    ensures Walk(ram, k.pgd, 0xC000_0000 + a) == if a < 4096 then Fault else At(a)
  {
    hide Walk, Entry, Table, Pte, PageOf, PgdIndex, PageBase, Slots, Mapped, GoodFrames, Conserved, WellFormed;
    LinearPresent(ram, k, pool, all, a);
    var va: Word := PAGE_OFFSET + a;
    WalkByPte(ram, k.pgd, va);
    var page: Word := 4096 * (a / 4096);
    assert page + a % 4096 == a;
    Aligned(page, FLAGS);
  }
}

/** The heap's address range: `heap_max`, the loops that map and unmap its pages, and loads and
    stores into it, which go through the page tables byte by byte. */
module Arena {
  import opened Words
  import opened PageTables
  import opened FramePool
  import opened Pmm
  import opened Vmm
  import opened HeapSpec
  import opened HeapRuns
  import opened HeapPages

  class HeapArea {
    const mem: Memory
    var heapMax: int
    ghost const all: set<Word>
    ghost var pool: Pool

    ghost function Statics(): Kernel {
      Kernel(mem.pgd, mem.pteKern)
    }

    ghost function Repr(): set<object> {
      {this, mem.ram, mem.pmm, mem.pmm.stack}
    }

    ghost predicate Valid()
      reads Repr(), mem
    {
      && mem.Valid()
      && Backed(mem.ram[..], Statics(), pool, all)
      && pool.free == mem.pmm.Free()
      && heapMax == HEAP_START + 4096 * |pool.pages|
    }

    /** The heap's bytes from HEAP_START up, as the processor sees them. */
    ghost function Bytes(): (v: seq<Byte>)
      requires Valid()
      reads Repr(), mem
      ensures |v| == heapMax - HEAP_START
      ensures heapMax <= 0x1_0000_0000 - PAGE_SIZE
    {
      Owners(Statics(), pool, all);
      PagesInRam(mem.ram[..], Statics(), pool, all);
      View(mem.ram[..], pool.pages)
    }

    constructor (mem: Memory, ghost all: set<Word>)
      requires mem.Valid()
      requires Backed(mem.ram[..], Kernel(mem.pgd, mem.pteKern), Pool(mem.pmm.Free(), [], []), all)
      ensures this.mem == mem && this.all == all
      ensures Valid() && pool == Pool(mem.pmm.Free(), [], []) && heapMax == HEAP_START
    {
      this.mem := mem;
      this.all := all;
      heapMax := HEAP_START;
      pool := Pool(mem.pmm.Free(), [], []);
    }

    lemma LimitFollowsPages()
      requires Valid()
      ensures heapMax == HEAP_START + 4096 * |pool.pages|
    {
    }

    method LoadByte(va: Word) returns (b: Byte)
      requires Valid() && HEAP_START <= va < heapMax
      ensures b == Bytes()[va - HEAP_START]
    {
      WalkPhys(mem.ram[..], Statics(), pool, all, va);
      PagesInRam(mem.ram[..], Statics(), pool, all);
      ghost var view := Bytes();
      assert view[va - HEAP_START] == mem.ram[..][Phys(pool.pages, va - HEAP_START)];
      var t := mem.Translate(va);
      b := mem.ram[t.pa];
    }

    method StoreByte(va: Word, b: Byte)
      requires Valid() && HEAP_START <= va < heapMax
      modifies mem.ram
      ensures Valid()
      ensures Bytes() == old(Bytes())[va - HEAP_START := b]
    {
      ghost var before := mem.ram[..];
      StoreStep(before, Statics(), pool, all, va - HEAP_START, b);
      WalkPhys(before, Statics(), pool, all, va);
      var t := mem.Translate(va);
      mem.ram[t.pa] := b;
      assert mem.ram[..] == before[Phys(pool.pages, va - HEAP_START) := b];
    }

    method Load32(va: Word) returns (w: Word)
      requires Valid() && HEAP_START <= va && va + 4 <= heapMax
      ensures w == Get32(Bytes(), va - HEAP_START)
    {
      hide Backed, View;
      GetBytes(Bytes(), va - HEAP_START);
      var b0 := LoadByte(va);
      var b1 := LoadByte(va + 1);
      var b2 := LoadByte(va + 2);
      var b3 := LoadByte(va + 3);
      w := b0 as int + 0x100 * (b1 as int) + 0x1_0000 * (b2 as int) + 0x100_0000 * (b3 as int);
    }

    method Store32(va: Word, w: Word)
      requires Valid() && HEAP_START <= va && va + 4 <= heapMax
      modifies mem.ram
      ensures Valid()
      ensures Bytes() == Put32(old(Bytes()), va - HEAP_START, w)
    {
      hide Valid, Get32;
      assert heapMax <= |Bytes()| + HEAP_START;
      StoreByte(va, w % 0x100);
      StoreByte(va + 1, w / 0x100 % 0x100);
      StoreByte(va + 2, w / 0x1_0000 % 0x100);
      StoreByte(va + 3, w / 0x100_0000);
    }

    /** One turn of `alloc_chunk`'s loop: fails, that is panics, exactly when the frames run out. */
    method AddPage() returns (ok: bool)
      requires Valid()
      modifies Repr()
      ensures ok <==> GrowOne(old(pool)).Some?
      ensures ok ==> Valid() && pool == GrowOne(old(pool)).value
      ensures ok ==> heapMax == old(heapMax) + PAGE_SIZE
      ensures ok ==> |old(Bytes())| <= |Bytes()| && Bytes()[..|old(Bytes())|] == old(Bytes())
    {
      hide Backed, MapBytes, View, Fresh, WellFormed, Table;
      ghost var before, was, k := mem.ram[..], pool, Statics();
      NextSlot(before, k, was, all);
      PagesInRam(before, k, was, all);
      if GrowOne(was).Some? {
        GrowStep(before, k, was, all);
        GrowKeepsView(before, k, was, all);
      }
      var page: Word;
      ok, page := mem.pmm.AllocPage();
      if !ok {
        return;
      }
      assert page == Last(was.free) && mem.pmm.Free() == Front(was.free);
      assert heapMax == PageAddr(|was.pages|);
      ok := mem.Map(heapMax, page, PRESENT + WRITE);
      if ok {
        heapMax := heapMax + PAGE_SIZE;
        pool := GrowOne(was).value;
      }
    }

    /** `alloc_chunk`: map pages until the 32-bit sum `start + len` is covered. */
    method AllocChunk(start: Word, len: Word) returns (ok: bool)
      requires Valid()
      modifies Repr()
      ensures ok <==> GrowTo(old(pool), PagesFor((start + len) % WORDS)).Some?
      ensures ok ==> Valid() && pool == GrowTo(old(pool), PagesFor((start + len) % WORDS)).value
      ensures ok ==> |old(Bytes())| <= |Bytes()| && Bytes()[..|old(Bytes())|] == old(Bytes())
    {
      hide Backed, GoodFrames, Conserved, View, GrowOne;
      ghost var n, was := PagesFor((start + len) % WORDS), Bytes();
      ghost var goal := GrowTo(pool, n);
      while (start + len) % WORDS > heapMax
        invariant Valid()
        invariant GrowTo(pool, n) == goal
        invariant |was| <= |Bytes()| && Bytes()[..|was|] == was
        decreases (start + len) % WORDS - heapMax
      {
        ghost var before := Bytes();
        ok := AddPage();
        if !ok {
          return;
        }
        assert Bytes()[..|was|] == Bytes()[..|before|][..|was|];
      }
      ok := true;
    }

    /** What `get_mapping` will find. */
    lemma LastIsMapped()
      requires Valid() && heapMax > HEAP_START
      ensures mem.Valid() && WellFormed(mem.ram[..], mem.pgd) && pool.pages != [] && |pool.pages| <= PTE_COUNT * 1024
      ensures heapMax - PAGE_SIZE == PageAddr(|pool.pages| - 1)
      ensures Pte(mem.ram[..], mem.pgd, PageOf(PageAddr(|pool.pages| - 1))) != 0
      ensures PageBase(Pte(mem.ram[..], mem.pgd, PageOf(PageAddr(|pool.pages| - 1)))) == Last(pool.pages)
    {
      hide Backed, WellFormed, Pte, PageBase, PageOf, GoodFrames, Conserved;
      ShrinkStep(mem.ram[..], Statics(), pool, all);
    }

    /** The first half of a turn of `free_chunk`'s loop: look up the last page and unmap it. */
    method UnmapLast() returns (page: Word)
      requires Valid() && heapMax > HEAP_START
      modifies `heapMax, mem.ram
      ensures mem.Valid() && pool.pages != [] && |pool.pages| <= PTE_COUNT * 1024
      ensures page == Last(pool.pages) && heapMax == old(heapMax) - PAGE_SIZE
      ensures mem.ram[..] == UnmapBytes(old(mem.ram[..]), mem.pgd, PageAddr(|pool.pages| - 1))
    {
      hide Backed, UnmapBytes, WellFormed, Table, Pte, PageBase, PageOf, GoodFrames, Conserved;
      LastIsMapped();
      heapMax := heapMax - PAGE_SIZE;
      var found;
      found, page := mem.GetMapping(heapMax, true);
      assert found;
      mem.Unmap(heapMax);
    }

    /** One turn of `free_chunk`'s loop: the page is mapped and its frame fits on the stack. */
    method DropPage()
      requires Valid() && heapMax > HEAP_START
      modifies Repr()
      ensures Valid() && old(pool).pages != [] && pool == ShrinkOne(old(pool))
      ensures heapMax == old(heapMax) - PAGE_SIZE
      ensures Bytes() == old(Bytes())[..|Bytes()|]
    {
      hide Backed, UnmapBytes, View, WellFormed;
      ghost var was := pool;
      DropIsSound();
      var page := UnmapLast();
      ReturnFrame(page);
      pool := ShrinkOne(was);
    }

    /** What a turn of the loop leaves. */
    lemma DropIsSound()
      requires Valid() && heapMax > HEAP_START
      ensures pool.pages != [] && |pool.pages| <= PTE_COUNT * 1024 && |pool.free| < PAGE_MAX_SIZE
      ensures |mem.ram[..]| == RAM_SIZE && mem.pgd + 4096 <= RAM_SIZE
      ensures Backed(UnmapBytes(mem.ram[..], mem.pgd, PageAddr(|pool.pages| - 1)), Statics(), ShrinkOne(pool), all)
      ensures InRam(UnmapBytes(mem.ram[..], mem.pgd, PageAddr(|pool.pages| - 1)), Front(pool.pages))
      ensures View(UnmapBytes(mem.ram[..], mem.pgd, PageAddr(|pool.pages| - 1)), Front(pool.pages)) ==
        Bytes()[..4096 * (|pool.pages| - 1)]
    {
      Owners(Statics(), pool, all);
      hide Backed, UnmapBytes, View, WellFormed, GoodFrames, Conserved, Distinct, Disjoint;
      ShrinkStep(mem.ram[..], Statics(), pool, all);
      ShrinkKeepsView(mem.ram[..], Statics(), pool, all);
    }

    /** The second half: the frame goes back onto the stack. */
    method ReturnFrame(page: Word)
      requires mem.Valid() && |mem.pmm.Free()| < PAGE_MAX_SIZE
      modifies mem.pmm, mem.pmm.stack
      ensures mem.Valid() && mem.ram[..] == old(mem.ram[..])
      ensures mem.pmm.Free() == old(mem.pmm.Free()) + [page]
    {
      hide WellFormed;
      var ok := mem.pmm.FreePage(page);
      assert ok;
    }

    /** The loop of `free_chunk`: unmap every page that starts at or after `chunk`. */
    method Trim(chunk: Word)
      requires Valid() && HEAP_START <= chunk
      modifies Repr()
      ensures Valid() && pool == ShrinkTo(old(pool), PagesFor(chunk))
      ensures |Bytes()| <= |old(Bytes())| && Bytes() == old(Bytes())[..|Bytes()|]
      ensures heapMax == old(heapMax) || chunk <= heapMax
    {
      hide Backed, GoodFrames, Conserved, View;
      ghost var n, goal, was := PagesFor(chunk), ShrinkTo(pool, PagesFor(chunk)), Bytes();
      while heapMax - PAGE_SIZE >= chunk
        invariant Valid()
        invariant ShrinkTo(pool, n) == goal
        invariant |Bytes()| <= |was| && Bytes() == was[..|Bytes()|]
        invariant heapMax == old(heapMax) || chunk <= heapMax
        decreases heapMax
      {
        DropPage();
      }
    }
  }
}

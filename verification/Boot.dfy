/** The memory part of `kern_init`: frames, page tables and heap set up one after the other. */
module Boot {
  import opened Words
  import opened PageTables
  import opened FramePool
  import opened Pmm
  import opened Vmm
  import HeapRuns
  import opened HeapPages
  import opened Arena
  import opened Heap

  /** What the boot loader and the linker hand over: one region of RAM at 1 MB that ends within the
      linear map (or gives no frame at all), and a page-aligned kernel image that holds the static tables. */
  ghost predicate BootState(mmap: seq<MmapEntry>, region: nat, kernelSize: nat, k: Kernel) {
    && OneRegion(mmap, region)
    && (0x10_0000 + mmap[region].lengthLow <= 0x2000_0000 || 0x1_0000_0000 <= 0x10_0000 + mmap[region].lengthLow)
    && kernelSize % 0x1000 == 0 && 0x10_0000 + kernelSize <= 0x2000_0000
    && StaticPlacement(k.pgd, k.pteKern)
    && k.pgd + 4096 <= 0x10_0000 + kernelSize
    && k.pteKern + PTE_COUNT * 4096 <= 0x10_0000 + kernelSize
  }

  ghost function FrameSet(mmap: seq<MmapEntry>, kernelSize: nat): set<Word> {
    set f | f in PushedFrames(mmap, kernelSize)
  }

  lemma PushedFramesAreGood(mmap: seq<MmapEntry>, region: nat, kernelSize: nat, k: Kernel)
    requires BootState(mmap, region, kernelSize, k)
    ensures GoodFrames(k, FrameSet(mmap, kernelSize))
    ensures Conserved(Pool(PushedFrames(mmap, kernelSize), [], []), FrameSet(mmap, kernelSize))
    ensures |PushedFrames(mmap, kernelSize)| < PAGE_MAX_SIZE
  {
    hide PushedFrames, OneRegion;
    FramesOfOneRegion(mmap, region, kernelSize);
    var fs, all := PushedFrames(mmap, kernelSize), FrameSet(mmap, kernelSize);
    HeapRuns.DistinctIsSet(fs, all);
    assert |multiset(fs)| == |multiset(all)|;
    forall f | f in all
      ensures 0 < f && f % 4096 == 0 && f + 4096 <= RAM_SIZE && f != k.pgd
      ensures f + 4096 <= k.pteKern || k.pteKern + PTE_COUNT * 4096 <= f
    {
      assert f in fs;
    }
  }

  /** After `init_vmm` the tables back an empty heap. */
  lemma LinearMapBacksEmptyHeap(ram: seq<Byte>, k: Kernel, free: seq<Word>, all: set<Word>)
    requires |ram| == RAM_SIZE && GoodFrames(k, all) && Conserved(Pool(free, [], []), all)
    requires WellFormed(ram, k.pgd) && LinearMap(ram, k.pgd, k.pteKern)
    requires forall d :: 0 <= d < 1024 && !(KERNEL_SLOT <= d < KERNEL_SLOT + PTE_COUNT) ==> Entry(ram, k.pgd, d) == 0
    ensures Backed(ram, k, Pool(free, [], []), all)
  {
    hide WellFormed;
    forall d | 0 <= d < 1024
      ensures Entry(ram, k.pgd, d) == SlotWord(k, [], d)
    {
      if KERNEL_SLOT <= d < KERNEL_SLOT + PTE_COUNT {
        assert Entry(ram, k.pgd, KERNEL_SLOT + (d - KERNEL_SLOT)) == k.pteKern + 4096 * (d - KERNEL_SLOT) + 3;
      }
    }
    forall p | 0 <= p < 0x10_0000
      ensures Pte(ram, k.pgd, p) == PageWord([], p)
    {
      EmptyHeapPage(ram, k, p);
    }
  }

  lemma EmptyHeapPage(ram: seq<Byte>, k: Kernel, p: nat)
    requires WellFormed(ram, k.pgd) && LinearMap(ram, k.pgd, k.pteKern) && p < 0x10_0000
    requires forall d :: 0 <= d < 1024 && !(KERNEL_SLOT <= d < KERNEL_SLOT + PTE_COUNT) ==> Entry(ram, k.pgd, d) == 0
    ensures Pte(ram, k.pgd, p) == PageWord([], p)
  {
    hide WellFormed, Get32;
    if KERNEL_PAGE <= p < KERNEL_PAGE + PTE_COUNT * 1024 {
      assert Pte(ram, k.pgd, KERNEL_PAGE + (p - KERNEL_PAGE)) == PageWord([], p);
    } else {
      TableBounds(ram, k.pgd, p / 1024);
      assert !(KERNEL_SLOT <= p / 1024 < KERNEL_SLOT + PTE_COUNT);
      assert Entry(ram, k.pgd, p / 1024) == 0;
    }
  }

  /** `init_pmm`, `init_vmm`, `init_heap`: nothing panics, and the heap starts out empty over all the
      frames of the region. */
  method KernInit(ram: array<Byte>, mmap: seq<MmapEntry>, ghost region: nat, kernelSize: nat,
                  pgd: Word, pteKern: Word, repaired: bool)
    returns (heap: KernelHeap)
    requires BootState(mmap, region, kernelSize, Kernel(pgd, pteKern)) && ram.Length == RAM_SIZE
    requires forall i :: pgd <= i < pgd + 4096 ==> ram[i] == 0
    requires forall i :: pteKern <= i < pteKern + PTE_COUNT * 4096 ==> ram[i] == 0
    modifies ram
    ensures heap.Valid() && heap.chunks == [] && heap.repaired == repaired
    ensures heap.area.all == FrameSet(mmap, kernelSize)
    ensures heap.area.pool == Pool(PushedFrames(mmap, kernelSize), [], [])
  {
    ghost var k, all := Kernel(pgd, pteKern), FrameSet(mmap, kernelSize);
    PushedFramesAreGood(mmap, region, kernelSize, k);
    hide BootState, OneRegion, PushedFrames, LinearMap, WellFormed, Backed, GoodFrames, Conserved;
    var pmm := new FrameStack();
    var ok := pmm.Init(mmap, kernelSize);
    assert ok;
    var mem := new Memory(ram, pmm, pgd, pteKern);
    mem.InitVmm();
    LinearMapBacksEmptyHeap(ram[..], k, pmm.Free(), all);
    var area := new HeapArea(mem, all);
    heap := new KernelHeap(area, repaired);
  }
}

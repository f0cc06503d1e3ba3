/** The physical page allocator: a stack of free page frames. */
module Pmm {
  import opened Words
  import opened FramePool

  const PMM_MAX_SIZE := 0x2000_0000
  const PMM_PAGE_SIZE := 0x1000
  const PAGE_MAX_SIZE := 0x2_0000

  /** The fields of a Multiboot memory-map entry that `init_pmm` reads. */
  datatype MmapEntry = MmapEntry(kind: Word, baseLow: Word, lengthLow: Word)

  predicate Usable(e: MmapEntry) {
    e.kind == 1 && e.baseLow == 0x10_0000
  }

  /** The 32-bit end address of a region; the sum wraps. */
  function RegionEnd(e: MmapEntry): Word {
    (e.baseLow + e.lengthLow) % 0x1_0000_0000
  }

  /** The pages from `page` up that lie below `end` and pass the size bound, in address order. */
  function Pages(page: nat, end: nat): (ps: seq<Word>)
    decreases PMM_MAX_SIZE + PMM_PAGE_SIZE - page
  {
    if page < end && page <= PMM_MAX_SIZE then [page] + Pages(page + PMM_PAGE_SIZE, end) else []
  }

  /** Everything `init_pmm` pushes for a memory map, given the size of the kernel image. */
  function PushedFrames(mmap: seq<MmapEntry>, kernelSize: nat): seq<Word> {
    if mmap == [] then []
    else
      (if Usable(mmap[0]) then Pages(mmap[0].baseLow + kernelSize, RegionEnd(mmap[0])) else [])
      + PushedFrames(mmap[1..], kernelSize)
  }

  lemma PushedStep(mmap: seq<MmapEntry>, i: nat, kernelSize: nat)
    requires i < |mmap|
    ensures PushedFrames(mmap[i..], kernelSize) ==
            (if Usable(mmap[i]) then Pages(mmap[i].baseLow + kernelSize, RegionEnd(mmap[i])) else [])
            + PushedFrames(mmap[i + 1..], kernelSize)
  {
    assert mmap[i..][1..] == mmap[i + 1..];
  }

  class FrameStack {
    const stack: array<Word>
    var top: nat
    var phyPageCount: nat

    ghost predicate Valid()
      reads this
    {
      stack.Length == PAGE_MAX_SIZE + 1 && top <= PAGE_MAX_SIZE
    }

    /** The free frames, most recently freed last; slot 0 of the array is never used. */
    ghost function Free(): (s: seq<Word>)
      requires Valid()
      reads this, stack
      ensures |s| == top
    {
      stack[1..top + 1]
    }

    /** The zero-initialised statics. */
    constructor ()
      ensures Valid() && Free() == [] && phyPageCount == 0
      ensures fresh(stack)
    {
      stack := new Word[PAGE_MAX_SIZE + 1](_ => 0);
      top := 0;
      phyPageCount := 0;
    }

    /** Fails, that is panics, exactly when no frame is free; otherwise takes the last freed frame. */
    method AllocPage() returns (ok: bool, page: Word)
      requires Valid()
      modifies this
      ensures Valid() && phyPageCount == old(phyPageCount)
      ensures ok <==> old(Free()) != []
      ensures ok ==> old(Free()) == Free() + [page]
      ensures !ok ==> Free() == old(Free())
    {
      page := 0;
      ok := top != 0;
      if ok {
        page := stack[top];
        top := top - 1;
      }
    }

    /** Fails exactly when the stack is full; otherwise the frame is the next one to be taken. */
    method FreePage(page: Word) returns (ok: bool)
      requires Valid()
      modifies this, stack
      ensures Valid() && phyPageCount == old(phyPageCount)
      ensures ok <==> |old(Free())| != 0x2_0000
      ensures Free() == if ok then old(Free()) + [page] else old(Free())
    {
      ok := top != PAGE_MAX_SIZE;
      if ok {
        top := top + 1;
        stack[top] := page;
      }
    }

    /** The inner loop of `init_pmm`: push the pages of one region, counting them. */
    method PushRegion(start: nat, end: nat) returns (ok: bool)
      requires Valid() && phyPageCount == |Free()|
      modifies this, stack
      ensures Valid() && phyPageCount == |Free()|
      ensures ok <==> |old(Free())| + |Pages(start, end)| <= PAGE_MAX_SIZE
      ensures ok ==> Free() == old(Free()) + Pages(start, end)
    {
      ghost var all := Free() + Pages(start, end);
      var pageAddr := start;
      while pageAddr < end && pageAddr <= PMM_MAX_SIZE
        invariant Valid() && phyPageCount == |Free()|
        invariant all == Free() + Pages(pageAddr, end)
        decreases PMM_MAX_SIZE + PMM_PAGE_SIZE - pageAddr
      {
        ok := FreePage(pageAddr);
        if !ok {
          return;
        }
        pageAddr := pageAddr + PMM_PAGE_SIZE;
        phyPageCount := phyPageCount + 1;
      }
      ok := true;
    }

    /** `init_pmm`: fails exactly when the frames to push do not fit on the stack. */
    method Init(mmap: seq<MmapEntry>, kernelSize: nat) returns (ok: bool)
      requires Valid() && Free() == [] && phyPageCount == 0
      modifies this, stack
      ensures Valid()
      ensures ok <==> |PushedFrames(mmap, kernelSize)| <= 0x2_0000
      ensures ok ==> Free() == PushedFrames(mmap, kernelSize) && phyPageCount == |Free()|
    {
      hide Pages, PushedFrames;
      ghost var all := PushedFrames(mmap, kernelSize);
      NoRegionFrames(mmap[|mmap|..], kernelSize);
      var i := 0;
      while i < |mmap|
        invariant 0 <= i <= |mmap|
        invariant Valid() && phyPageCount == |Free()|
        invariant all == Free() + PushedFrames(mmap[i..], kernelSize)
      {
        ghost var before, rest := Free(), PushedFrames(mmap[i + 1..], kernelSize);
        PushedStep(mmap, i, kernelSize);
        if mmap[i].kind == 1 && mmap[i].baseLow == 0x10_0000 {
          ghost var here := Pages(mmap[i].baseLow + kernelSize, RegionEnd(mmap[i]));
          assert all == before + here + rest;
          ok := PushRegion(mmap[i].baseLow + kernelSize, RegionEnd(mmap[i]));
          if !ok {
            return;
          }
        }
        i := i + 1;
      }
      ok := true;
    }
  }

  // ----- what the pushed frames are

  /** The pages of one region, by index. */
  lemma {:induction false} PagesByIndex(page: nat, end: nat)
    ensures forall i :: 0 <= i < |Pages(page, end)| ==>
      && Pages(page, end)[i] == page + i * PMM_PAGE_SIZE
      && Pages(page, end)[i] < end && Pages(page, end)[i] <= PMM_MAX_SIZE
    ensures page + |Pages(page, end)| * PMM_PAGE_SIZE >= end || page + |Pages(page, end)| * PMM_PAGE_SIZE > PMM_MAX_SIZE
    decreases PMM_MAX_SIZE + PMM_PAGE_SIZE - page
  {
    if page < end && page <= PMM_MAX_SIZE {
      PagesByIndex(page + PMM_PAGE_SIZE, end);
    }
  }

  /** The frames pushed for any memory map, from the entries alone: those at whole page steps above
      the kernel's end, below the end of a RAM region at 1 MB, and at 512 MB or below. A region
      whose 32-bit end address wraps gives none. */
  lemma {:induction false} FramesPushed(mmap: seq<MmapEntry>, kernelSize: nat, f: int)
    ensures f in PushedFrames(mmap, kernelSize) <==>
            exists k :: 0 <= k < |mmap| && mmap[k].kind == 1 && mmap[k].baseLow == 0x10_0000
                        && 0x10_0000 + kernelSize <= f < 0x10_0000 + mmap[k].lengthLow < 0x1_0000_0000
                        && f <= 0x2000_0000 && (f - 0x10_0000 - kernelSize) % 0x1000 == 0
  {
    if mmap != [] {
      var e, rest := mmap[0], mmap[1..];
      FramesPushed(rest, kernelSize, f);
      FramesOfRegion(e, kernelSize, f);
      assert forall k :: 0 <= k < |rest| ==> rest[k] == mmap[k + 1];
      assert forall k :: 0 < k < |mmap| ==> mmap[k] == rest[k - 1];
    }
  }

  lemma FramesOfRegion(e: MmapEntry, kernelSize: nat, f: int)
    ensures f in (if Usable(e) then Pages(e.baseLow + kernelSize, RegionEnd(e)) else []) <==>
            && e.kind == 1 && e.baseLow == 0x10_0000
            && 0x10_0000 + kernelSize <= f < 0x10_0000 + e.lengthLow < 0x1_0000_0000
            && f <= 0x2000_0000 && (f - 0x10_0000 - kernelSize) % 0x1000 == 0
  {
    hide Pages;
    var start, end := e.baseLow + kernelSize, RegionEnd(e);
    var fs := Pages(start, end);
    PagesByIndex(start, end);
    if f in fs {
      var i :| 0 <= i < |fs| && fs[i] == f;
      assert f - start == i * 0x1000;
    }
    if start <= f < end && f <= PMM_MAX_SIZE && (f - start) % 0x1000 == 0 {
      var i := (f - start) / PMM_PAGE_SIZE;
      assert f == start + i * PMM_PAGE_SIZE;
      assert fs[i] == f;
    }
  }

  /** The memory map the boot loader is expected to hand over: one region of RAM at 1 MB. */
  ghost predicate OneRegion(mmap: seq<MmapEntry>, k: nat) {
    && k < |mmap| && mmap[k].kind == 1 && mmap[k].baseLow == 0x10_0000
    && forall i :: 0 <= i < |mmap| && mmap[i].kind == 1 && mmap[i].baseLow == 0x10_0000 ==> i == k
  }

  lemma {:induction false} OneRegionFrames(mmap: seq<MmapEntry>, k: nat, kernelSize: nat)
    requires OneRegion(mmap, k)
    ensures PushedFrames(mmap, kernelSize) == Pages(0x10_0000 + kernelSize, RegionEnd(mmap[k]))
  {
    if k == 0 {
      NoRegionFrames(mmap[1..], kernelSize);
    } else {
      assert forall i :: 0 <= i < |mmap[1..]| ==> mmap[1..][i] == mmap[i + 1];
      OneRegionFrames(mmap[1..], k - 1, kernelSize);
    }
  }

  lemma {:induction false} NoRegionFrames(mmap: seq<MmapEntry>, kernelSize: nat)
    requires forall i :: 0 <= i < |mmap| ==> !Usable(mmap[i])
    ensures PushedFrames(mmap, kernelSize) == []
  {
    if mmap != [] {
      NoRegionFrames(mmap[1..], kernelSize);
    }
  }

  /** One region yields the pages from the kernel's end up, in address order: every page of the
      region at 512 MB or below, and too few of them to fill the stack. */
  lemma FramesOfOneRegion(mmap: seq<MmapEntry>, k: nat, kernelSize: nat)
    requires OneRegion(mmap, k) && kernelSize % 0x1000 == 0
    ensures var fs := PushedFrames(mmap, kernelSize);
      && Distinct(fs) && |fs| < PAGE_MAX_SIZE
      && (forall i :: 0 <= i < |fs| ==> fs[i] == 0x10_0000 + kernelSize + 0x1000 * i)
      && (forall f :: f in fs <==>
            && f % 0x1000 == 0 && f <= 0x2000_0000
            && 0x10_0000 + kernelSize <= f < 0x10_0000 + mmap[k].lengthLow < 0x1_0000_0000)
  {
    hide Pages, PushedFrames;
    var start, end := 0x10_0000 + kernelSize, RegionEnd(mmap[k]);
    var fs := Pages(start, end);
    OneRegionFrames(mmap, k, kernelSize);
    PagesByIndex(start, end);
    if fs != [] {
      assert fs[|fs| - 1] == start + (|fs| - 1) * PMM_PAGE_SIZE;
    }
    forall f: int
      ensures f in fs <==>
              && f % 0x1000 == 0 && f <= 0x2000_0000
              && start <= f < 0x10_0000 + mmap[k].lengthLow < 0x1_0000_0000
    {
      FramesOfRegion(mmap[k], kernelSize, f);
      assert (f - start) % 0x1000 == 0 <==> f % 0x1000 == 0;
    }
  }

  /** The size bound lets the frame at 512 MB itself through: every frame lies inside the 512 MB
      linear map if and only if the region ends at or below 512 MB, its end wraps, or the kernel
      leaves nothing below that bound. */
  lemma FramesInLinearMapIff(mmap: seq<MmapEntry>, k: nat, kernelSize: nat)
    requires OneRegion(mmap, k) && kernelSize % 0x1000 == 0
    ensures (forall f :: f in PushedFrames(mmap, kernelSize) ==> f + 0x1000 <= 0x2000_0000) <==>
            || 0x10_0000 + mmap[k].lengthLow <= 0x2000_0000
            || 0x10_0000 + mmap[k].lengthLow >= 0x1_0000_0000
            || 0x10_0000 + kernelSize > 0x2000_0000
  {
    FramesOfOneRegion(mmap, k, kernelSize);
    var fs := PushedFrames(mmap, kernelSize);
    if 0x2000_0000 < 0x10_0000 + mmap[k].lengthLow < 0x1_0000_0000 && 0x10_0000 + kernelSize <= 0x2000_0000 {
      assert 0x2000_0000 in fs;
    }
  }
}

/** `kmalloc` and `kfree`, statement by statement, on headers in paged memory. */
module Heap {
  import opened Words
  import opened FramePool
  import opened HeapSpec
  import HeapRuns
  import L = HeapLinks
  import opened HeaderBytes
  import opened Arena

  class KernelHeap {
    const area: HeapArea
    const repaired: bool            // split_chunk repairs the successor's back link
    var heapFirst: Word
    ghost var cells: map<int, L.Header>
    ghost var chunks: seq<Chunk>
    ghost var before: seq<Byte>     // the heap's bytes when the current call began
    ghost var mayWrite: set<int>    // the headers the current call may write

    ghost function List(): L.Links
      reads this
    {
      L.Links(heapFirst, cells)
    }

    ghost function Repr(): set<object> {
      {this} + area.Repr()
    }

    /** Holds at every statement: the headers are where `cells` says, and only headers have been
        written since the call began. */
    ghost predicate Sound()
      reads `cells, `before, `mayWrite, area.Repr(), area.mem
    {
      && this !in area.Repr()
      && area.Valid()
      && Holds(area.Bytes(), cells)
      && Separate(cells)
      && OnlyHeaders(before, area.Bytes(), mayWrite)
      && cells.Keys <= mayWrite
    }

    /** Between calls: a sound chunk list, its headers in memory, and no page too many. */
    ghost predicate Valid()
      reads Repr(), area.mem
    {
      && Sound()
      && Ok(chunks)
      && L.Represents(List(), chunks)
      && HEAP_START <= End(chunks)
      && |area.pool.pages| == HeapRuns.PagesFor(End(chunks))
    }

    /** `init_heap` on an area without pages. */
    constructor (area: HeapArea, repaired: bool)
      requires area.Valid() && area.pool.pages == []
      ensures this.area == area && this.repaired == repaired
      ensures Valid() && chunks == []
    {
      this.area, this.repaired := area, repaired;
      heapFirst := 0;
      cells, chunks, before, mayWrite := map[], [], [], {};
    }

    /** The word at offset `off` of header `a`. */
    method GetWord(a: int, off: int) returns (w: Word)
      requires Sound() && a in cells && (off == PREV || off == NEXT || off == PACKED)
      ensures Sound()
      ensures off == PREV ==> w == cells[a].prev
      ensures off == NEXT ==> w == cells[a].next
      ensures off == PACKED ==> cells[a].used == (w % 2 == 1) && cells[a].length == w / 2
    {
      hide HeapArea.Valid, Get32, OnlyHeaders, Separate;
      assert ReadHeader(area.Bytes(), a) == cells[a];
      w := area.Load32(a + off);
    }

    method SetWord(a: int, off: int, w: Word)
      requires Sound() && a in cells && (off == PREV || off == NEXT || off == PACKED)
      modifies `cells, area.mem.ram
      ensures Sound()
      ensures cells == old(cells)[a := if off == PREV then old(cells)[a].(prev := w)
                                       else if off == NEXT then old(cells)[a].(next := w)
                                       else old(cells)[a].(used := w % 2 == 1, length := w / 2)]
      ensures area.pool == old(area.pool) && area.heapMax == old(area.heapMax)
    {
      hide HeapArea.Valid, Get32, Put32;
      ghost var v := area.Bytes();
      StoreField(v, a, off, w);
      StoreKeepsOthers(v, cells, a, off, w);
      StoreInHeader(before, v, mayWrite, a, off, w);
      hide OnlyHeaders, ReadHeader, Holds;
      area.Store32(a + off, w);
      cells := cells[a := ReadHeader(area.Bytes(), a)];
    }

    method GetPrev(a: int) returns (x: Word)
      requires Sound() && a in cells
      ensures Sound() && x == cells[a].prev
    {
      x := GetWord(a, PREV);
    }

    method GetNext(a: int) returns (x: Word)
      requires Sound() && a in cells
      ensures Sound() && x == cells[a].next
    {
      x := GetWord(a, NEXT);
    }

    method GetUsed(a: int) returns (used: bool)
      requires Sound() && a in cells
      ensures Sound() && used == cells[a].used
    {
      var w := GetWord(a, PACKED);
      used := w % 2 == 1;
    }

    method GetLength(a: int) returns (n: nat)
      requires Sound() && a in cells
      ensures Sound() && n == cells[a].length
    {
      var w := GetWord(a, PACKED);
      n := w / 2;
    }

    method SetPrev(a: int, x: Word)
      requires Sound() && a in cells
      modifies `cells, area.mem.ram
      ensures Sound() && cells == old(cells)[a := old(cells)[a].(prev := x)]
      ensures area.pool == old(area.pool) && area.heapMax == old(area.heapMax)
    {
      hide Sound;
      SetWord(a, PREV, x);
    }

    method SetNext(a: int, x: Word)
      requires Sound() && a in cells
      modifies `cells, area.mem.ram
      ensures Sound() && cells == old(cells)[a := old(cells)[a].(next := x)]
      ensures area.pool == old(area.pool) && area.heapMax == old(area.heapMax)
    {
      hide Sound;
      SetWord(a, NEXT, x);
    }

    /** Assigning a bit field rewrites the word it shares with the other one. */
    method SetUsed(a: int, used: bool)
      requires Sound() && a in cells
      modifies `cells, area.mem.ram
      ensures Sound() && cells == old(cells)[a := old(cells)[a].(used := used)]
      ensures area.pool == old(area.pool) && area.heapMax == old(area.heapMax)
    {
      hide Sound;
      var w := GetWord(a, PACKED);
      SetWord(a, PACKED, w / 2 * 2 + if used then 1 else 0);
    }

    method SetLength(a: int, n: nat)
      requires Sound() && a in cells && n < 0x8000_0000
      modifies `cells, area.mem.ram
      ensures Sound() && cells == old(cells)[a := old(cells)[a].(length := n)]
      ensures area.pool == old(area.pool) && area.heapMax == old(area.heapMax)
    {
      hide Sound;
      var w := GetWord(a, PACKED);
      SetWord(a, PACKED, n * 2 + w % 2);
    }

    /** From here on the bytes at `a` are a header, whatever they hold. */
    ghost method AddHeader(a: int)
      requires Sound() && a !in cells && HEAP_START <= a && a + HEADER <= area.heapMax
      requires forall b :: b in cells ==> b + HEADER <= a || a + HEADER <= b
      modifies `cells, `mayWrite
      ensures Sound() && a in cells && cells == old(cells)[a := cells[a]]
      ensures mayWrite == old(mayWrite) + {a}
    {
      hide HeapArea.Valid, ReadHeader;
      cells := cells[a := ReadHeader(area.Bytes(), a)];
      mayWrite := mayWrite + {a};
      assert forall i :: InHeader(old(mayWrite), i) ==> InHeader(mayWrite, i);
    }

    ghost method ForgetHeader(a: int)
      requires Sound()
      modifies `cells
      ensures Sound() && cells == old(cells) - {a}
    {
      hide HeapArea.Valid, ReadHeader, OnlyHeaders;
      cells := cells - {a};
    }

    /** The four assignments that make a new header at `a`. */
    method InitHeader(a: int, prev: Word, next: Word, used: bool, length: nat)
      requires Sound() && a !in cells && HEAP_START <= a && a + HEADER <= area.heapMax
      requires forall b :: b in cells ==> b + HEADER <= a || a + HEADER <= b
      requires length < 0x8000_0000
      modifies `cells, `mayWrite, area.mem.ram
      ensures Sound() && cells == old(cells)[a := L.Header(prev, next, used, length)]
      ensures mayWrite == old(mayWrite) + {a}
      ensures area.pool == old(area.pool) && area.heapMax == old(area.heapMax)
    {
      hide Sound;
      AddHeader(a);
      SetPrev(a, prev);
      SetNext(a, next);
      SetUsed(a, used);
      SetLength(a, length);
    }

    /** The list is that of the chunks `cs`, all of them inside the mapped heap. */
    ghost predicate Listing(cs: seq<Chunk>)
      reads this, area
    {
      Tiled(cs) && L.Represents(List(), cs) && End(cs) <= area.heapMax < 0x1_0000_0000
    }

    /** `split_chunk` of free chunk `i`: exactly a tail of more than 12 bytes becomes a header. */
    method SplitChunk(chunk: Word, len: Word, ghost cs: seq<Chunk>, ghost i: nat)
      requires Sound() && Listing(cs)
      requires i < |cs| && cs[i].addr == chunk && HEADER <= len <= cs[i].len < 0x8000_0000
      modifies `cells, `mayWrite, area.mem.ram
      ensures Sound() && List() == L.Split(old(List()), chunk, len, repaired)
      ensures mayWrite == old(mayWrite) + if cs[i].len > len + 12 then {chunk + len} else {}
      ensures area.pool == old(area.pool) && area.heapMax == old(area.heapMax)
    {
      hide Sound, L.Represents;
      L.At(List(), cs, i);
      ghost var was := List();
      var length := GetLength(chunk);
      if length - len > HEADER {
        L.InsideIsApart(was, cs, i, chunk + len);
        hide Tiled;
        assert chunk + len + HEADER <= area.heapMax;
        var newChunk: int := chunk + len;
        var next := GetNext(chunk);
        InitHeader(newChunk, chunk, next, false, length - len);
        SetNext(chunk, newChunk);
        SetLength(chunk, len);
        assert cells == was.cells[newChunk := L.Header(chunk, next, false, length - len)]
                                 [chunk := was.cells[chunk].(next := newChunk, length := len)];
        if repaired && next != 0 {
          SetPrev(next, newChunk);
        }
      }
    }

    /** The assignments that join header `chunk` with its successor. */
    method TakeInNext(chunk: Word, next: Word)
      requires Sound() && chunk in cells && next in cells && chunk != next && cells[chunk].next == next
      requires var after := cells[next].next; after != 0 ==> after in cells && after != chunk && after != next
      requires 0 <= cells[chunk].length + cells[next].length < 0x8000_0000
      modifies `cells, area.mem.ram
      ensures Sound() && area.pool == old(area.pool) && area.heapMax == old(area.heapMax)
      ensures cells == L.Join(old(cells), chunk, next, old(cells)[next].next,
                              old(cells)[chunk].length + old(cells)[next].length)
    {
      hide Sound, L.Join;
      ghost var m := cells;
      L.JoinInSteps(m, chunk, next, m[next].next, m[chunk].length + m[next].length);
      var length := GetLength(chunk);
      var more := GetLength(next);
      SetLength(chunk, length + more);
      var afterNext := GetNext(next);
      if afterNext != 0 {
        SetPrev(afterNext, chunk);
      }
      afterNext := GetNext(next);
      SetNext(chunk, afterNext);
      ForgetHeader(next);
    }

    /** First part of `glue_chunk`: take in a free successor. */
    method GlueNext(chunk: Word, ghost cs: seq<Chunk>, ghost i: nat)
      requires Sound() && Listing(cs) && i < |cs| && cs[i].addr == chunk
      modifies `cells, area.mem.ram
      ensures Sound() && List() == L.GlueNext(old(List()), chunk)
      ensures area.pool == old(area.pool) && area.heapMax == old(area.heapMax)
    {
      hide Sound, L.Represents, L.GlueNext;
      ghost var was := List();
      L.At(was, cs, i);
      L.GlueNextIsJoin(was, cs, i);
      var next := GetNext(chunk);
      if next != 0 {
        L.At(was, cs, i + 1);
        var used := GetUsed(next);
        if !used {
          if i + 2 < |cs| {
            L.At(was, cs, i + 2);
          }
          TakeInNext(chunk, next);
        }
      }
    }

    /** The assignments that join header `prev` with its successor `chunk`. */
    method GiveToPrev(prev: Word, chunk: Word)
      requires Sound() && prev in cells && chunk in cells && chunk != prev && cells[chunk].prev == prev
      requires var next := cells[chunk].next; next != 0 ==> next in cells && next != chunk && next != prev
      requires 0 <= cells[prev].length + cells[chunk].length < 0x8000_0000
      modifies `cells, area.mem.ram
      ensures Sound() && area.pool == old(area.pool) && area.heapMax == old(area.heapMax)
      ensures cells == L.Join(old(cells), prev, chunk, old(cells)[chunk].next,
                              old(cells)[prev].length + old(cells)[chunk].length)
    {
      hide Sound, L.Join;
      ghost var m := cells;
      L.JoinInOtherSteps(m, prev, chunk, m[chunk].next, m[prev].length + m[chunk].length);
      var length := GetLength(prev);
      var more := GetLength(chunk);
      SetLength(prev, length + more);
      var next := GetNext(chunk);
      SetNext(prev, next);
      if next != 0 {
        SetPrev(next, prev);
      }
      ForgetHeader(chunk);
    }

    /** Second part of `glue_chunk`: be taken in by a free predecessor. */
    method GluePrev(chunk: Word, ghost cs: seq<Chunk>, ghost i: nat) returns (front: Word)
      requires Sound() && Listing(cs) && i < |cs| && cs[i].addr == chunk
      modifies `cells, area.mem.ram
      ensures Sound() && List() == L.GluePrev(old(List()), chunk) && front == L.Glued(old(List()), chunk)
      ensures area.pool == old(area.pool) && area.heapMax == old(area.heapMax)
    {
      hide Sound, L.Represents, L.GluePrev, L.Glued;
      ghost var was := List();
      L.At(was, cs, i);
      L.GluePrevIsJoin(was, cs, i);
      front := chunk;
      var prev := GetPrev(chunk);
      if prev != 0 {
        L.At(was, cs, i - 1);
        var used := GetUsed(prev);
        if !used {
          if i + 1 < |cs| {
            L.At(was, cs, i + 1);
          }
          GiveToPrev(prev, chunk);
          front := prev;
        }
      }
    }

    /** `free_chunk` of the last chunk: unlink it and give its whole pages back. */
    method FreeChunk(chunk: Word, ghost cs: seq<Chunk>)
      requires Sound() && Listing(cs) && cs != [] && Last(cs).addr == chunk && HEAP_START <= chunk
      modifies `cells, `heapFirst, area.Repr()
      ensures Sound() && List() == L.DropLast(old(List()), chunk)
      ensures area.pool == ShrinkTo(old(area.pool), HeapRuns.PagesFor(chunk))
    {
      hide Sound, L.Represents;
      ghost var was, n := List(), |cs| - 1;
      L.At(was, cs, n);
      L.OthersAreBelowLast(was, cs);
      hide Tiled;
      var prev := GetPrev(chunk);
      if prev == 0 {
        heapFirst := 0;
      } else {
        SetNext(prev, 0);
      }
      ForgetHeader(chunk);
      TrimBehind(chunk);
    }

    /** The unmapping loop of `free_chunk`, with every remaining header below `chunk`. */
    method TrimBehind(chunk: Word)
      requires Sound() && HEAP_START <= chunk
      requires forall a :: a in cells ==> a + HEADER <= chunk
      modifies area.Repr()
      ensures Sound()
      ensures area.pool == ShrinkTo(old(area.pool), HeapRuns.PagesFor(chunk))
    {
      hide HeapArea.Valid, ReadHeader, OnlyHeaders, Separate;
      ghost var v := area.Bytes();
      assert forall a :: a in cells ==> a - HEAP_START + HEADER <= |v|;
      hide Holds;
      area.Trim(chunk);
      ghost var n := |area.Bytes()|;
      assert area.Bytes() == v[..n];
      CutKeepsHeaders(before, v, mayWrite, cells, n);
    }

    /** `glue_chunk` of the freed chunk `i`, with `free_chunk` when it ends up last. */
    method GlueChunk(chunk: Word, ghost cs: seq<Chunk>, ghost i: nat)
      requires Sound() && Listing(cs) && FreeAt(cs, i) && cs[i].addr == chunk
      requires HEAP_START <= End(cs) && |area.pool.pages| == HeapRuns.PagesFor(End(cs))
      modifies `cells, `heapFirst, area.Repr()
      ensures Sound()
      ensures var a := MergeNext(cs, i);
        var r := DropTail(MergePrev(a, i), if MergesPrev(a, i) then i - 1 else i);
        && L.Represents(List(), r) && HEAP_START <= End(r)
        && area.pool == ShrinkTo(old(area.pool), HeapRuns.PagesFor(End(r)))
    {
      hide Sound, L.Represents, MergeNext, MergePrev, L.GlueNext, L.GluePrev, L.Glued;
      ghost var a := MergeNext(cs, i);
      MergeNextKeeps(cs, i);
      L.GlueNextRefines(List(), cs, i);
      MergeNextAt(cs, i);
      GlueNext(chunk, cs, i);
      assert Listing(a);

      ghost var b, j := MergePrev(a, i), if MergesPrev(a, i) then i - 1 else i;
      MergePrevKeeps(a, i);
      L.GluePrevRefines(List(), a, i);
      MergePrevAt(a, i);
      var front := GluePrev(chunk, a, i);
      assert Listing(b);

      DropTailKeepsOk(b, j);
      L.At(List(), b, j);
      L.DropLastRefines(List(), b, j);
      var next := GetNext(front);
      if next == 0 {
        FreeChunk(front, b);
      } else {
        HeapRuns.EndAtLeastStart(b);
      }
    }

    /** Start recording what this call writes. */
    ghost method BeginCall()
      requires Valid()
      modifies `before, `mayWrite
      ensures Sound() && Listing(chunks) && Ok(chunks) && HEAP_START <= End(chunks)
      ensures |area.pool.pages| == HeapRuns.PagesFor(End(chunks))
      ensures before == area.Bytes() && mayWrite == L.Heads(chunks)
    {
      hide HeapArea.Valid, Holds, Separate, L.Represents, Tiled, Ok;
      L.CellsAreHeads(List(), chunks);
      before, mayWrite := area.Bytes(), cells.Keys;
      OkIsTiled(chunks);
    }

    /** What a call wrote, in terms of the heap's bytes. */
    lemma Written(hs: set<int>)
      requires Sound() && mayWrite <= hs
      ensures area.Valid() && OnlyHeaders(before, area.Bytes(), hs)
    {
      MoreHeaders(before, area.Bytes(), mayWrite, hs);
    }

    /** No payload that is still live has changed since the call began with the chunks `cs`. */
    lemma KeptSince(cs: seq<Chunk>)
      requires Sound() && mayWrite <= L.Heads(cs) + L.Heads(chunks)
      requires Ok(cs) && Ok(chunks) && HEAP_START <= End(cs) && HEAP_START <= End(chunks)
      requires HeapRuns.PagesFor(End(chunks)) <= |area.pool.pages|
      requires End(cs) - HEAP_START <= |before|
      ensures area.Valid() && PayloadsKept(before, area.Bytes(), cs, chunks)
    {
      hide HeapArea.Valid;
      Written(L.Heads(cs) + L.Heads(chunks));
      area.LimitFollowsPages();
      HeadersMissPayloads(before, area.Bytes(), cs, chunks);
    }

    /** `kfree` of a live pointer: the chunks and the frames are those `Kfree` specifies, and not a
        byte outside the headers of the chunks has changed. */
    method Kfree(p: Word)
      requires Valid() && HeapRuns.IsLive(chunks, p)
      modifies Repr()
      ensures Valid()
      ensures HeapRuns.State(chunks, area.pool) == HeapRuns.Kfree(HeapRuns.State(old(chunks), old(area.pool)), p)
      ensures OnlyHeaders(old(area.Bytes()), area.Bytes(), L.Heads(old(chunks)))
      ensures PayloadsKept(old(area.Bytes()), area.Bytes(), old(chunks), chunks)
    {
      hide Sound, L.Represents, Tiled, Free, OnlyHeaders, HeapArea.Valid, PayloadsKept;
      ghost var cs, i := chunks, HeapRuns.IndexOf(chunks, p);
      BeginCall();
      L.At(List(), cs, i);
      Release(p - HEADER, i);
      chunks := Free(cs, i);
      Written(L.Heads(cs));
      KeptSince(cs);
    }

    method Release(header: Word, ghost i: nat)
      requires Sound() && Listing(chunks) && Ok(chunks)
      requires i < |chunks| && chunks[i].addr == header && chunks[i].used
      requires HEAP_START <= End(chunks) && |area.pool.pages| == HeapRuns.PagesFor(End(chunks))
      modifies `cells, `heapFirst, area.Repr()
      ensures Sound()
      ensures var r := Free(chunks, i);
        && Ok(r) && L.Represents(List(), r) && HEAP_START <= End(r) <= End(chunks)
        && area.pool == ShrinkTo(old(area.pool), HeapRuns.PagesFor(End(r)))
        && |area.pool.pages| == HeapRuns.PagesFor(End(r))
    {
      hide Sound, L.Represents, Tiled, MergeNext, MergePrev, DropTail, FreeAt, Ok;
      ghost var cs, r := chunks, Free(chunks, i);
      FreeKeepsOk(cs, i);
      OkIsTiled(r);
      HeapRuns.EndAtLeastStart(r);
      HeapRuns.PagesForMonotone(End(r), End(cs));
      ShrunkPages(area.pool, HeapRuns.PagesFor(End(r)));
      MarkFreeKeeps(cs, i);
      FreeAtIsTiled(cs[i := cs[i].(used := false)], i);
      L.At(List(), cs, i);
      L.MarkRefines(List(), cs, i, false);
      SetUsed(header, false);
      GlueChunk(header, cs[i := cs[i].(used := false)], i);
    }

    /** `alloc_chunk` seen from the headers: they stay where they are. */
    method Cover(start: Word, len: Word) returns (ok: bool)
      requires Sound() && HEAP_START <= start && start + len < 0x1_0000_0000
      requires |before| <= |area.Bytes()|
      modifies area.Repr()
      ensures ok <==> GrowTo(old(area.pool), HeapRuns.PagesFor(start + len)).Some?
      ensures ok ==> Sound() && area.pool == GrowTo(old(area.pool), HeapRuns.PagesFor(start + len)).value
      ensures ok ==> start + len <= area.heapMax
    {
      hide HeapArea.Valid, Holds, OnlyHeaders, Separate;
      ghost var v := area.Bytes();
      ok := area.AllocChunk(start, len);
      if ok {
        GrownPages(old(area.pool), HeapRuns.PagesFor(start + len));
        GrowKeepsHeaders(before, v, area.Bytes(), mayWrite, cells);
        area.LimitFollowsPages();
      }
    }

    /** The fitting chunk `k` has been found: split it, mark it, hand it out. */
    method Reuse(cur: Word, len: Word, ghost k: nat)
      requires Sound() && Listing(chunks) && Ok(chunks)
      requires k == MallocIndex(chunks, len) < |chunks| && chunks[k].addr == cur && HEADER <= len
      modifies `cells, `mayWrite, area.mem.ram
      ensures Sound() && area.pool == old(area.pool)
      ensures List() == L.Kmalloc(old(List()), len, repaired, |chunks| + 1).0
      ensures mayWrite <= old(mayWrite) + L.Heads(Malloc(chunks, len))
    {
      hide Sound, L.Represents, L.Split, L.Kmalloc, Malloc;
      L.At(List(), chunks, k);
      L.KmallocCases(List(), chunks, len, repaired, |chunks| + 1);
      L.SplitKeepsHead(List(), cur, len, repaired);
      L.SplitHeads(chunks, k, len);
      SplitChunk(cur, len, chunks, k);
      SetUsed(cur, true);
    }

    /** No chunk fits: map what is missing and add a chunk behind the last one. */
    method Extend(prev: Word, len: Word) returns (ok: bool, chunkStart: Word)
      requires Sound() && Listing(chunks) && Ok(chunks) && HEAP_START <= End(chunks)
      requires |before| <= |area.Bytes()|
      requires MallocIndex(chunks, len) == |chunks| && prev == L.AddrAt(chunks, |chunks| - 1)
      requires HEADER <= len < 0x8000_0000 && End(chunks) + len < 0x1_0000_0000
      modifies Repr()
      ensures chunks == old(chunks) && before == old(before)
      ensures chunkStart == End(chunks)
      ensures ok <==> GrowTo(old(area.pool), HeapRuns.PagesFor(End(chunks) + len)).Some?
      ensures ok ==> Sound() && area.pool == GrowTo(old(area.pool), HeapRuns.PagesFor(End(chunks) + len)).value
      ensures ok ==> List() == L.Kmalloc(old(List()), len, repaired, |chunks| + 1).0
      ensures ok ==> mayWrite == old(mayWrite) + {End(chunks)}
    {
      hide Sound, L.Represents, L.Kmalloc, Malloc;
      ghost var was := List();
      L.KmallocCases(was, chunks, len, repaired, |chunks| + 1);
      L.EndIsApart(was, chunks);
      if prev != 0 {
        L.At(was, chunks, |chunks| - 1);
        var length := GetLength(prev);
        chunkStart := prev + length;
      } else {
        if chunks != [] {
          L.At(was, chunks, |chunks| - 1);
        }
        chunkStart := HEAP_START;
        heapFirst := chunkStart;
      }
      ok := Cover(chunkStart, len);
      if !ok {
        return;
      }
      InitHeader(chunkStart, prev, 0, true, len);
      if prev != 0 {
        SetNext(prev, chunkStart);
      }
    }

    /** The search loop of `kmalloc`: the first fitting header or 0, and the one before it. */
    method Search(len: nat) returns (cur: Word, prev: Word)
      requires Sound() && Listing(chunks)
      ensures Sound()
      ensures var k := MallocIndex(chunks, len);
        && cur == L.AddrAt(chunks, k) && prev == L.AddrAt(chunks, k - 1)
        && (cur != 0 <==> k < |chunks|)
    {
      hide Sound, L.Represents;
      L.FirstIs(List(), chunks);
      cur, prev := heapFirst, 0;
      ghost var k := 0;
      while cur != 0
        invariant 0 <= k <= |chunks| && cur == L.AddrAt(chunks, k) && prev == L.AddrAt(chunks, k - 1)
        invariant FitFrom(chunks, k, len) == MallocIndex(chunks, len)
        invariant Sound()
        decreases |chunks| - k
      {
        L.At(List(), chunks, k);
        var used := GetUsed(cur);
        var length := GetLength(cur);
        if !used && length >= len {
          return;
        }
        prev := cur;
        cur := GetNext(cur);
        k := k + 1;
      }
      if k < |chunks| {
        L.At(List(), chunks, k);
      }
    }

    /** `kmalloc` for a chunk of `len` bytes, header included. */
    method Allocate(len: Word) returns (ok: bool, p: Word)
      requires Sound() && Listing(chunks) && Ok(chunks) && HEAP_START <= End(chunks)
      requires |before| <= |area.Bytes()|
      requires HEADER <= len < 0x8000_0000
      requires MallocIndex(chunks, len) < |chunks| || End(chunks) + len < 0x1_0000_0000
      modifies Repr()
      ensures chunks == old(chunks) && before == old(before)
      ensures MallocIndex(chunks, len) < |chunks| ==> ok && area.pool == old(area.pool)
      ensures MallocIndex(chunks, len) == |chunks| ==>
                var grown := GrowTo(old(area.pool), HeapRuns.PagesFor(End(chunks) + len));
                (ok <==> grown.Some?) && (ok ==> area.pool == grown.value)
      ensures ok ==> Sound() && List() == L.Kmalloc(old(List()), len, repaired, |chunks| + 1).0
      ensures ok ==> p == HeapRuns.MallocPtr(chunks, len - HEADER)
      ensures ok ==> mayWrite <= old(mayWrite) + L.Heads(Malloc(chunks, len))
    {
      hide Sound, L.Represents, Tiled, L.Kmalloc, Malloc, Ok;
      OkIsTiled(chunks);
      var cur, prev := Search(len);
      if cur != 0 {
        L.At(List(), chunks, MallocIndex(chunks, len));
        Reuse(cur, len, MallocIndex(chunks, len));
        ok, p := true, cur + HEADER;
      } else {
        L.ExtendHeads(chunks, len);
        var chunkStart: Word;
        ok, chunkStart := Extend(prev, len);
        p := if ok then chunkStart + HEADER else 0;
      }
    }

    /** `kmalloc`: fails, that is panics, exactly when the frames run out. Otherwise chunks, frames
        and result are those `Kmalloc` specifies, the payload holds `n` bytes and at most 12 more,
        and only headers have been written. The list is
        sound again unless the back link is left as written and a chunk was split. */
    method Kmalloc(n: Word) returns (ok: bool, p: Word)
      requires Valid() && HeapRuns.NoWrap(chunks, n)
      modifies Repr()
      ensures var s := HeapRuns.Kmalloc(HeapRuns.State(old(chunks), old(area.pool)), n);
        (ok <==> s.Some?) && (ok ==> HeapRuns.State(chunks, area.pool) == s.value)
      ensures ok ==> p == HeapRuns.MallocPtr(old(chunks), n)
      ensures ok ==> exists k :: 0 <= k < |chunks| && chunks[k].used && chunks[k].addr + 12 == p
                                 && n + 12 <= chunks[k].len <= n + 24
      ensures ok ==> List() == L.Kmalloc(old(List()), n + HEADER, repaired, |old(chunks)| + 1).0
      ensures ok ==> (Valid() <==> repaired || !HeapRuns.Cuts(old(chunks), n))
      ensures ok ==> Sound() && OnlyHeaders(old(area.Bytes()), area.Bytes(), L.Heads(old(chunks)) + L.Heads(chunks))
      ensures ok ==> PayloadsKept(old(area.Bytes()), area.Bytes(), old(chunks), chunks)
    {
      hide Sound, L.Represents, Tiled, OnlyHeaders, PayloadsKept, HeapArea.Valid, L.Kmalloc, Malloc;
      ghost var cs := chunks;
      var len: Word := (n + HEADER) % HeapRuns.WORDS;
      assert len == n + HEADER;
      BeginCall();
      HeapRuns.MallocEnd(cs, len);
      L.KmallocSoundIff(List(), cs, len, repaired, |cs| + 1);
      GrownIfSo(area.pool, HeapRuns.PagesFor(End(Malloc(cs, len))));
      ok, p := Allocate(len);
      HeapRuns.PayloadSize(cs, n);
      chunks := Malloc(cs, len);
      if ok {
        Written(L.Heads(cs) + L.Heads(chunks));
        KeptSince(cs);
      }
    }

    /** What callers may do between calls: a store into a live payload disturbs nothing. */
    method StoreToPayload(va: Word, b: Byte)
      requires Valid() && LivePayload(chunks, chunks, va)
      modifies `before, `mayWrite, area.mem.ram
      ensures Valid() && chunks == old(chunks) && area.pool == old(area.pool) && List() == old(List())
      ensures area.Valid() && HEAP_START <= va < area.heapMax
      ensures area.Bytes() == old(area.Bytes())[va - HEAP_START := b]
    {
      hide HeapArea.Valid, L.Represents;
      BeginCall();
      PayloadByte(chunks, va);
      area.LimitFollowsPages();
      ghost var v := area.Bytes();
      StoreKeepsHeaders(v, cells, va, b);
      area.StoreByte(va, b);
      before := area.Bytes();
    }
  }
}

/** The heap's chunk list as the code keeps it: headers with prev/next addresses, changed by the
    pointer assignments of `split_chunk`, `glue_chunk`, `free_chunk` and `kmalloc`. */
module HeapLinks {
  import opened FramePool
  import opened HeapSpec

  /** `header_t`; address 0 is the null pointer. */
  datatype Header = Header(prev: int, next: int, used: bool, length: int)

  /** `heap_first` and the headers in memory, by address. */
  datatype Links = Links(first: int, cells: map<int, Header>)

  function Cell(l: Links, a: int): Header {
    if a in l.cells then l.cells[a] else Header(0, 0, false, 0)
  }

  function SetCell(l: Links, a: int, h: Header): Links {
    l.(cells := l.cells[a := h])
  }

  /** The memory of header `a` becomes payload of another chunk, or is unmapped. */
  function Forget(l: Links, a: int): Links {
    l.(cells := l.cells - {a})
  }

  function SetUsed(l: Links, a: int, used: bool): Links {
    SetCell(l, a, Cell(l, a).(used := used))
  }

  // ----- the source's list operations

  /** `split_chunk`. As written it leaves the `prev` of the old successor alone; with `repaired`
      it points that link at the new chunk. */
  function Split(l: Links, c: int, len: int, repaired: bool): Links {
    var h := Cell(l, c);
    if h.length - len > HEADER then
      var n := c + len;
      var l1 := SetCell(l, n, Header(c, h.next, false, h.length - len));
      var l2 := SetCell(l1, c, h.(next := n, length := len));
      if repaired && h.next != 0 then SetCell(l2, h.next, Cell(l2, h.next).(prev := n)) else l2
    else l
  }

  predicate GluesNext(l: Links, c: int) {
    Cell(l, c).next != 0 && !Cell(l, Cell(l, c).next).used
  }

  /** First half of `glue_chunk`: take in a free successor. */
  function GlueNext(l: Links, c: int): Links {
    var h := Cell(l, c);
    var n := Cell(l, h.next);
    if GluesNext(l, c) then
      var l1 := SetCell(l, c, h.(length := h.length + n.length, next := n.next));
      var l2 := if n.next != 0 then SetCell(l1, n.next, Cell(l1, n.next).(prev := c)) else l1;
      Forget(l2, h.next)
    else l
  }

  predicate GluesPrev(l: Links, c: int) {
    Cell(l, c).prev != 0 && !Cell(l, Cell(l, c).prev).used
  }

  /** Second half of `glue_chunk`: be taken in by a free predecessor. */
  function GluePrev(l: Links, c: int): Links {
    var h := Cell(l, c);
    var p := Cell(l, h.prev);
    if GluesPrev(l, c) then
      var l1 := SetCell(l, h.prev, p.(length := p.length + h.length, next := h.next));
      var l2 := if h.next != 0 then SetCell(l1, h.next, Cell(l1, h.next).(prev := h.prev)) else l1;
      Forget(l2, c)
    else l
  }

  function Glued(l: Links, c: int): int {
    if GluesPrev(l, c) then Cell(l, c).prev else c
  }

  /** The list part of `free_chunk`, reached when the chunk is the last one. */
  function DropLast(l: Links, c: int): Links {
    var h := Cell(l, c);
    if h.next != 0 then l
    else if h.prev == 0 then Forget(l, c).(first := 0)
    else Forget(SetCell(l, h.prev, Cell(l, h.prev).(next := 0)), c)
  }

  /** `kfree` of the chunk with header `c`. */
  function Kfree(l: Links, c: int): Links {
    var l1 := GlueNext(SetUsed(l, c, false), c);
    DropLast(GluePrev(l1, c), Glued(l1, c))
  }

  /** The search loop of `kmalloc` from `cur`, run for at most `fuel` headers: the fitting header or
      0, and the last one visited. */
  function Find(l: Links, cur: int, prev: int, len: int, fuel: nat): (int, int)
    decreases fuel
  {
    if cur == 0 || fuel == 0 then (0, prev)
    else if !Cell(l, cur).used && Cell(l, cur).length >= len then (cur, prev)
    else Find(l, Cell(l, cur).next, cur, len, fuel - 1)
  }

  /** The list part of `kmalloc`: the new list and the header handed out; `len` counts the header. */
  function Kmalloc(l: Links, len: int, repaired: bool, fuel: nat): (Links, int) {
    var (found, last) := Find(l, l.first, 0, len, fuel);
    if found != 0 then (SetUsed(Split(l, found, len, repaired), found, true), found)
    else
      var start := if last != 0 then last + Cell(l, last).length else HEAP_START;
      var l1 := if last != 0 then l else l.(first := start);
      var l2 := SetCell(l1, start, Header(last, 0, true, len));
      (if last != 0 then SetCell(l2, last, Cell(l2, last).(next := start)) else l2, start)
  }

  // ----- the list that belongs to a chunk sequence

  function AddrAt(cs: seq<Chunk>, i: int): int {
    if 0 <= i < |cs| then cs[i].addr else 0
  }

  function HeaderOf(cs: seq<Chunk>, i: nat): Header
    requires i < |cs|
  {
    Header(AddrAt(cs, i - 1), AddrAt(cs, i + 1), cs[i].used, cs[i].len)
  }

  /** `a` is the address of one of the chunks [lo, hi). */
  ghost predicate Among(cs: seq<Chunk>, lo: int, hi: int, a: int) {
    exists i :: lo <= i < hi && 0 <= i < |cs| && cs[i].addr == a
  }

  /** Memory holds the right header for chunk `i`. */
  predicate HasHeader(l: Links, cs: seq<Chunk>, i: nat)
    requires i < |cs|
  {
    cs[i].addr in l.cells && l.cells[cs[i].addr] == HeaderOf(cs, i)
  }

  /** `next` and `prev` run through the chunks in address order and back, and nothing else is a
      header. */
  ghost predicate Represents(l: Links, cs: seq<Chunk>) {
    && l.first == AddrAt(cs, 0)
    && (forall i :: 0 <= i < |cs| ==> HasHeader(l, cs, i))
    && (forall a :: a in l.cells ==> Among(cs, 0, |cs|, a))
  }

  /** No other chunk has the address of chunk `i`, and no address is null. */
  lemma OwnAddress(cs: seq<Chunk>, i: nat)
    requires Tiled(cs) && i < |cs|
    ensures forall k :: 0 <= k < |cs| && k != i ==> cs[k].addr != cs[i].addr
    ensures cs[i].addr != 0
  {
    ChunkBounds(cs, i);
    forall k | 0 <= k < |cs| && k != i
      ensures cs[k].addr != cs[i].addr
    {
      if k < i {
        AddressesIncrease(cs, k, i);
      } else {
        AddressesIncrease(cs, i, k);
      }
    }
  }

  ghost function Heads(cs: seq<Chunk>): set<int> {
    set i | 0 <= i < |cs| :: cs[i].addr
  }

  lemma CellsAreHeads(l: Links, cs: seq<Chunk>)
    requires Represents(l, cs)
    ensures l.cells.Keys == Heads(cs)
  {
    forall a | a in Heads(cs)
      ensures a in l.cells
    {
      var i :| 0 <= i < |cs| && cs[i].addr == a;
      assert HasHeader(l, cs, i);
    }
    forall a | a in l.cells
      ensures a in Heads(cs)
    {
      assert Among(cs, 0, |cs|, a);
    }
  }

  // ----- replacing a window of chunks

  /** `r` is `cs` with the window [i, i + n) replaced by `m` chunks. */
  ghost predicate Window(cs: seq<Chunk>, r: seq<Chunk>, i: nat, n: nat, m: nat) {
    && i + n <= |cs| && |r| == |cs| - n + m
    && (forall k :: 0 <= k < i ==> r[k] == cs[k])
    && (forall k :: i + n <= k < |cs| ==> r[k - n + m] == cs[k])
  }

  /** The headers to the left and right of a window differ from before in one link at most. */
  lemma WindowHeader(cs: seq<Chunk>, r: seq<Chunk>, i: nat, n: nat, m: nat, k: nat)
    requires Window(cs, r, i, n, m) && k < |cs| && (k < i || i + n <= k)
    ensures var j := if k < i then k else k - n + m;
      && 0 <= j < |r| && r[j] == cs[k]
      && HeaderOf(r, j) ==
         if k + 1 == i then HeaderOf(cs, k).(next := AddrAt(r, i))
         else if k == i + n then HeaderOf(cs, k).(prev := AddrAt(r, i + m - 1))
         else HeaderOf(cs, k)
  {
    if i + n < k {
      assert r[k - 1 - n + m] == cs[k - 1];
    }
    if i + n <= k && k + 1 < |cs| {
      assert r[k + 1 - n + m] == cs[k + 1];
    }
  }

  /** Replacing a window: the list follows if the headers of the new window are right, the two
      neighbours point at it, and nothing else changed. */
  lemma Patch(l: Links, cs: seq<Chunk>, l': Links, r: seq<Chunk>, i: nat, n: nat, m: nat)
    requires Represents(l, cs) && Window(cs, r, i, n, m)
    requires l'.first == AddrAt(r, 0)
    requires forall k :: i <= k < i + m ==> HasHeader(l', r, k)
    requires i > 0 ==> cs[i - 1].addr in l'.cells &&
                       l'.cells[cs[i - 1].addr] == HeaderOf(cs, i - 1).(next := AddrAt(r, i))
    requires i + n < |cs| ==> cs[i + n].addr in l'.cells &&
                              l'.cells[cs[i + n].addr] == HeaderOf(cs, i + n).(prev := AddrAt(r, i + m - 1))
    requires forall k :: (0 <= k < i - 1 || i + n < k < |cs|) ==> HasHeader(l', cs, k)
    requires forall a :: a in l'.cells && a !in l.cells ==> Among(r, i, i + m, a)
    requires forall k :: i <= k < i + n && cs[k].addr in l'.cells ==> Among(r, i, i + m, cs[k].addr)
    ensures Represents(l', r)
  {
    forall j | 0 <= j < |r|
      ensures HasHeader(l', r, j)
    {
      if j < i {
        WindowHeader(cs, r, i, n, m, j);
        assert j < i - 1 ==> HasHeader(l', cs, j);
      } else if i + m <= j {
        WindowHeader(cs, r, i, n, m, j + n - m);
        assert i + m < j ==> HasHeader(l', cs, j + n - m);
      } else {
        assert HasHeader(l', r, j);
      }
    }
    forall a | a in l'.cells
      ensures Among(r, 0, |r|, a)
    {
      if !Among(r, i, i + m, a) {
        var k :| 0 <= k < |cs| && cs[k].addr == a;
        if k < i {
          assert r[k].addr == a;
        } else if i + n <= k {
          assert r[k - n + m].addr == a;
        }
      }
    }
  }

  // ----- each list operation is its chunk operation

  lemma MarkRefines(l: Links, cs: seq<Chunk>, i: nat, used: bool)
    requires Tiled(cs) && Represents(l, cs) && i < |cs|
    ensures Represents(SetUsed(l, cs[i].addr, used), cs[i := cs[i].(used := used)])
  {
    OwnAddress(cs, i);
    var r := cs[i := cs[i].(used := used)];
    var m := SetUsed(l, cs[i].addr, used);
    assert HasHeader(l, cs, i);
    assert HasHeader(m, r, i);
    hide Tiled;
    forall k | 0 <= k < i || i < k < |cs|
      ensures HasHeader(m, cs, k)
    {
      assert HasHeader(l, cs, k);
    }
    assert i > 0 ==> HasHeader(m, cs, i - 1);
    assert i + 1 < |cs| ==> HasHeader(m, cs, i + 1);
    assert Among(r, i, i + 1, r[i].addr);
    Patch(l, cs, m, r, i, 1, 1);
  }

  /** The headers after `split_chunk` has split a chunk of a sound list. */
  lemma SplitHeaders(l: Links, cs: seq<Chunk>, i: nat, len: int, repaired: bool)
    requires Tiled(cs) && Represents(l, cs)
    requires i < |cs| && HEADER <= len && Splits(cs[i], len)
    ensures var m := Split(l, cs[i].addr, len, repaired);
      var c, n := cs[i].addr, cs[i].addr + len;
      && m.first == l.first
      && m.cells.Keys == l.cells.Keys + {n}
      && m.cells[n] == Header(c, AddrAt(cs, i + 1), false, cs[i].len - len)
      && c in m.cells && m.cells[c] == HeaderOf(cs, i).(next := n, length := len)
      && (i + 1 < |cs| ==>
            cs[i + 1].addr in m.cells &&
            m.cells[cs[i + 1].addr] == (if repaired then HeaderOf(cs, i + 1).(prev := n) else HeaderOf(cs, i + 1)))
      && (forall a :: a in l.cells && a !in {c, n, AddrAt(cs, i + 1)} ==> m.cells[a] == l.cells[a])
  {
    OwnAddress(cs, i);
    SplitIsFresh(cs, i, len);
    assert HasHeader(l, cs, i);
    if i + 1 < |cs| {
      OwnAddress(cs, i + 1);
      assert HasHeader(l, cs, i + 1);
    }
  }

  /** What `split_chunk` writes: nothing when no more than 12 bytes would be left over; otherwise the
      header of a free chunk behind the first `len` bytes, this header's length and forward link,
      and, if repaired, the old successor's back link. */
  lemma SplitWrites(l: Links, cs: seq<Chunk>, i: nat, len: int, repaired: bool)
    requires Tiled(cs) && Represents(l, cs) && i < |cs| && 12 <= len
    ensures cs[i].addr in l.cells
    ensures var m := Split(l, cs[i].addr, len, repaired);
      var c, n := cs[i].addr, cs[i].addr + len;
      var next := l.cells[c].next;
      && m.first == l.first
      && (cs[i].len <= len + 12 ==> m.cells == l.cells)
      && (cs[i].len > len + 12 ==>
            && n !in l.cells && m.cells.Keys == l.cells.Keys + {n}
            && m.cells[n] == Header(c, next, false, cs[i].len - len)
            && m.cells[c] == l.cells[c].(next := n, length := len)
            && forall a :: a in l.cells && a != c ==>
                 m.cells[a] == if repaired && a == next then l.cells[a].(prev := n) else l.cells[a])
  {
    assert HasHeader(l, cs, i);
    OwnAddress(cs, i);
    if cs[i].len > len + 12 {
      SplitHeaders(l, cs, i, len, repaired);
      SplitIsFresh(cs, i, len);
      hide Split;
      if i + 1 < |cs| {
        OwnAddress(cs, i + 1);
        assert HasHeader(l, cs, i + 1);
      }
      forall a | a in l.cells
        ensures a != 0
      {
        var k :| 0 <= k < |cs| && cs[k].addr == a;
        ChunkBounds(cs, k);
      }
    }
  }

  lemma SplitWindow(cs: seq<Chunk>, i: nat, len: int)
    requires i < |cs| && Splits(cs[i], len)
    ensures var r := SplitAt(cs, i, len);
      && Window(cs, r, i, 1, 2)
      && r[i] == cs[i].(len := len)
      && r[i + 1] == Chunk(cs[i].addr + len, cs[i].len - len, false)
      && HeaderOf(r, i) == HeaderOf(cs, i).(next := cs[i].addr + len, length := len)
      && HeaderOf(r, i + 1) == Header(cs[i].addr, AddrAt(cs, i + 1), false, cs[i].len - len)
      && AddrAt(r, 0) == AddrAt(cs, 0)
  {
  }

  lemma SplitOthers(l: Links, cs: seq<Chunk>, i: nat, len: int, repaired: bool)
    requires Tiled(cs) && Represents(l, cs)
    requires i < |cs| && HEADER <= len && Splits(cs[i], len)
    ensures var m := Split(l, cs[i].addr, len, repaired);
      forall k :: 0 <= k < i || i + 1 < k < |cs| ==> HasHeader(m, cs, k)
  {
    SplitHeaders(l, cs, i, len, repaired);
    SplitIsFresh(cs, i, len);
    var m := Split(l, cs[i].addr, len, repaired);
    hide Split;
    OwnAddress(cs, i);
    if i + 1 < |cs| {
      OwnAddress(cs, i + 1);
    }
    hide Tiled, HeaderOf;
    forall k | 0 <= k < i || i + 1 < k < |cs|
      ensures HasHeader(m, cs, k)
    {
      assert HasHeader(l, cs, k);
    }
  }

  /** With the back link repaired, splitting keeps the list in step with the chunks. */
  lemma SplitRefines(l: Links, cs: seq<Chunk>, i: nat, len: int)
    requires Tiled(cs) && Represents(l, cs)
    requires i < |cs| && HEADER <= len
    ensures Represents(Split(l, cs[i].addr, len, true), SplitAt(cs, i, len))
  {
    assert HasHeader(l, cs, i);
    if Splits(cs[i], len) {
      CutRefines(l, cs, i, len);
    }
  }

  lemma CutRefines(l: Links, cs: seq<Chunk>, i: nat, len: int)
    requires Tiled(cs) && Represents(l, cs)
    requires i < |cs| && HEADER <= len && Splits(cs[i], len)
    ensures Represents(Split(l, cs[i].addr, len, true), SplitAt(cs, i, len))
  {
    var r := SplitAt(cs, i, len);
    var m := Split(l, cs[i].addr, len, true);
    SplitHeaders(l, cs, i, len, true);
    SplitWindow(cs, i, len);
    SplitOthers(l, cs, i, len, true);
    hide Split, SplitAt, HeaderOf, Tiled;
    assert i > 0 ==> HasHeader(m, cs, i - 1);
    assert HasHeader(m, r, i) && HasHeader(m, r, i + 1);
    assert Among(r, i, i + 2, r[i].addr) && Among(r, i, i + 2, r[i + 1].addr);
    Patch(l, cs, m, r, i, 1, 2);
  }

  lemma SplitIsFresh(cs: seq<Chunk>, i: nat, len: int)
    requires Tiled(cs) && i < |cs| && HEADER <= len && Splits(cs[i], len)
    ensures forall k :: 0 <= k < |cs| ==> cs[k].addr != cs[i].addr + len
  {
    forall k | 0 <= k < |cs|
      ensures cs[k].addr != cs[i].addr + len
    {
      if k < i {
        AddressesIncrease(cs, k, i);
      } else if k > i {
        AddressesIncrease(cs, i, k);
      }
    }
  }

  lemma MergeNextWindow(cs: seq<Chunk>, i: nat)
    requires i + 1 < |cs| && !cs[i + 1].used
    ensures var r := MergeNext(cs, i);
      && Window(cs, r, i, 2, 1)
      && r[i] == cs[i].(len := cs[i].len + cs[i + 1].len)
      && HeaderOf(r, i) == HeaderOf(cs, i).(next := AddrAt(cs, i + 2), length := cs[i].len + cs[i + 1].len)
      && AddrAt(r, 0) == AddrAt(cs, 0)
  {
  }

  /** The headers after `glue_chunk` has taken in the successor of chunk `i`. */
  lemma GlueNextHeaders(l: Links, cs: seq<Chunk>, i: nat)
    requires Tiled(cs) && Represents(l, cs) && i + 1 < |cs| && !cs[i + 1].used
    ensures var m := GlueNext(l, cs[i].addr);
      && m.first == l.first
      && m.cells.Keys == l.cells.Keys - {cs[i + 1].addr}
      && cs[i].addr in m.cells
      && m.cells[cs[i].addr] == HeaderOf(cs, i).(next := AddrAt(cs, i + 2), length := cs[i].len + cs[i + 1].len)
      && (i + 2 < |cs| ==> cs[i + 2].addr in m.cells)
      && (i + 2 < |cs| ==> m.cells[cs[i + 2].addr] == HeaderOf(cs, i + 2).(prev := cs[i].addr))
      && (forall a :: a in m.cells && a != cs[i].addr && a != AddrAt(cs, i + 2) ==> m.cells[a] == l.cells[a])
  {
    OwnAddress(cs, i);
    OwnAddress(cs, i + 1);
    assert HasHeader(l, cs, i) && HasHeader(l, cs, i + 1);
    if i + 2 < |cs| {
      OwnAddress(cs, i + 2);
      assert HasHeader(l, cs, i + 2);
    }
  }

  lemma GlueNextOthers(l: Links, cs: seq<Chunk>, i: nat)
    requires Tiled(cs) && Represents(l, cs) && i + 1 < |cs| && !cs[i + 1].used
    ensures var m := GlueNext(l, cs[i].addr);
      && (forall k :: 0 <= k < i || i + 2 < k < |cs| ==> HasHeader(m, cs, k))
      && cs[i + 1].addr !in m.cells
  {
    GlueNextHeaders(l, cs, i);
    var m := GlueNext(l, cs[i].addr);
    hide GlueNext;
    OwnAddress(cs, i);
    OwnAddress(cs, i + 1);
    if i + 2 < |cs| {
      OwnAddress(cs, i + 2);
    }
    hide Tiled, HeaderOf;
    forall k | 0 <= k < i || i + 2 < k < |cs|
      ensures HasHeader(m, cs, k)
    {
      assert HasHeader(l, cs, k);
    }
  }

  lemma GlueNextRefines(l: Links, cs: seq<Chunk>, i: nat)
    requires Tiled(cs) && Represents(l, cs) && i < |cs|
    ensures Represents(GlueNext(l, cs[i].addr), MergeNext(cs, i))
    ensures GluesNext(l, cs[i].addr) <==> i + 1 < |cs| && !cs[i + 1].used
  {
    assert HasHeader(l, cs, i);
    if i + 1 < |cs| {
      OwnAddress(cs, i + 1);
      assert HasHeader(l, cs, i + 1);
      if !cs[i + 1].used {
        var r := MergeNext(cs, i);
        var m := GlueNext(l, cs[i].addr);
        MergeNextWindow(cs, i);
        GlueNextHeaders(l, cs, i);
        GlueNextOthers(l, cs, i);
        hide MergeNext, GlueNext, HeaderOf, Tiled;
        assert i > 0 ==> HasHeader(m, cs, i - 1);
        assert HasHeader(m, r, i);
        assert Among(r, i, i + 1, r[i].addr);
        Patch(l, cs, m, r, i, 2, 1);
      }
    }
  }

  lemma MergePrevWindow(cs: seq<Chunk>, i: nat)
    requires i < |cs| && MergesPrev(cs, i)
    ensures var r := MergePrev(cs, i);
      && Window(cs, r, i - 1, 2, 1)
      && r[i - 1] == cs[i - 1].(len := cs[i - 1].len + cs[i].len)
      && HeaderOf(r, i - 1) ==
         HeaderOf(cs, i - 1).(next := AddrAt(cs, i + 1), length := cs[i - 1].len + cs[i].len)
      && AddrAt(r, 0) == AddrAt(cs, 0)
  {
  }

  /** The headers after the predecessor of chunk `i` has taken it in. */
  lemma GluePrevHeaders(l: Links, cs: seq<Chunk>, i: nat)
    requires Tiled(cs) && Represents(l, cs) && i < |cs| && MergesPrev(cs, i)
    ensures var m := GluePrev(l, cs[i].addr);
      && m.first == l.first
      && m.cells.Keys == l.cells.Keys - {cs[i].addr}
      && cs[i - 1].addr in m.cells
      && m.cells[cs[i - 1].addr] ==
         HeaderOf(cs, i - 1).(next := AddrAt(cs, i + 1), length := cs[i - 1].len + cs[i].len)
      && (i + 1 < |cs| ==> cs[i + 1].addr in m.cells)
      && (i + 1 < |cs| ==> m.cells[cs[i + 1].addr] == HeaderOf(cs, i + 1).(prev := cs[i - 1].addr))
      && (forall a :: a in m.cells && a != cs[i - 1].addr && a != AddrAt(cs, i + 1) ==> m.cells[a] == l.cells[a])
  {
    OwnAddress(cs, i);
    OwnAddress(cs, i - 1);
    assert HasHeader(l, cs, i) && HasHeader(l, cs, i - 1);
    if i + 1 < |cs| {
      OwnAddress(cs, i + 1);
      assert HasHeader(l, cs, i + 1);
    }
  }

  lemma GluePrevOthers(l: Links, cs: seq<Chunk>, i: nat)
    requires Tiled(cs) && Represents(l, cs) && i < |cs| && MergesPrev(cs, i)
    ensures var m := GluePrev(l, cs[i].addr);
      && (forall k :: 0 <= k < i - 1 || i + 1 < k < |cs| ==> HasHeader(m, cs, k))
      && cs[i].addr !in m.cells
  {
    GluePrevHeaders(l, cs, i);
    var m := GluePrev(l, cs[i].addr);
    hide GluePrev;
    OwnAddress(cs, i);
    OwnAddress(cs, i - 1);
    if i + 1 < |cs| {
      OwnAddress(cs, i + 1);
    }
    hide Tiled, HeaderOf;
    forall k | 0 <= k < i - 1 || i + 1 < k < |cs|
      ensures HasHeader(m, cs, k)
    {
      assert HasHeader(l, cs, k);
    }
  }

  lemma GluePrevRefines(l: Links, cs: seq<Chunk>, i: nat)
    requires Tiled(cs) && Represents(l, cs) && i < |cs|
    ensures Represents(GluePrev(l, cs[i].addr), MergePrev(cs, i))
    ensures GluesPrev(l, cs[i].addr) <==> MergesPrev(cs, i)
    ensures Glued(l, cs[i].addr) == cs[if MergesPrev(cs, i) then i - 1 else i].addr
  {
    assert HasHeader(l, cs, i);
    if i > 0 {
      OwnAddress(cs, i - 1);
      assert HasHeader(l, cs, i - 1);
      if !cs[i - 1].used {
        var r := MergePrev(cs, i);
        var m := GluePrev(l, cs[i].addr);
        MergePrevWindow(cs, i);
        GluePrevHeaders(l, cs, i);
        GluePrevOthers(l, cs, i);
        hide MergePrev, GluePrev, HeaderOf, Tiled;
        assert i > 1 ==> HasHeader(m, cs, i - 2);
        assert HasHeader(m, r, i - 1);
        assert Among(r, i - 1, i, r[i - 1].addr);
        Patch(l, cs, m, r, i - 1, 2, 1);
      }
    }
  }

  lemma DropLastRefines(l: Links, cs: seq<Chunk>, i: nat)
    requires Tiled(cs) && Represents(l, cs) && i < |cs|
    ensures Represents(DropLast(l, cs[i].addr), DropTail(cs, i))
  {
    assert HasHeader(l, cs, i);
    if i + 1 < |cs| {
      OwnAddress(cs, i + 1);
    } else {
      var m := DropLast(l, cs[i].addr);
      OwnAddress(cs, i);
      if i > 0 {
        OwnAddress(cs, i - 1);
        assert HasHeader(l, cs, i - 1);
      }
      hide Tiled;
      forall k | 0 <= k < i - 1
        ensures HasHeader(m, cs, k)
      {
        assert HasHeader(l, cs, k);
      }
      Patch(l, cs, m, DropTail(cs, i), i, 1, 0);
    }
  }

  /** `kfree` on the list is `Free` on the chunks. */
  lemma KfreeRefines(l: Links, cs: seq<Chunk>, i: nat)
    requires Ok(cs) && Represents(l, cs) && i < |cs| && cs[i].used
    ensures Represents(Kfree(l, cs[i].addr), Free(cs, i))
  {
    hide Represents;
    var freed := cs[i := cs[i].(used := false)];
    var l0 := SetUsed(l, cs[i].addr, false);
    MarkRefines(l, cs, i, false);
    MarkFreeKeeps(cs, i);
    GlueNextRefines(l0, freed, i);
    MergeNextKeeps(freed, i);
    var a := MergeNext(freed, i);
    assert a[i].addr == cs[i].addr;
    hide MergeNext, GlueNext;
    MergePrevKeeps(a, i);
    GluePrevRefines(GlueNext(l0, cs[i].addr), a, i);
    var j := if MergesPrev(a, i) then i - 1 else i;
    assert MergePrev(a, i)[j].addr == a[j].addr;
    hide MergePrev, GluePrev, Glued;
    DropLastRefines(GluePrev(GlueNext(l0, cs[i].addr), cs[i].addr), MergePrev(a, i), j);
  }

  // ----- what a caller may rely on at one header

  /** Header `i` of a sound list, its neighbours, and where they lie. */
  lemma At(l: Links, cs: seq<Chunk>, i: nat)
    requires Tiled(cs) && Represents(l, cs) && i < |cs|
    ensures var c := cs[i].addr;
      && c in l.cells && l.cells[c] == HeaderOf(cs, i)
      && HEAP_START <= c && c + cs[i].len <= End(cs)
      && (i + 1 < |cs| ==> cs[i + 1].addr in l.cells && c < cs[i + 1].addr)
      && (i > 0 ==> cs[i - 1].addr in l.cells && 0 < cs[i - 1].addr < c)
  {
    assert HasHeader(l, cs, i);
    ChunkBounds(cs, i);
    if i + 1 < |cs| {
      assert HasHeader(l, cs, i + 1);
      AddressesIncrease(cs, i, i + 1);
    }
    if i > 0 {
      assert HasHeader(l, cs, i - 1);
      ChunkBounds(cs, i - 1);
      AddressesIncrease(cs, i - 1, i);
    }
  }

  lemma OthersAreBelowLast(l: Links, cs: seq<Chunk>)
    requires Tiled(cs) && Represents(l, cs) && cs != []
    ensures HEAP_START <= Last(cs).addr
    ensures forall a :: a in l.cells && a != Last(cs).addr ==> a + HEADER <= Last(cs).addr
  {
    ChunkBounds(cs, |cs| - 1);
    forall a | a in l.cells && a != Last(cs).addr
      ensures a + HEADER <= Last(cs).addr
    {
      var k :| 0 <= k < |cs| && cs[k].addr == a;
      AddressesIncrease(cs, k, |cs| - 1);
    }
  }

  /** Joining header `a` with the next one, `gone`, written as one map: `a` becomes `length` long,
      its successor is `next`, whose back link is repaired. */
  function Join(cells: map<int, Header>, a: int, gone: int, next: int, length: int): map<int, Header>
    requires a in cells && (next != 0 ==> next in cells)
  {
    var m := cells[a := cells[a].(next := next, length := length)];
    (if next != 0 then m[next := cells[next].(prev := a)] else m) - {gone}
  }

  /** The assignments of `glue_chunk`'s first branch, one by one, are a join. */
  lemma JoinInSteps(m: map<int, Header>, a: int, gone: int, after: int, length: int)
    requires a in m && gone in m && a != gone
    requires after != 0 ==> after in m && after != a && after != gone
    ensures var m1 := m[a := m[a].(length := length)];
      var m2 := if after != 0 then m1[after := m1[after].(prev := a)] else m1;
      m2[a := m2[a].(next := after)] - {gone} == Join(m, a, gone, after, length)
  {
  }

  /** Those of the second branch likewise. */
  lemma JoinInOtherSteps(m: map<int, Header>, a: int, gone: int, after: int, length: int)
    requires a in m && gone in m && a != gone
    requires after != 0 ==> after in m && after != a && after != gone
    ensures var m1 := m[a := m[a].(length := length)];
      var m2 := m1[a := m1[a].(next := after)];
      (if after != 0 then m2[after := m2[after].(prev := a)] else m2) - {gone} == Join(m, a, gone, after, length)
  {
  }

  lemma GlueNextIsJoin(l: Links, cs: seq<Chunk>, i: nat)
    requires Tiled(cs) && Represents(l, cs) && i < |cs|
    ensures i + 1 == |cs| || cs[i + 1].used ==> GlueNext(l, cs[i].addr) == l
    ensures i + 1 < |cs| && !cs[i + 1].used ==>
              var next := AddrAt(cs, i + 2);
              && cs[i].addr in l.cells && (next != 0 ==> next in l.cells)
              && GlueNext(l, cs[i].addr) ==
                 l.(cells := Join(l.cells, cs[i].addr, cs[i + 1].addr, next, cs[i].len + cs[i + 1].len))
  {
    At(l, cs, i);
    if i + 1 < |cs| {
      At(l, cs, i + 1);
      if i + 2 < |cs| {
        At(l, cs, i + 2);
      }
    }
  }

  lemma GluePrevIsJoin(l: Links, cs: seq<Chunk>, i: nat)
    requires Tiled(cs) && Represents(l, cs) && i < |cs|
    ensures Glued(l, cs[i].addr) == cs[if MergesPrev(cs, i) then i - 1 else i].addr
    ensures !MergesPrev(cs, i) ==> GluePrev(l, cs[i].addr) == l
    ensures MergesPrev(cs, i) ==>
              var next := AddrAt(cs, i + 1);
              && cs[i - 1].addr in l.cells && (next != 0 ==> next in l.cells)
              && GluePrev(l, cs[i].addr) ==
                 l.(cells := Join(l.cells, cs[i - 1].addr, cs[i].addr, next, cs[i - 1].len + cs[i].len))
  {
    At(l, cs, i);
    if i > 0 {
      At(l, cs, i - 1);
      if i + 1 < |cs| {
        At(l, cs, i + 1);
      }
    }
  }

  lemma FirstIs(l: Links, cs: seq<Chunk>)
    requires Represents(l, cs)
    ensures l.first == AddrAt(cs, 0)
  {
  }

  /** A header placed behind the last chunk overlaps none of the list. */
  lemma EndIsApart(l: Links, cs: seq<Chunk>)
    requires Tiled(cs) && Represents(l, cs)
    ensures End(cs) !in l.cells
    ensures forall b :: b in l.cells ==> b + HEADER <= End(cs)
  {
    forall b | b in l.cells
      ensures b + HEADER <= End(cs)
    {
      var k :| 0 <= k < |cs| && cs[k].addr == b;
      ChunkBounds(cs, k);
    }
  }

  lemma ExtendHeads(cs: seq<Chunk>, len: int)
    requires MallocIndex(cs, len) == |cs|
    ensures End(cs) in Heads(Malloc(cs, len))
  {
    assert Malloc(cs, len)[|cs|].addr == End(cs);
  }

  lemma SplitHeads(cs: seq<Chunk>, i: nat, len: int)
    requires i == MallocIndex(cs, len) < |cs|
    ensures Splits(cs[i], len) ==> cs[i].addr + len in Heads(Malloc(cs, len))
  {
    if Splits(cs[i], len) {
      assert Malloc(cs, len)[i + 1].addr == cs[i].addr + len;
    }
  }

  /** A header placed inside chunk `i`, past that chunk's own, overlaps no header of the list. */
  lemma InsideIsApart(l: Links, cs: seq<Chunk>, i: nat, a: int)
    requires Tiled(cs) && Represents(l, cs) && i < |cs|
    requires cs[i].addr + HEADER <= a && a + HEADER <= cs[i].addr + cs[i].len
    ensures a !in l.cells
    ensures forall b :: b in l.cells ==> b + HEADER <= a || a + HEADER <= b
  {
    forall b | b in l.cells
      ensures b + HEADER <= a || a + HEADER <= b
    {
      var k :| 0 <= k < |cs| && cs[k].addr == b;
      if k < i {
        AddressesIncrease(cs, k, i);
      } else if k > i {
        AddressesIncrease(cs, i, k);
      }
    }
  }

  // ----- searching and appending

  /** The search loop finds the first fitting chunk, or stops at the last one. */
  lemma {:induction false} FindRefines(l: Links, cs: seq<Chunk>, i: nat, len: int, fuel: nat)
    requires Tiled(cs) && Represents(l, cs) && i <= |cs| && fuel > |cs| - i
    ensures var k := FitFrom(cs, i, len);
      Find(l, AddrAt(cs, i), AddrAt(cs, i - 1), len, fuel) ==
      if k < |cs| then (cs[k].addr, AddrAt(cs, k - 1)) else (0, AddrAt(cs, |cs| - 1))
    decreases |cs| - i
  {
    if i < |cs| {
      OwnAddress(cs, i);
      assert HasHeader(l, cs, i);
      if cs[i].used || cs[i].len < len {
        FindRefines(l, cs, i + 1, len, fuel - 1);
      }
    }
  }

  /** The list after a chunk of `len` bytes has been linked in behind the last one. */
  function Extended(l: Links, last: int, start: int, len: int): Links {
    var l1 := if last != 0 then l else l.(first := start);
    var l2 := SetCell(l1, start, Header(last, 0, true, len));
    if last != 0 then SetCell(l2, last, Cell(l2, last).(next := start)) else l2
  }

  lemma AppendRefines(l: Links, cs: seq<Chunk>, len: int)
    requires Tiled(cs) && Represents(l, cs) && HEADER <= len
    ensures Represents(Extended(l, AddrAt(cs, |cs| - 1), End(cs), len), Append(cs, len))
  {
    var n := |cs|;
    var r := Append(cs, len);
    var start := End(cs);
    var m := Extended(l, AddrAt(cs, n - 1), start, len);
    if n > 0 {
      OwnAddress(cs, n - 1);
      assert HasHeader(l, cs, n - 1);
    }
    forall k | 0 <= k < n
      ensures cs[k].addr != start
    {
      ChunkBounds(cs, k);
    }
    forall k | 0 <= k < n - 1
      ensures HasHeader(m, cs, k)
    {
      assert HasHeader(l, cs, k);
    }
    assert HasHeader(m, r, n);
    assert Among(r, n, n + 1, r[n].addr);
    Patch(l, cs, m, r, n, 0, 1);
  }

  /** Which branch `kmalloc` takes on a sound list, and what it leaves. */
  lemma KmallocCases(l: Links, cs: seq<Chunk>, len: int, repaired: bool, fuel: nat)
    requires Tiled(cs) && Represents(l, cs) && fuel > |cs|
    ensures var k := MallocIndex(cs, len);
      Kmalloc(l, len, repaired, fuel) ==
      if k < |cs| then (SetUsed(Split(l, cs[k].addr, len, repaired), cs[k].addr, true), cs[k].addr)
      else (Extended(l, AddrAt(cs, |cs| - 1), End(cs), len), End(cs))
  {
    FindRefines(l, cs, 0, len, fuel);
    var k := MallocIndex(cs, len);
    if k < |cs| {
      OwnAddress(cs, k);
    } else if cs != [] {
      OwnAddress(cs, |cs| - 1);
      assert HasHeader(l, cs, |cs| - 1);
    }
  }

  lemma SplitKeepsHead(l: Links, c: int, len: int, repaired: bool)
    requires c in l.cells
    ensures c in Split(l, c, len, repaired).cells
  {
  }

  /** With the back link repaired, `kmalloc` on the list is `Malloc` on the chunks. */
  lemma KmallocRefines(l: Links, cs: seq<Chunk>, len: int, fuel: nat)
    requires Ok(cs) && Represents(l, cs) && HEADER <= len && fuel > |cs|
    ensures var (m, a) := Kmalloc(l, len, true, fuel);
      && Represents(m, Malloc(cs, len))
      && MallocIndex(cs, len) < |Malloc(cs, len)| && a == Malloc(cs, len)[MallocIndex(cs, len)].addr
  {
    var k := FitFrom(cs, 0, len);
    FindRefines(l, cs, 0, len, fuel);
    if k < |cs| {
      OwnAddress(cs, k);
      SplitKeepsTiled(cs, k, len);
      SplitRefines(l, cs, k, len);
      MarkRefines(Split(l, cs[k].addr, len, true), SplitAt(cs, k, len), k, true);
    } else {
      if cs != [] {
        OwnAddress(cs, |cs| - 1);
        assert HasHeader(l, cs, |cs| - 1);
      }
      AppendRefines(l, cs, len);
    }
  }

  lemma SplitKeepsTiled(cs: seq<Chunk>, i: nat, len: int)
    requires Ok(cs) && i < |cs| && !cs[i].used && HEADER <= len <= cs[i].len
    ensures Tiled(SplitAt(cs, i, len)) && SplitAt(cs, i, len)[i].addr == cs[i].addr
  {
    TakeKeepsOk(cs, i, len);
    var s, r := SplitAt(cs, i, len), Take(cs, i, len);
    forall k | 0 <= k && k + 1 < |s|
      ensures Joined(s, k)
    {
      assert Joined(r, k);
    }
  }

  /** As written, `kmalloc` keeps the list in step with the chunks exactly when it does not split. */
  lemma KmallocAsWrittenIff(l: Links, cs: seq<Chunk>, len: int, fuel: nat)
    requires Ok(cs) && Represents(l, cs) && HEADER <= len && fuel > |cs|
    ensures var k := MallocIndex(cs, len);
      Represents(Kmalloc(l, len, false, fuel).0, Malloc(cs, len)) <==> k == |cs| || !Splits(cs[k], len)
  {
    var k := MallocIndex(cs, len);
    KmallocRefines(l, cs, len, fuel);
    FindRefines(l, cs, 0, len, fuel);
    if k < |cs| {
      OwnAddress(cs, k);
      assert HasHeader(l, cs, k);
      if Splits(cs[k], len) {
        StaleBackLink(l, cs, k, len);
      }
    }
  }

  /** The list stays in step if and only if the back link is repaired or nothing is split. */
  lemma KmallocSoundIff(l: Links, cs: seq<Chunk>, len: int, repaired: bool, fuel: nat)
    requires Ok(cs) && Represents(l, cs) && HEADER <= len && fuel > |cs|
    ensures var k := MallocIndex(cs, len);
      Represents(Kmalloc(l, len, repaired, fuel).0, Malloc(cs, len)) <==>
      repaired || k == |cs| || !Splits(cs[k], len)
  {
    hide Kmalloc, Represents, Malloc;
    if repaired {
      KmallocRefines(l, cs, len, fuel);
    } else {
      KmallocAsWrittenIff(l, cs, len, fuel);
    }
  }

  /** After an unrepaired split the successor's `prev` still names the front part. */
  lemma StaleBackLink(l: Links, cs: seq<Chunk>, k: nat, len: int)
    requires Ok(cs) && Represents(l, cs) && HEADER <= len
    requires k < |cs| && !cs[k].used && Splits(cs[k], len)
    ensures !Represents(SetUsed(Split(l, cs[k].addr, len, false), cs[k].addr, true), Take(cs, k, len))
  {
    var r := Take(cs, k, len);
    var m := SetUsed(Split(l, cs[k].addr, len, false), cs[k].addr, true);
    assert k + 1 < |cs|;
    SplitHeaders(l, cs, k, len, false);
    OwnAddress(cs, k);
    assert r[k + 2] == cs[k + 1];
    assert m.cells[cs[k + 1].addr].prev == cs[k].addr;
    assert HeaderOf(r, k + 2).prev == cs[k].addr + len;
    assert !HasHeader(m, r, k + 2);
  }

  /** A run of the code as written that hands out live memory: X = kmalloc(100), B = kmalloc(10),
      kfree(X), A = kmalloc(20) (splits X), N = kmalloc(68) (takes the rest), kfree(B) (follows the
      stale link to A and drops N from the list), kmalloc(50) (returns N, which is still live). */
  lemma AsWrittenReturnsLiveMemory()
    ensures var start := Links(0, map[]);
      var (l1, x) := Kmalloc(start, 112, false, 9);
      var (l2, b) := Kmalloc(l1, 22, false, 9);
      var (l4, a) := Kmalloc(Kfree(l2, x), 32, false, 9);
      var (l5, n) := Kmalloc(l4, 80, false, 9);
      var (l7, again) := Kmalloc(Kfree(l5, b), 62, false, 9);
      n != a && n != b && again == n
  {
    var H := HEAP_START;
    var (l1, x) := Kmalloc(Links(0, map[]), 112, false, 9);
    assert x == H && l1 == Links(H, map[H := Header(0, 0, true, 112)]);
    var (l2, b) := Kmalloc(l1, 22, false, 9);
    assert b == H + 112;
    assert l2 == Links(H, map[H := Header(0, b, true, 112), b := Header(H, 0, true, 22)]);
    var l3 := Kfree(l2, x);
    assert l3 == Links(H, map[H := Header(0, b, false, 112), b := Header(H, 0, true, 22)]);
    var (l4, a) := Kmalloc(l3, 32, false, 9);
    assert a == H;
    assert l4 == Links(H, map[H := Header(0, H + 32, true, 32), H + 32 := Header(H, b, false, 80),
                              b := Header(H, 0, true, 22)]);
    var (l5, n) := Kmalloc(l4, 80, false, 9);
    assert n == H + 32;
    assert l5 == Links(H, map[H := Header(0, H + 32, true, 32), H + 32 := Header(H, b, true, 80),
                              b := Header(H, 0, true, 22)]);
    var l6 := Kfree(l5, b);
    assert l6 == Links(H, map[H := Header(0, 0, true, 32), H + 32 := Header(H, b, true, 80)]);
    var (l7, again) := Kmalloc(l6, 62, false, 9);
    assert again == H + 32;
  }
}

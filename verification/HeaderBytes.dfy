/** Chunk headers as bytes: two link words, then the `allocated` bit and the 31-bit `length` packed
    into a third. */
module HeaderBytes {
  import opened Words
  import opened HeapSpec
  import opened HeapLinks

  const PREV := 0
  const NEXT := 4
  const PACKED := 8

  /** The header at address `a` of the heap whose bytes from HEAP_START up are `v`. */
  function ReadHeader(v: seq<Byte>, a: int): Header
    requires HEAP_START <= a && a - HEAP_START + HEADER <= |v|
  {
    var at := a - HEAP_START;
    var packed := Get32(v, at + PACKED);
    Header(Get32(v, at + PREV), Get32(v, at + NEXT), packed % 2 == 1, packed / 2)
  }

  /** Memory holds all the headers in `cells`. */
  ghost predicate Holds(v: seq<Byte>, cells: map<int, Header>) {
    forall a :: a in cells ==>
      HEAP_START <= a && a - HEAP_START + HEADER <= |v| && ReadHeader(v, a) == cells[a]
  }

  /** No two headers overlap. */
  ghost predicate Separate(cells: map<int, Header>) {
    forall a, b :: a in cells && b in cells && a < b ==> a + HEADER <= b
  }

  lemma ReadHeaderFrame(v: seq<Byte>, w: seq<Byte>, a: int)
    requires HEAP_START <= a && a - HEAP_START + HEADER <= |v| && a - HEAP_START + HEADER <= |w|
    requires forall i :: a - HEAP_START <= i < a - HEAP_START + HEADER ==> v[i] == w[i]
    ensures ReadHeader(v, a) == ReadHeader(w, a)
  {
    Get32Frame(v, w, a - HEAP_START + PREV);
    Get32Frame(v, w, a - HEAP_START + NEXT);
    Get32Frame(v, w, a - HEAP_START + PACKED);
  }

  /** A store into one field changes that field of that header: the links are the words at 0 and 4,
      the word at 8 has `allocated` in its lowest bit and `length` in the others. */
  lemma StoreField(v: seq<Byte>, a: int, off: int, w: Word)
    requires HEAP_START <= a && a - HEAP_START + HEADER <= |v|
    requires off == 0 || off == 4 || off == 8
    ensures var h := ReadHeader(v, a);
      ReadHeader(Put32(v, a - HEAP_START + off, w), a) ==
      if off == 0 then h.(prev := w)
      else if off == 4 then h.(next := w)
      else h.(used := w % 2 == 1, length := w / 2)
  {
    hide Get32, Put32;
    var at := a - HEAP_START;
    if off != PREV {
      Get32AfterPut32(v, at + off, w, at + PREV);
    }
    if off != NEXT {
      Get32AfterPut32(v, at + off, w, at + NEXT);
    }
    if off != PACKED {
      Get32AfterPut32(v, at + off, w, at + PACKED);
    }
  }

  lemma StoreKeepsOthers(v: seq<Byte>, cells: map<int, Header>, a: int, off: int, w: Word)
    requires Holds(v, cells) && Separate(cells) && a in cells
    requires off == PREV || off == NEXT || off == PACKED
    ensures a - HEAP_START + HEADER <= |v|
    ensures var r := Put32(v, a - HEAP_START + off, w);
      Holds(r, cells[a := ReadHeader(r, a)])
  {
    var r := Put32(v, a - HEAP_START + off, w);
    forall b | b in cells && b != a
      ensures ReadHeader(r, b) == cells[b]
    {
      ReadHeaderFrame(v, r, b);
    }
  }

  /** `i` lies in a header at one of the addresses in `hs`. */
  ghost predicate InHeader(hs: set<int>, i: int) {
    exists a :: a in hs && a <= i < a + HEADER
  }

  /** Where both exist, the two heaps differ only inside the headers `hs`. */
  ghost predicate OnlyHeaders(v: seq<Byte>, w: seq<Byte>, hs: set<int>) {
    forall i | 0 <= i < |v| && i < |w| :: !InHeader(hs, HEAP_START + i) ==> v[i] == w[i]
  }

  lemma MoreHeaders(v: seq<Byte>, w: seq<Byte>, hs: set<int>, more: set<int>)
    requires OnlyHeaders(v, w, hs) && hs <= more
    ensures OnlyHeaders(v, w, more)
  {
    forall i | InHeader(hs, i)
      ensures InHeader(more, i)
    {
    }
  }

  lemma StoreInHeader(v: seq<Byte>, w: seq<Byte>, hs: set<int>, a: int, off: int, x: Word)
    requires OnlyHeaders(v, w, hs) && a in hs
    requires HEAP_START <= a && a - HEAP_START + HEADER <= |w|
    requires off == PREV || off == NEXT || off == PACKED
    ensures OnlyHeaders(v, Put32(w, a - HEAP_START + off, x), hs)
  {
    var r := Put32(w, a - HEAP_START + off, x);
    forall i | 0 <= i < |v| && i < |r| && !InHeader(hs, HEAP_START + i)
      ensures v[i] == r[i]
    {
      assert !(a <= HEAP_START + i < a + HEADER);
    }
  }

  /** Headers and the record of what was written survive cutting the heap off behind them. */
  lemma CutKeepsHeaders(before: seq<Byte>, v: seq<Byte>, hs: set<int>, cells: map<int, Header>, n: nat)
    requires Holds(v, cells) && OnlyHeaders(before, v, hs) && n <= |v|
    requires forall a :: a in cells ==> a - HEAP_START + HEADER <= n
    ensures Holds(v[..n], cells) && OnlyHeaders(before, v[..n], hs)
  {
    forall a | a in cells
      ensures ReadHeader(v[..n], a) == cells[a]
    {
      ReadHeaderFrame(v, v[..n], a);
    }
  }

  /** Headers survive growing the heap. */
  lemma GrowKeepsHeaders(before: seq<Byte>, v: seq<Byte>, w: seq<Byte>, hs: set<int>, cells: map<int, Header>)
    requires Holds(v, cells) && OnlyHeaders(before, v, hs) && |before| <= |v| <= |w| && w[..|v|] == v
    ensures Holds(w, cells) && OnlyHeaders(before, w, hs)
  {
    forall i | 0 <= i < |v|
      ensures v[i] == w[i]
    {
      assert w[..|v|][i] == w[i];
    }
    forall a | a in cells
      ensures ReadHeader(w, a) == cells[a]
    {
      ReadHeaderFrame(v, w, a);
    }
  }

  // ----- payloads

  /** `i` is a payload address of a chunk in use in both chunk sequences. */
  ghost predicate LivePayload(cs: seq<Chunk>, r: seq<Chunk>, i: int) {
    exists c :: c in Live(cs) && c in Live(r) && c.addr + HEADER <= i < c.addr + c.len
  }

  /** Every byte of every payload that stays live is the same in `v` and `w`, and still there. */
  ghost predicate PayloadsKept(v: seq<Byte>, w: seq<Byte>, cs: seq<Chunk>, r: seq<Chunk>) {
    forall i :: LivePayload(cs, r, i) ==>
      && 0 <= i - HEAP_START < |v| && i - HEAP_START < |w|
      && v[i - HEAP_START] == w[i - HEAP_START]
  }

  lemma PayloadIsNoHeader(cs: seq<Chunk>, c: Chunk, i: int)
    requires Tiled(cs) && c in cs && c.addr + HEADER <= i < c.addr + c.len
    ensures !InHeader(Heads(cs), i)
  {
    var k :| 0 <= k < |cs| && cs[k] == c;
    forall a | a in Heads(cs)
      ensures !(a <= i < a + HEADER)
    {
      var j :| 0 <= j < |cs| && cs[j].addr == a;
      if j < k {
        AddressesIncrease(cs, j, k);
      } else if k < j {
        AddressesIncrease(cs, k, j);
      }
    }
  }

  /** Writing only headers, of the chunks before or after, keeps every live payload. */
  lemma HeadersMissPayloads(v: seq<Byte>, w: seq<Byte>, cs: seq<Chunk>, r: seq<Chunk>)
    requires Tiled(cs) && Tiled(r)
    requires End(cs) - HEAP_START <= |v| && End(r) - HEAP_START <= |w|
    requires OnlyHeaders(v, w, Heads(cs) + Heads(r))
    ensures PayloadsKept(v, w, cs, r)
  {
    forall i | LivePayload(cs, r, i)
      ensures 0 <= i - HEAP_START < |v| && i - HEAP_START < |w| && v[i - HEAP_START] == w[i - HEAP_START]
    {
      var c :| c in Live(cs) && c in Live(r) && c.addr + HEADER <= i < c.addr + c.len;
      PayloadIsNoHeader(cs, c, i);
      PayloadIsNoHeader(r, c, i);
      var j :| 0 <= j < |cs| && cs[j] == c;
      ChunkBounds(cs, j);
      var k :| 0 <= k < |r| && r[k] == c;
      ChunkBounds(r, k);
      assert !InHeader(Heads(cs) + Heads(r), HEAP_START + (i - HEAP_START));
    }
  }

  lemma PayloadByte(cs: seq<Chunk>, i: int)
    requires Tiled(cs) && LivePayload(cs, cs, i)
    ensures HEAP_START <= i < End(cs) && !InHeader(Heads(cs), i)
  {
    var c :| c in Live(cs) && c.addr + HEADER <= i < c.addr + c.len;
    PayloadIsNoHeader(cs, c, i);
    var k :| 0 <= k < |cs| && cs[k] == c;
    ChunkBounds(cs, k);
  }

  lemma StoreKeepsHeaders(v: seq<Byte>, cells: map<int, Header>, va: int, b: Byte)
    requires Holds(v, cells) && !InHeader(cells.Keys, va)
    requires 0 <= va - HEAP_START < |v|
    ensures Holds(v[va - HEAP_START := b], cells)
  {
    forall a | a in cells
      ensures ReadHeader(v[va - HEAP_START := b], a) == cells[a]
    {
      ReadHeaderFrame(v, v[va - HEAP_START := b], a);
    }
  }
}

/** Whole states of the kernel heap (chunks and frame ownership) and all runs of `kmalloc` and
    `kfree` over them. */
module HeapRuns {
  import opened Words
  import opened FramePool
  import opened HeapSpec

  /** More frames than this are never pushed: PAGE_MAX_SIZE, 512 MB of 4 KB pages. */
  const MAX_FRAMES := 0x2_0000

  const WORDS := 0x1_0000_0000     // 2^32
  const LENGTHS := 0x8000_0000     // 2^31, for the length field

  datatype State = State(chunks: seq<Chunk>, pool: Pool)

  function HeapMax(s: State): int {
    HEAP_START + 4096 * |s.pool.pages|
  }

  /** Pages needed to cover [HEAP_START, end). */
  function PagesFor(end: int): (n: nat)
    ensures HEAP_START + 4096 * n >= end
    ensures n > 0 ==> HEAP_START + 4096 * (n - 1) < end
  {
    if end <= HEAP_START then 0 else (end - HEAP_START + 4095) / 4096
  }

  /** Well-formed chunks, one owner per frame, and not a page more than the chunks need. */
  ghost predicate Inv(s: State, all: set<Word>) {
    && Ok(s.chunks)
    && Conserved(s.pool, all)
    && |all| < MAX_FRAMES
    && HEAP_START <= End(s.chunks)
    && |s.pool.pages| == PagesFor(End(s.chunks))
  }

  lemma EndAtLeastStart(cs: seq<Chunk>)
    requires Tiled(cs)
    ensures HEAP_START <= End(cs)
  {
    if cs != [] {
      ChunkBounds(cs, |cs| - 1);
    }
  }

  /** `kmalloc(n)`: none when the frames run out, which panics. */
  function Kmalloc(s: State, n: nat): Option<State> {
    var cs := Malloc(s.chunks, n + HEADER);
    match GrowTo(s.pool, PagesFor(End(cs)))
    case None => None
    case Some(pool) => Some(State(cs, pool))
  }

  /** The pointer `kmalloc(n)` returns. */
  function MallocPtr(cs: seq<Chunk>, n: nat): int {
    var i := MallocIndex(cs, n + HEADER);
    (if i < |cs| then cs[i].addr else End(cs)) + HEADER
  }

  /** The 32-bit sums of `kmalloc` do not wrap and the length fits its 31-bit field. */
  predicate NoWrap(cs: seq<Chunk>, n: nat) {
    && n + 12 < 0x8000_0000
    && (MallocIndex(cs, n + 12) < |cs| || End(cs) + n + 12 < 0x1_0000_0000)
  }

  /** `kmalloc(n)` cuts a tail off the chunk it finds. */
  predicate Cuts(cs: seq<Chunk>, n: nat) {
    var k := MallocIndex(cs, n + HEADER);
    k < |cs| && Splits(cs[k], n + HEADER)
  }

  /** Index of the chunk whose payload starts at `p`, |cs| if there is none. */
  function IndexOf(cs: seq<Chunk>, p: int): (i: nat)
    ensures i <= |cs|
    ensures i < |cs| ==> cs[i].addr + HEADER == p
    ensures forall j :: 0 <= j < i ==> cs[j].addr + HEADER != p
  {
    if cs == [] then 0 else if cs[0].addr + HEADER == p then 0 else 1 + IndexOf(cs[1..], p)
  }

  predicate IsLive(cs: seq<Chunk>, p: int) {
    var i := IndexOf(cs, p);
    i < |cs| && cs[i].used
  }

  function Kfree(s: State, p: int): State
    requires IsLive(s.chunks, p)
  {
    var cs := Free(s.chunks, IndexOf(s.chunks, p));
    State(cs, ShrinkTo(s.pool, PagesFor(End(cs))))
  }

  /** The answer of `kmalloc(n)`: 12 bytes into the first free chunk of at least n + 12 bytes, or into
      a new chunk at the heap's end; the chunk there is in use and its payload holds at least n
      bytes and at most n + 12. */
  lemma PayloadSize(cs: seq<Chunk>, n: nat)
    requires Ok(cs)
    ensures var k := MallocIndex(cs, n + 12);
      var r := Malloc(cs, n + 12);
      && (forall j :: 0 <= j < k ==> cs[j].used || cs[j].len < n + 12)
      && (k < |cs| ==> !cs[k].used && cs[k].len >= n + 12)
      && k < |r| && r[k].used && n <= r[k].len - 12 <= n + 12
      && r[k].addr == (if k < |cs| then cs[k].addr else if cs == [] then 0xE000_0000 else Last(cs).addr + Last(cs).len)
      && MallocPtr(cs, n) == r[k].addr + 12
  {
    MallocGrants(cs, n + 12);
  }

  // ----- every call keeps the invariant

  lemma MallocEnd(cs: seq<Chunk>, len: int)
    requires Ok(cs) && HEADER <= len
    ensures Ok(Malloc(cs, len))
    ensures HEAP_START <= End(cs) <= End(Malloc(cs, len))
    ensures MallocIndex(cs, len) < |cs| ==> End(Malloc(cs, len)) == End(cs)
    ensures MallocIndex(cs, len) == |cs| ==> End(Malloc(cs, len)) == End(cs) + len
  {
    var i := MallocIndex(cs, len);
    EndAtLeastStart(cs);
    if i < |cs| {
      TakeKeepsOk(cs, i, len);
    } else {
      AppendKeepsOk(cs, len);
    }
  }

  lemma PagesForMonotone(e: int, f: int)
    requires HEAP_START <= e <= f
    ensures PagesFor(e) <= PagesFor(f)
  {
  }

  lemma KmallocKeepsInv(s: State, n: nat, all: set<Word>)
    requires Inv(s, all)
    ensures HEAP_START <= End(Malloc(s.chunks, n + HEADER))
    ensures Kmalloc(s, n).Some? ==> Inv(Kmalloc(s, n).value, all)
  {
    var cs := Malloc(s.chunks, n + HEADER);
    MallocEnd(s.chunks, n + HEADER);
    PagesForMonotone(End(s.chunks), End(cs));
    if GrowTo(s.pool, PagesFor(End(cs))).Some? {
      GrowToConserves(s.pool, PagesFor(End(cs)), all);
    }
  }

  lemma KfreeKeepsInv(s: State, p: int, all: set<Word>)
    requires Inv(s, all) && IsLive(s.chunks, p)
    ensures Inv(Kfree(s, p), all)
  {
    var i := IndexOf(s.chunks, p);
    var cs := Free(s.chunks, i);
    FreeKeepsOk(s.chunks, i);
    EndAtLeastStart(cs);
    PagesForMonotone(End(cs), End(s.chunks));
    ShrinkToConserves(s.pool, PagesFor(End(cs)), all);
  }

  /** In every reachable state the heap ends below 2^32 with a page to spare, a page can still be
      pushed onto the frame stack whenever one is mapped, and the last heap page is needed. */
  lemma RoomEverywhere(s: State, all: set<Word>)
    requires Inv(s, all)
    ensures HeapMax(s) <= 0x1_0000_0000 - 4096
    ensures s.pool.pages != [] ==> |s.pool.free| < MAX_FRAMES
    ensures End(s.chunks) <= HeapMax(s) < End(s.chunks) + 4096
  {
    OneOwnerPerFrame(s.pool, all);
  }

  /** `kfree` of the pointer just returned by `kmalloc`: the chunks, the heap limit and the mapped
      pages are as before, and the frame stack too, in its old order, except for the frames that
      have become page tables. */
  lemma KfreeUndoesKmalloc(s: State, n: nat, all: set<Word>)
    requires Inv(s, all) && Kmalloc(s, n).Some?
    ensures var t := Kmalloc(s, n).value;
      && Ok(t.chunks) && IsLive(t.chunks, MallocPtr(s.chunks, n))
      && s.pool.tables <= t.pool.tables
      && var u := Kfree(t, MallocPtr(s.chunks, n));
      && u.chunks == s.chunks && HeapMax(u) == HeapMax(s)
      && u.pool.pages == s.pool.pages
      && u.pool.tables == t.pool.tables
      && u.pool.free == Without(s.pool.free, t.pool.tables[|s.pool.tables|..])
  {
    hide Ok, Malloc, Free, GrowTo, ShrinkTo, Conserved;
    var len := n + HEADER;
    var t := Kmalloc(s, n).value;
    var p := MallocPtr(s.chunks, n);
    MallocEnd(s.chunks, len);
    MallocLive(s.chunks, len);
    var k := MallocIndex(s.chunks, len);
    MallocAddress(s.chunks, n);
    OkIsTiled(t.chunks);
    IndexIsUnique(t.chunks, k);
    FreeUndoesMalloc(s.chunks, len);
    GrowThenShrink(s.pool, PagesFor(End(t.chunks)), all);
  }

  lemma IndexIsUnique(cs: seq<Chunk>, k: nat)
    requires Tiled(cs) && k < |cs|
    ensures IndexOf(cs, cs[k].addr + HEADER) == k
  {
    var i := IndexOf(cs, cs[k].addr + HEADER);
    if i < k {
      AddressesIncrease(cs, i, k);
    }
  }

  // ----- `kmalloc` with the sums the code computes

  /** A request that is granted has not wrapped: `NoWrap` excludes only requests the heap could not
      have met. */
  lemma GrantedDoesNotWrap(s: State, n: nat, all: set<Word>)
    requires Inv(s, all) && Kmalloc(s, n).Some?
    ensures NoWrap(s.chunks, n)
  {
    var t := Kmalloc(s, n).value;
    MallocEnd(s.chunks, n + HEADER);
    KmallocKeepsInv(s, n, all);
    RoomEverywhere(s, all);
    RoomEverywhere(t, all);
    var k := MallocIndex(s.chunks, n + HEADER);
    if k < |s.chunks| {
      ChunkBounds(s.chunks, k);
    }
  }

  /** What a call of the code comes to: it panics; it stores to an unmapped address; it puts a new
      header onto another one; or it returns a pointer. */
  datatype Answer = Panics | Faults | Overlaps(p: int) | Returns(p: int, s: State)

  /** `kmalloc(n)` with 32-bit sums and a 31-bit length field. */
  function CodeKmalloc(s: State, n: Word): Answer {
    var len := (n + HEADER) % WORDS;
    var k := MallocIndex(s.chunks, len);
    var start := End(s.chunks);
    if k < |s.chunks| then
      if len < HEADER && Splits(s.chunks[k], len) then Overlaps(s.chunks[k].addr + HEADER)
      else Returns(s.chunks[k].addr + HEADER, State(Take(s.chunks, k, len), s.pool))
    else match GrowTo(s.pool, PagesFor((start + len) % WORDS))
      case None => Panics
      case Some(pool) =>
        if start + HEADER > HEAP_START + 4096 * |pool.pages| then Faults
        else Returns(start + HEADER, State(s.chunks + [Chunk(start, len % LENGTHS, true)], pool))
  }

  /** What the specification says of the same call. */
  function Specified(s: State, n: nat): Answer {
    match Kmalloc(s, n)
    case None => Panics
    case Some(t) => Returns(MallocPtr(s.chunks, n), t)
  }

  /** `len += sizeof(header_t)` wraps, the small rest fits no free chunk, and the frames it would take
      to append it are not there. */
  predicate WrapsIntoPanic(s: State, n: Word) {
    && n + HEADER >= WORDS
    && MallocIndex(s.chunks, n + HEADER - WORDS) == |s.chunks|
    && FramesNeeded(s.pool, PagesFor(End(s.chunks) + n + HEADER - WORDS)) > |s.pool.free|
  }

  /** The code does what is specified for a request exactly when its sums do not wrap, or they wrap
      and it panics all the same. */
  lemma CodeAgreesIff(s: State, n: Word, all: set<Word>)
    requires Inv(s, all)
    ensures CodeKmalloc(s, n) == Specified(s, n) <==> NoWrap(s.chunks, n) || WrapsIntoPanic(s, n)
  {
    if NoWrap(s.chunks, n) {
      CodeAgrees(s, n, all);
    } else {
      assert Kmalloc(s, n).None? by {
        if Kmalloc(s, n).Some? {
          GrantedDoesNotWrap(s, n, all);
        }
      }
      WrappedPanicsIff(s, n, all);
    }
  }

  /** A chunk that the code appends: `len += 12` may have wrapped once, and the length loses its top bit
      in the 31-bit field. */
  lemma AppendedLength(s: State, n: Word)
    requires var len := if n + 12 < 0x1_0000_0000 then n + 12 else n + 12 - 0x1_0000_0000;
             MallocIndex(s.chunks, len) == |s.chunks| && CodeKmalloc(s, n).Returns?
    ensures var len := if n + 12 < 0x1_0000_0000 then n + 12 else n + 12 - 0x1_0000_0000;
      var kept := if len < 0x8000_0000 then len else len - 0x8000_0000;
      && CodeKmalloc(s, n).p == End(s.chunks) + 12
      && CodeKmalloc(s, n).s.chunks == s.chunks + [Chunk(End(s.chunks), kept, true)]
  {
    hide GrowTo, FitFrom, Take;
  }

  lemma CodeAgrees(s: State, n: Word, all: set<Word>)
    requires Inv(s, all) && NoWrap(s.chunks, n)
    ensures CodeKmalloc(s, n) == Specified(s, n)
  {
    hide Conserved, Ok, Take, FitFrom;
    var len := n + HEADER;
    assert len % WORDS == len && len % LENGTHS == len;
    MallocEnd(s.chunks, len);
    if MallocIndex(s.chunks, len) == |s.chunks| {
      GrownIfSo(s.pool, PagesFor(End(s.chunks) + len));
    }
  }

  lemma CodePanicsIff(s: State, n: Word)
    ensures var len := (n + HEADER) % WORDS;
      CodeKmalloc(s, n) == Panics <==>
        MallocIndex(s.chunks, len) == |s.chunks| && GrowTo(s.pool, PagesFor((End(s.chunks) + len) % WORDS)).None?
  {
    hide GrowTo, FitFrom, Take;
  }

  /** A sum that wraps below the heap's end asks for no page at all. */
  lemma NoPageNeeded(s: State, sum: int, all: set<Word>)
    requires Inv(s, all) && sum < End(s.chunks)
    ensures GrowTo(s.pool, PagesFor(sum)) == Some(s.pool)
  {
  }

  lemma WrappedPanicsIff(s: State, n: Word, all: set<Word>)
    requires Inv(s, all) && !NoWrap(s.chunks, n)
    ensures CodeKmalloc(s, n) == Panics <==> WrapsIntoPanic(s, n)
  {
    hide Tiled, CodeKmalloc, FitFrom, FramesNeeded, GrowTo, PagesFor;
    var end, len := End(s.chunks), (n + HEADER) % WORDS;
    RoomEverywhere(s, all);
    CodePanicsIff(s, n);
    if n + HEADER >= WORDS {
      assert len == n + HEADER - WORDS && (end + len) % WORDS == end + len;
      GrowSucceedsIff(s.pool, PagesFor(end + len));
    } else if MallocIndex(s.chunks, len) == |s.chunks| {
      assert (end + len) % WORDS == end + len - WORDS;
      NoPageNeeded(s, end + len - WORDS, all);
    }
  }

  /** A pointer returned for a request that wraps does not have that many bytes behind it. */
  lemma WrappedRequestLeavesHeap(s: State, n: Word, all: set<Word>)
    requires Inv(s, all) && !NoWrap(s.chunks, n) && CodeKmalloc(s, n).Returns?
    ensures CodeKmalloc(s, n).p + n > HeapMax(CodeKmalloc(s, n).s)
  {
    hide Take, FitFrom;
    RoomEverywhere(s, all);
    var len := (n + HEADER) % WORDS;
    var k := MallocIndex(s.chunks, len);
    if k < |s.chunks| {
      ChunkBounds(s.chunks, k);
    } else {
      var t := CodeKmalloc(s, n).s;
      WrappedPool(s, n, all);
    }
  }

  lemma WrappedPool(s: State, n: Word, all: set<Word>)
    requires Inv(s, all) && GrowTo(s.pool, PagesFor((End(s.chunks) + (n + HEADER) % WORDS) % WORDS)).Some?
    ensures |GrowTo(s.pool, PagesFor((End(s.chunks) + (n + HEADER) % WORDS) % WORDS)).value.pages| < MAX_FRAMES
  {
    var pages := PagesFor((End(s.chunks) + (n + HEADER) % WORDS) % WORDS);
    GrowToConserves(s.pool, pages, all);
    OneOwnerPerFrame(GrowTo(s.pool, pages).value, all);
  }

  /** From boot, `kmalloc(0xFFFFFFFF)` returns a chunk of 11 bytes for 4 GB, and the next `kmalloc`
      puts its header inside the first one. */
  lemma WrappedRequestCorruptsHeap(frames: seq<Word>)
    requires |frames| >= 2
    ensures var first := CodeKmalloc(Boot(frames).heap, 0xFFFF_FFFF);
      && first.Returns? && first.p == HEAP_START + HEADER
      && first.s.chunks == [Chunk(HEAP_START, 11, true)]
      && var second := CodeKmalloc(first.s, 1);
         && second.Returns? && second.s.chunks == [Chunk(HEAP_START, 11, true), Chunk(HEAP_START + 11, 13, true)]
         && HEAP_START + 11 < HEAP_START + HEADER
  {
    var first := CodeKmalloc(Boot(frames).heap, 0xFFFF_FFFF);
    assert PagesFor(HEAP_START + 11) == 1;
    OnePage(frames);
    assert PagesFor(HEAP_START + 24) == 1;
  }

  lemma OnePage(frames: seq<Word>)
    requires |frames| >= 2
    ensures var r := GrowTo(Pool(frames, [], []), 1); r.Some? && |r.value.pages| == 1
  {
    GrowSucceedsIff(Pool(frames, [], []), 1);
    GrownIfSo(Pool(frames, [], []), 1);
  }

  // ----- runs

  datatype Call = Alloc(n: Word) | Release(p: int)

  /** The heap and, for every pointer handed out and not yet released, the size asked for. */
  datatype World = World(heap: State, asked: map<int, nat>)

  /** The state after `init_pmm` pushed `frames` and `init_heap` ran. */
  function Boot(frames: seq<Word>): World {
    World(State([], Pool(frames, [], [])), map[])
  }

  ghost predicate Holds(live: set<Chunk>, p: int) {
    exists c :: c in live && c.addr + HEADER == p
  }

  /** Every live chunk belongs to one pointer in `asked`, is large enough for it, and that is all
      the pointers there are. */
  ghost predicate Tracks(live: set<Chunk>, asked: map<int, nat>) {
    && (forall p :: p in asked ==> Holds(live, p))
    && (forall c :: c in live ==> c.addr + HEADER in asked && HEADER + asked[c.addr + HEADER] <= c.len)
  }

  lemma HolderOf(live: set<Chunk>, asked: map<int, nat>, p: int) returns (c: Chunk)
    requires Tracks(live, asked) && p in asked
    ensures c in live && c.addr + HEADER == p && HEADER + asked[p] <= c.len
  {
    assert Holds(live, p);
    c :| c in live && c.addr + HEADER == p;
  }

  lemma HeldBy(live: set<Chunk>, asked: map<int, nat>, c: Chunk)
    requires Tracks(live, asked) && c in live
    ensures c.addr + HEADER in asked && HEADER + asked[c.addr + HEADER] <= c.len
  {
  }

  ghost predicate WorldOk(w: World, all: set<Word>) {
    Inv(w.heap, all) && Tracks(Live(w.heap.chunks), w.asked)
  }

  /** Callers ask for nothing that wraps, and only release what they were given and still hold. */
  predicate Legal(w: World, c: Call) {
    match c
    case Alloc(n) => NoWrap(w.heap.chunks, n)
    case Release(p) => p in w.asked
  }

  /** A call halts when the frames run out; it goes wild when it stores where it must not, or releases
      what is no chunk in use. */
  datatype Outcome = Halts | GoesWild | Next(w: World)

  function Step(w: World, c: Call): Outcome {
    match c
    case Alloc(n) =>
      (match CodeKmalloc(w.heap, n)
       case Panics => Halts
       case Faults => GoesWild
       case Overlaps(_) => GoesWild
       case Returns(p, h) => Next(World(h, w.asked[p := n])))
    case Release(p) =>
      if IsLive(w.heap.chunks, p) then Next(World(Kfree(w.heap, p), w.asked - {p})) else GoesWild
  }

  lemma LiveIsLive(cs: seq<Chunk>, c: Chunk)
    requires Tiled(cs) && c in cs && c.used
    ensures IsLive(cs, c.addr + HEADER) && cs[IndexOf(cs, c.addr + HEADER)] == c
  {
    var k :| 0 <= k < |cs| && cs[k] == c;
    IndexIsUnique(cs, k);
  }

  lemma OneChunkPerAddress(cs: seq<Chunk>, c: Chunk, d: Chunk)
    requires Tiled(cs) && c in Live(cs) && d in Live(cs) && c.addr == d.addr
    ensures c == d
  {
    LiveIsLive(cs, c);
    LiveIsLive(cs, d);
  }

  lemma MallocTracks(cs: seq<Chunk>, n: nat, asked: map<int, nat>, p: int)
    requires Ok(cs) && Tracks(Live(cs), asked)
    requires p == MallocPtr(cs, n)
    ensures p !in asked
    ensures Ok(Malloc(cs, n + HEADER)) && Tracks(Live(Malloc(cs, n + HEADER)), asked[p := n])
  {
    hide Malloc, Ok, Live, Tiled, Tracks;
    var r := Malloc(cs, n + HEADER);
    MallocLive(cs, n + HEADER);
    MallocEnd(cs, n + HEADER);
    var d := r[MallocIndex(cs, n + HEADER)];
    MallocAddress(cs, n);
    OkIsTiled(r);
    LiveAreChunks(cs);
    forall c | c in Live(cs)
      ensures c.addr != d.addr
    {
      if c.addr == d.addr {
        OneChunkPerAddress(r, c, d);
      }
    }
    TrackOneMore(Live(cs), d, asked, n);
  }

  lemma TrackOneMore(live: set<Chunk>, d: Chunk, asked: map<int, nat>, n: nat)
    requires Tracks(live, asked) && n + HEADER <= d.len
    requires forall c :: c in live ==> c.addr != d.addr
    ensures d.addr + HEADER !in asked
    ensures Tracks(live + {d}, asked[d.addr + HEADER := n])
  {
    hide Tracks;
    var more, now := live + {d}, asked[d.addr + HEADER := n];
    if d.addr + HEADER in asked {
      var c := HolderOf(live, asked, d.addr + HEADER);
    }
    forall q | q in now
      ensures Holds(more, q)
    {
      if q in asked {
        var c := HolderOf(live, asked, q);
        assert c in more;
      } else {
        assert d in more;
      }
    }
    forall c | c in more
      ensures c.addr + HEADER in now && HEADER + now[c.addr + HEADER] <= c.len
    {
      if c in live {
        HeldBy(live, asked, c);
      }
    }
    TracksIntro(more, now);
  }

  lemma LiveAreChunks(cs: seq<Chunk>)
    ensures forall c :: c in Live(cs) ==> c in cs
  {
  }

  lemma MallocAddress(cs: seq<Chunk>, n: nat)
    ensures var k := MallocIndex(cs, n + HEADER);
      && k < |Malloc(cs, n + HEADER)|
      && Malloc(cs, n + HEADER)[k].addr + HEADER == MallocPtr(cs, n)
  {
  }

  lemma FreeTracks(cs: seq<Chunk>, p: int, asked: map<int, nat>)
    requires Ok(cs) && Tracks(Live(cs), asked) && IsLive(cs, p)
    ensures Tracks(Live(Free(cs, IndexOf(cs, p))), asked - {p})
  {
    hide Free, Ok, Live, Tiled, Tracks;
    OkIsTiled(cs);
    var i := IndexOf(cs, p);
    FreeLive(cs, i);
    IndexIsLive(cs, i);
    forall c | c in Live(cs) && c != cs[i]
      ensures c.addr != cs[i].addr
    {
      if c.addr == cs[i].addr {
        OneChunkPerAddress(cs, c, cs[i]);
      }
    }
    UntrackOne(Live(cs), cs[i], asked);
  }

  lemma UntrackOne(live: set<Chunk>, d: Chunk, asked: map<int, nat>)
    requires Tracks(live, asked) && d in live
    requires forall c :: c in live && c != d ==> c.addr != d.addr
    ensures Tracks(live - {d}, asked - {d.addr + HEADER})
  {
    hide Tracks;
    var rest, left := live - {d}, asked - {d.addr + HEADER};
    forall q | q in left
      ensures Holds(rest, q)
    {
      var c := HolderOf(live, asked, q);
      assert c in rest;
    }
    forall c | c in rest
      ensures c.addr + HEADER in left && HEADER + left[c.addr + HEADER] <= c.len
    {
      HeldBy(live, asked, c);
    }
    TracksIntro(rest, left);
  }

  lemma TracksIntro(live: set<Chunk>, asked: map<int, nat>)
    requires forall p :: p in asked ==> Holds(live, p)
    requires forall c :: c in live ==> c.addr + HEADER in asked && HEADER + asked[c.addr + HEADER] <= c.len
    ensures Tracks(live, asked)
  {
  }

  lemma IndexIsLive(cs: seq<Chunk>, i: nat)
    requires i < |cs| && cs[i].used
    ensures cs[i] in Live(cs)
  {
  }

  lemma StepKeepsWorldOk(w: World, c: Call, all: set<Word>)
    requires WorldOk(w, all) && Legal(w, c)
    ensures !Step(w, c).GoesWild?
    ensures Step(w, c).Next? ==> WorldOk(Step(w, c).w, all)
    ensures c.Alloc? ==> MallocPtr(w.heap.chunks, c.n) !in w.asked
  {
    hide Ok, Tracks, Malloc, Free, Conserved, CodeKmalloc;
    match c {
      case Alloc(n) =>
        CodeAgrees(w.heap, n, all);
        KmallocKeepsInv(w.heap, n, all);
        MallocTracks(w.heap.chunks, n, w.asked, MallocPtr(w.heap.chunks, n));
      case Release(p) =>
        OkIsTiled(w.heap.chunks);
        TrackedIsLive(w, p);
        KfreeKeepsInv(w.heap, p, all);
        FreeTracks(w.heap.chunks, p, w.asked);
    }
  }

  lemma TrackedIsLive(w: World, p: int)
    requires Tiled(w.heap.chunks) && Tracks(Live(w.heap.chunks), w.asked) && p in w.asked
    ensures IsLive(w.heap.chunks, p)
  {
    var c :| c in Live(w.heap.chunks) && c.addr + HEADER == p;
    LiveIsLive(w.heap.chunks, c);
  }

  /** `after` is reached from `before` by the calls, each of them one a caller may make. */
  ghost predicate Reaches(before: World, calls: seq<Call>, after: World)
    decreases |calls|
  {
    if calls == [] then before == after
    else
      && Legal(before, calls[0]) && Step(before, calls[0]).Next?
      && Reaches(Step(before, calls[0]).w, calls[1..], after)
  }

  lemma {:induction false} RunKeepsWorldOk(before: World, calls: seq<Call>, after: World, all: set<Word>)
    requires WorldOk(before, all) && Reaches(before, calls, after)
    ensures WorldOk(after, all)
    decreases |calls|
  {
    hide WorldOk, Step, Legal;
    if calls != [] {
      StepKeepsWorldOk(before, calls[0], all);
      RunKeepsWorldOk(Step(before, calls[0]).w, calls[1..], after, all);
    }
  }

  lemma BootIsOk(frames: seq<Word>, all: set<Word>)
    requires Distinct(frames) && |frames| < MAX_FRAMES
    requires forall f :: f in all <==> f in frames
    ensures WorldOk(Boot(frames), all)
  {
    DistinctIsSet(frames, all);
    assert |multiset(frames)| == |multiset(all)|;
  }

  lemma {:induction false} DistinctIsSet(s: seq<Word>, all: set<Word>)
    requires Distinct(s)
    requires forall f :: f in all <==> f in s
    ensures multiset(s) == multiset(all)
  {
    if s != [] {
      assert s == Front(s) + [Last(s)];
      DistinctIsSet(Front(s), all - {Last(s)});
    }
  }

  /** Two payloads [p, p + m) and [q, q + n) are apart, with a header's room between them. */
  predicate Apart(p: int, m: int, q: int, n: int) {
    p + m + HEADER <= q || q + n + HEADER <= p
  }

  /** In every run of the code from boot, whatever the legal calls: all live payloads have the size asked for, lie
      inside the mapped heap, and are pairwise disjoint; every frame has exactly one owner; and every
      pointer still held can be released. */
  lemma PayloadsAreSafe(frames: seq<Word>, calls: seq<Call>, w: World, all: set<Word>)
    requires Distinct(frames) && |frames| < MAX_FRAMES
    requires forall f :: f in all <==> f in frames
    requires Reaches(Boot(frames), calls, w)
    ensures Inv(w.heap, all)
    ensures forall p :: p in w.asked ==> HEAP_START + HEADER <= p && p + w.asked[p] <= HeapMax(w.heap)
    ensures forall p, q :: p in w.asked && q in w.asked && p != q ==> Apart(p, w.asked[p], q, w.asked[q])
    ensures forall c :: Legal(w, c) ==> !Step(w, c).GoesWild?
  {
    hide Reaches, Conserved, Legal, Step;
    BootIsOk(frames, all);
    RunKeepsWorldOk(Boot(frames), calls, w, all);
    forall c | Legal(w, c)
      ensures !Step(w, c).GoesWild?
    {
      StepKeepsWorldOk(w, c, all);
    }
    TrackedPayloads(w.heap.chunks, w.asked);
  }

  lemma LiveBounds(cs: seq<Chunk>, c: Chunk)
    requires Tiled(cs) && c in cs
    ensures HEAP_START <= c.addr && c.addr + c.len <= End(cs)
  {
    var i :| 0 <= i < |cs| && cs[i] == c;
    ChunkBounds(cs, i);
  }

  lemma LiveApart(cs: seq<Chunk>, c: Chunk, d: Chunk)
    requires Tiled(cs) && c in cs && d in cs && c != d
    ensures c.addr + c.len <= d.addr || d.addr + d.len <= c.addr
  {
    var i :| 0 <= i < |cs| && cs[i] == c;
    var j :| 0 <= j < |cs| && cs[j] == d;
    AddressesIncrease(cs, if i < j then i else j, if i < j then j else i);
  }

  ghost predicate PayloadsInside(asked: map<int, nat>, end: int) {
    forall p :: p in asked ==> HEAP_START + HEADER <= p && p + asked[p] <= end
  }

  ghost predicate PayloadsApart(asked: map<int, nat>) {
    forall p, q :: p in asked && q in asked && p != q ==> Apart(p, asked[p], q, asked[q])
  }

  lemma TrackedPayloads(cs: seq<Chunk>, asked: map<int, nat>)
    requires Tiled(cs) && Tracks(Live(cs), asked)
    ensures PayloadsInside(asked, End(cs)) && PayloadsApart(asked)
  {
    hide Tiled, Live, Tracks;
    LiveAreChunks(cs);
    forall p | p in asked
      ensures HEAP_START + HEADER <= p && p + asked[p] <= End(cs)
    {
      var c := HolderOf(Live(cs), asked, p);
      LiveBounds(cs, c);
    }
    forall p, q | p in asked && q in asked && p != q
      ensures Apart(p, asked[p], q, asked[q])
    {
      var c := HolderOf(Live(cs), asked, p);
      var d := HolderOf(Live(cs), asked, q);
      LiveApart(cs, c, d);
    }
  }

  lemma NothingLive(cs: seq<Chunk>, asked: map<int, nat>)
    requires Ok(cs) && Tracks(Live(cs), asked) && asked == map[]
    ensures cs == []
  {
    if cs != [] {
      HeldBy(Live(cs), asked, Last(cs));
    }
  }

  /** Once everything allocated has been released, in whatever order, the heap is empty, its limit
      is back at HEAP_START, and every frame is free except those kept as page tables. */
  lemma AllReleased(frames: seq<Word>, calls: seq<Call>, w: World, all: set<Word>)
    requires Distinct(frames) && |frames| < MAX_FRAMES
    requires forall f :: f in all <==> f in frames
    requires Reaches(Boot(frames), calls, w)
    requires w.asked == map[]
    ensures w.heap.chunks == [] && HeapMax(w.heap) == HEAP_START
    ensures multiset(w.heap.pool.free) + multiset(w.heap.pool.tables) == multiset(frames)
  {
    BootIsOk(frames, all);
    RunKeepsWorldOk(Boot(frames), calls, w, all);
    DistinctIsSet(frames, all);
    NothingLive(w.heap.chunks, w.asked);
  }
}

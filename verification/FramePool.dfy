/** Who owns which page frame: the free stack, the heap's pages, and the page tables kept for the
    heap. The heap grows and shrinks by whole pages; tables, once taken, are never given back. */
module FramePool {
  import opened Words

  datatype Option<T> = None | Some(value: T)

  /** `free` is the frame stack, bottom first; `pages[i]` backs heap page `i`; `tables[j]` is the
      page table of the `j`-th directory slot of the heap range. */
  datatype Pool = Pool(free: seq<Word>, pages: seq<Word>, tables: seq<Word>)

  function Last<T>(s: seq<T>): T
    requires s != []
  {
    s[|s| - 1]
  }

  function Front<T>(s: seq<T>): (r: seq<T>)
    requires s != []
    ensures s == r + [Last(s)]
  {
    s[..|s| - 1]
  }

  predicate NeedsTable(p: Pool) {
    |p.pages| >= 1024 * |p.tables|
  }

  /** One more heap page: its frame is taken first, the page table it may need second. */
  function GrowOne(p: Pool): Option<Pool> {
    if p.free == [] then None
    else if !NeedsTable(p) then Some(Pool(Front(p.free), p.pages + [Last(p.free)], p.tables))
    else if Front(p.free) == [] then None
    else Some(Pool(Front(Front(p.free)), p.pages + [Last(p.free)], p.tables + [Last(Front(p.free))]))
  }

  /** The pool once at least `n` pages back the heap; none when the frames run out. */
  function GrowTo(p: Pool, n: nat): Option<Pool>
    decreases n - |p.pages|
  {
    if |p.pages| >= n then Some(p)
    else match GrowOne(p)
      case None => None
      case Some(q) => GrowTo(q, n)
  }

  function ShrinkOne(p: Pool): Pool
    requires p.pages != []
  {
    Pool(p.free + [Last(p.pages)], Front(p.pages), p.tables)
  }

  /** The pool once at most `n` pages back the heap. */
  function ShrinkTo(p: Pool, n: nat): Pool
    decreases |p.pages|
  {
    if |p.pages| <= n then p else ShrinkTo(ShrinkOne(p), n)
  }

  // ----- conservation of frames

  ghost function Owned(p: Pool): multiset<Word> {
    multiset(p.free) + multiset(p.pages) + multiset(p.tables)
  }

  /** Every frame of `all` has exactly one owner, and there is a table for every mapped page. */
  ghost predicate Conserved(p: Pool, all: set<Word>) {
    && Owned(p) == multiset(all)
    && |p.pages| <= 1024 * |p.tables|
  }

  lemma GrowOneConserves(p: Pool)
    requires GrowOne(p).Some?
    ensures Owned(GrowOne(p).value) == Owned(p)
  {
    assert p.free == Front(p.free) + [Last(p.free)];
    if NeedsTable(p) {
      var f := Front(p.free);
      assert f == Front(f) + [Last(f)];
      assert multiset(p.free) == multiset(Front(f)) + multiset{Last(f)} + multiset{Last(p.free)};
    }
  }

  /** Which frames one more page takes: the top of the stack for the page, and for the first of every
      1024 pages the one below it for the table. */
  lemma GrowOneTakes(p: Pool, all: set<Word>)
    requires Conserved(p, all) && GrowOne(p).Some?
    ensures var q, top := GrowOne(p).value, |p.free| - 1;
      && q.pages == p.pages + [p.free[top]]
      && if |p.pages| == 1024 * |p.tables| then q.tables == p.tables + [p.free[top - 1]] && q.free == p.free[..top - 1]
         else q.tables == p.tables && q.free == p.free[..top]
  {
  }

  lemma GrowOneKeeps(p: Pool, all: set<Word>)
    requires Conserved(p, all) && GrowOne(p).Some?
    ensures var r := GrowOne(p).value;
      && Conserved(r, all)
      && |r.pages| == |p.pages| + 1
      && p.pages <= r.pages && p.tables <= r.tables
  {
    GrowOneConserves(p);
  }

  lemma {:induction false} GrowToConserves(p: Pool, n: nat, all: set<Word>)
    requires Conserved(p, all) && GrowTo(p, n).Some?
    ensures var q := GrowTo(p, n).value;
      && Conserved(q, all)
      && |q.pages| == (if |p.pages| >= n then |p.pages| else n)
      && p.pages <= q.pages && p.tables <= q.tables
    decreases n - |p.pages|
  {
    hide Owned;
    if |p.pages| < n {
      GrowOneKeeps(p, all);
      GrowToConserves(GrowOne(p).value, n, all);
    }
  }

  lemma {:induction false} ShrinkToConserves(p: Pool, n: nat, all: set<Word>)
    requires Conserved(p, all)
    ensures var q := ShrinkTo(p, n);
      && Conserved(q, all)
      && |q.pages| == (if |p.pages| <= n then |p.pages| else n)
      && q.pages <= p.pages && q.tables == p.tables && p.free <= q.free
    decreases |p.pages|
  {
    if |p.pages| > n {
      assert p.pages == Front(p.pages) + [Last(p.pages)];
      ShrinkToConserves(ShrinkOne(p), n, all);
    }
  }

  /** Frames that growing to `n` pages takes: the pages themselves and the tables still missing. */
  function FramesNeeded(p: Pool, n: nat): nat {
    var tables := (n + 1023) / 1024;
    if n <= |p.pages| then 0
    else n - |p.pages| + if tables <= |p.tables| then 0 else tables - |p.tables|
  }

  /** Growing succeeds exactly when enough frames are free, and then takes exactly that many. */
  lemma {:induction false} GrowSucceedsIff(p: Pool, n: nat)
    requires |p.pages| <= 1024 * |p.tables|
    ensures GrowTo(p, n).Some? <==> FramesNeeded(p, n) <= |p.free|
    ensures GrowTo(p, n).Some? ==> |GrowTo(p, n).value.free| == |p.free| - FramesNeeded(p, n)
    decreases n - |p.pages|
  {
    hide FramesNeeded;
    OneStepNeeds(p, n);
    if |p.pages| < n && GrowOne(p).Some? {
      GrowSucceedsIff(GrowOne(p).value, n);
    }
  }

  lemma OneStepNeeds(p: Pool, n: nat)
    requires |p.pages| <= 1024 * |p.tables|
    ensures |p.pages| >= n ==> FramesNeeded(p, n) == 0
    ensures |p.pages| < n ==>
      var step := if NeedsTable(p) then 2 else 1;
      FramesNeeded(p, n) >= step &&
      (GrowOne(p).Some? ==> FramesNeeded(p, n) == step + FramesNeeded(GrowOne(p).value, n))
  {
  }

  lemma {:induction false} ShrunkPages(p: Pool, n: nat)
    ensures |ShrinkTo(p, n).pages| == if |p.pages| <= n then |p.pages| else n
    decreases |p.pages|
  {
    if |p.pages| > n {
      ShrunkPages(ShrinkOne(p), n);
    }
  }

  lemma {:induction false} GrownPages(p: Pool, n: nat)
    requires GrowTo(p, n).Some?
    ensures |GrowTo(p, n).value.pages| == if |p.pages| >= n then |p.pages| else n
    decreases n - |p.pages|
  {
    if |p.pages| < n {
      GrownPages(GrowOne(p).value, n);
    }
  }

  lemma GrownIfSo(p: Pool, n: nat)
    ensures GrowTo(p, n).Some? ==> |GrowTo(p, n).value.pages| == if |p.pages| >= n then |p.pages| else n
  {
    if GrowTo(p, n).Some? {
      GrownPages(p, n);
    }
  }

  // ----- what one owner per frame means

  lemma CountAtLeastTwo(s: seq<Word>, i: nat, j: nat)
    requires i < j < |s| && s[i] == s[j]
    ensures multiset(s)[s[i]] >= 2
  {
    assert s == s[..j] + s[j..];
    assert s[i] in s[..j] && s[j] in s[j..];
    assert multiset(s) == multiset(s[..j]) + multiset(s[j..]);
  }

  lemma NoDuplicates(s: seq<Word>, all: set<Word>)
    requires multiset(s) <= multiset(all)
    ensures forall i, j :: 0 <= i < j < |s| ==> s[i] != s[j]
  {
    forall i, j | 0 <= i < j < |s|
      ensures s[i] != s[j]
    {
      if s[i] == s[j] {
        CountAtLeastTwo(s, i, j);
      }
    }
  }

  ghost predicate Distinct(s: seq<Word>) {
    forall i, j :: 0 <= i < j < |s| ==> s[i] != s[j]
  }

  ghost predicate Disjoint(s: seq<Word>, t: seq<Word>) {
    forall i, j :: 0 <= i < |s| && 0 <= j < |t| ==> s[i] != t[j]
  }

  lemma SharedFramesAreSeparate(s: seq<Word>, t: seq<Word>, all: set<Word>)
    requires multiset(s) + multiset(t) <= multiset(all)
    ensures Distinct(s) && Disjoint(s, t)
    ensures forall f :: f in s ==> f in all
  {
    NoDuplicates(s, all);
    assert forall f :: f in s ==> f in multiset(s);
    forall i, j | 0 <= i < |s| && 0 <= j < |t|
      ensures s[i] != t[j]
    {
      assert s[i] in multiset(s) && t[j] in multiset(t);
      assert multiset(all)[s[i]] <= 1;
    }
  }

  /** Conservation says: free frames, heap pages and heap tables are each duplicate-free, pairwise
      disjoint, and together exactly the frames the machine started with. */
  lemma OneOwnerPerFrame(p: Pool, all: set<Word>)
    requires Conserved(p, all)
    ensures Distinct(p.free) && Distinct(p.pages) && Distinct(p.tables)
    ensures Disjoint(p.free, p.pages) && Disjoint(p.free, p.tables) && Disjoint(p.pages, p.tables)
    ensures forall f :: f in all <==> f in p.free || f in p.pages || f in p.tables
    ensures |p.free| + |p.pages| + |p.tables| == |all|
  {
    SharedFramesAreSeparate(p.free, p.pages, all);
    SharedFramesAreSeparate(p.pages, p.tables, all);
    SharedFramesAreSeparate(p.tables, p.free, all);
    forall f | f in all
      ensures f in p.free || f in p.pages || f in p.tables
    {
      assert f in Owned(p);
    }
    assert |multiset(all)| == |all|;
  }

  // ----- growing and shrinking back

  /** `s` without the elements of `drop`, order kept. */
  function Without(s: seq<Word>, drop: seq<Word>): seq<Word> {
    if s == [] then []
    else Without(Front(s), drop) + if Last(s) in drop then [] else [Last(s)]
  }

  lemma {:induction false} WithoutMore(s: seq<Word>, t: Word, drop: seq<Word>)
    requires t !in s
    ensures Without(s, [t] + drop) == Without(s, drop)
  {
    if s != [] {
      WithoutMore(Front(s), t, drop);
    }
  }

  lemma {:induction false} WithoutNone(s: seq<Word>)
    ensures Without(s, []) == s
  {
    if s != [] {
      WithoutNone(Front(s));
    }
  }

  lemma {:induction false} ShrinkInTwoSteps(p: Pool, m: nat, n: nat)
    requires n <= m
    ensures ShrinkTo(p, n) == ShrinkTo(ShrinkTo(p, m), n)
    decreases |p.pages|
  {
    if |p.pages| > m {
      ShrinkInTwoSteps(ShrinkOne(p), m, n);
    }
  }

  /** The tables that growing adds come from the free stack. */
  lemma {:induction false} NewTablesWereFree(p: Pool, n: nat)
    requires GrowTo(p, n).Some?
    ensures var q := GrowTo(p, n).value;
      && p.tables <= q.tables
      && forall j :: |p.tables| <= j < |q.tables| ==> q.tables[j] in p.free
    decreases n - |p.pages|
  {
    if |p.pages| < n {
      var r := GrowOne(p).value;
      NewTablesWereFree(r, n);
      assert forall t :: t in r.free ==> t in p.free;
      assert |r.tables| > |p.tables| ==> r.tables[|p.tables|] in p.free;
    }
  }

  lemma WithoutOneStep(p: Pool, kept: seq<Word>, all: set<Word>)
    requires Conserved(p, all) && GrowOne(p).Some?
    requires forall t :: t in kept ==> t in GrowOne(p).value.free
    ensures var r := GrowOne(p).value;
      Without(p.free, r.tables[|p.tables|..] + kept) == Without(r.free, kept) + [Last(p.free)]
  {
    hide Conserved, Owned;
    OneOwnerPerFrame(p, all);
    var r := GrowOne(p).value;
    var drop := r.tables[|p.tables|..] + kept;
    assert Last(p.free) !in drop;
    if NeedsTable(p) {
      assert drop == [Last(r.tables)] + kept;
      WithoutMore(r.free, Last(r.tables), kept);
    } else {
      assert drop == kept;
    }
  }

  /** Growing and shrinking back returns every page frame to the free stack in its old order; only
      the page tables taken on the way are missing from it. */
  lemma {:induction false} GrowThenShrink(p: Pool, n: nat, all: set<Word>)
    requires Conserved(p, all) && GrowTo(p, n).Some?
    ensures var q := GrowTo(p, n).value;
      && p.tables <= q.tables
      && ShrinkTo(q, |p.pages|) == Pool(Without(p.free, q.tables[|p.tables|..]), p.pages, q.tables)
    decreases n - |p.pages|
  {
    hide Owned, Without;
    var q := GrowTo(p, n).value;
    NewTablesWereFree(p, n);
    if |p.pages| >= n {
      WithoutNone(p.free);
      assert q.tables[|p.tables|..] == [];
    } else {
      var r := GrowOne(p).value;
      GrowOneKeeps(p, all);
      GrowThenShrink(r, n, all);
      NewTablesWereFree(r, n);
      var kept := q.tables[|r.tables|..];
      assert q.tables[|p.tables|..] == r.tables[|p.tables|..] + kept;
      WithoutOneStep(p, kept, all);
      ShrinkInTwoSteps(q, |r.pages|, |p.pages|);
      var u := ShrinkTo(q, |r.pages|);
      assert u == Pool(Without(r.free, kept), r.pages, q.tables);
      assert ShrinkTo(u, |p.pages|) == ShrinkOne(u);
      assert Front(r.pages) == p.pages;
    }
  }
}

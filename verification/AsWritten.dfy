/** Whole runs of the heap code as it stands, without the back link `split_chunk` leaves out. */
module AsWritten {
  import opened HeapSpec
  import L = HeapLinks
  import opened HeapRuns

  /** The chunks as they should be after a call. */
  function ChunksAfter(cs: seq<Chunk>, c: Call): seq<Chunk>
    requires c.Release? ==> IsLive(cs, c.p)
  {
    match c
    case Alloc(n) => Malloc(cs, n + HEADER)
    case Release(p) => Free(cs, IndexOf(cs, p))
  }

  /** The list as the code leaves it. */
  function ListAfter(l: L.Links, cs: seq<Chunk>, c: Call): L.Links {
    match c
    case Alloc(n) => L.Kmalloc(l, n + HEADER, false, |cs| + 1).0
    case Release(p) => L.Kfree(l, p - HEADER)
  }

  /** The moments of a run: what the list is and which chunks it should be the list of. */
  ghost predicate Run(ls: seq<L.Links>, css: seq<seq<Chunk>>, calls: seq<Call>) {
    && |ls| == |css| == |calls| + 1
    && forall k :: 0 <= k < |calls| ==> Follows(ls, css, calls, k)
  }

  ghost predicate Follows(ls: seq<L.Links>, css: seq<seq<Chunk>>, calls: seq<Call>, k: nat)
    requires |ls| == |css| == |calls| + 1 && k < |calls|
  {
    && (calls[k].Release? ==> IsLive(css[k], calls[k].p))
    && css[k + 1] == ChunksAfter(css[k], calls[k])
    && ls[k + 1] == ListAfter(ls[k], css[k], calls[k])
  }

  predicate CutsAt(cs: seq<Chunk>, c: Call) {
    c.Alloc? && Cuts(cs, c.n)
  }

  lemma ChunksStayOk(cs: seq<Chunk>, c: Call)
    requires Ok(cs) && (c.Release? ==> IsLive(cs, c.p))
    ensures Ok(ChunksAfter(cs, c))
  {
    hide Ok, Malloc, Free;
    match c {
      case Alloc(n) => MallocEnd(cs, n + HEADER);
      case Release(p) => FreeKeepsOk(cs, IndexOf(cs, p));
    }
  }

  /** One call on a sound list leaves it sound if and only if it does not cut. */
  lemma CallSoundIff(l: L.Links, cs: seq<Chunk>, c: Call)
    requires Ok(cs) && L.Represents(l, cs) && (c.Release? ==> IsLive(cs, c.p))
    ensures L.Represents(ListAfter(l, cs, c), ChunksAfter(cs, c)) <==> !CutsAt(cs, c)
  {
    hide L.Represents, Ok, Malloc, Free;
    match c {
      case Alloc(n) => L.KmallocSoundIff(l, cs, n + HEADER, false, |cs| + 1);
      case Release(p) => L.KfreeRefines(l, cs, IndexOf(cs, p));
    }
  }

  lemma {:induction false} ChunksAreOk(ls: seq<L.Links>, css: seq<seq<Chunk>>, calls: seq<Call>, k: nat)
    requires Run(ls, css, calls) && Ok(css[0]) && k < |css|
    ensures Ok(css[k])
  {
    hide Ok;
    if k > 0 {
      ChunksAreOk(ls, css, calls, k - 1);
      assert Follows(ls, css, calls, k - 1);
      ChunksStayOk(css[k - 1], calls[k - 1]);
    }
  }

  lemma {:induction false} SoundWithoutCuts(ls: seq<L.Links>, css: seq<seq<Chunk>>, calls: seq<Call>, k: nat)
    requires Run(ls, css, calls) && Ok(css[0]) && L.Represents(ls[0], css[0]) && k < |css|
    requires forall j :: 0 <= j < k ==> !CutsAt(css[j], calls[j])
    ensures L.Represents(ls[k], css[k])
  {
    hide Ok, L.Represents, CutsAt;
    if k > 0 {
      SoundWithoutCuts(ls, css, calls, k - 1);
      ChunksAreOk(ls, css, calls, k - 1);
      assert Follows(ls, css, calls, k - 1);
      CallSoundIff(ls[k - 1], css[k - 1], calls[k - 1]);
    }
  }

  /** As it stands the code keeps the list sound at every moment of a run if and only if no `kmalloc`
      in it cuts a chunk. */
  lemma RunSoundIff(ls: seq<L.Links>, css: seq<seq<Chunk>>, calls: seq<Call>)
    requires Run(ls, css, calls) && Ok(css[0]) && L.Represents(ls[0], css[0])
    ensures (forall k :: 0 <= k < |css| ==> L.Represents(ls[k], css[k])) <==>
            (forall k :: 0 <= k < |calls| ==> !CutsAt(css[k], calls[k]))
  {
    hide Ok, L.Represents, CutsAt;
    if forall k :: 0 <= k < |calls| ==> !CutsAt(css[k], calls[k]) {
      forall k | 0 <= k < |css|
        ensures L.Represents(ls[k], css[k])
      {
        SoundWithoutCuts(ls, css, calls, k);
      }
    } else {
      var k :| 0 <= k < |calls| && CutsAt(css[k], calls[k]);
      assert Follows(ls, css, calls, k);
      ChunksAreOk(ls, css, calls, k);
      if L.Represents(ls[k], css[k]) {
        CallSoundIff(ls[k], css[k], calls[k]);
      }
    }
  }
}

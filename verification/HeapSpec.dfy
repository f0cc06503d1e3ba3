/** The heap as an address-ordered sequence of chunks over a pool of page frames: what `kmalloc`
    and `kfree` mean, independently of headers, pointers and page tables. */
module HeapSpec {
  import opened Words
  import opened FramePool

  const HEAP_START := 0xE000_0000
  const HEADER := 12        // sizeof(header_t)

  /** A chunk covers [addr, addr + len); its payload starts after the header. */
  datatype Chunk = Chunk(addr: int, len: int, used: bool)

  function End(cs: seq<Chunk>): int {
    if cs == [] then HEAP_START else Last(cs).addr + Last(cs).len
  }

  /** Chunk `i + 1` starts where chunk `i` ends, and the two are not both free. */
  predicate Joined(cs: seq<Chunk>, i: int)
    requires 0 <= i && i + 1 < |cs|
  {
    cs[i + 1].addr == cs[i].addr + cs[i].len
  }

  predicate BothFree(cs: seq<Chunk>, i: int)
    requires 0 <= i && i + 1 < |cs|
  {
    !cs[i].used && !cs[i + 1].used
  }

  /** The chunks tile the heap from its start, each large enough for its header. */
  ghost predicate Tiled(cs: seq<Chunk>) {
    && (cs != [] ==> cs[0].addr == HEAP_START)
    && (forall i :: 0 <= i < |cs| ==> cs[i].len >= HEADER)
    && (forall i :: 0 <= i && i + 1 < |cs| ==> Joined(cs, i))
  }

  /** Tiled, no two neighbours free, last chunk in use. */
  ghost predicate Ok(cs: seq<Chunk>) {
    && Tiled(cs)
    && (forall i :: 0 <= i && i + 1 < |cs| ==> !BothFree(cs, i))
    && (cs != [] ==> Last(cs).used)
  }

  lemma OkIsTiled(cs: seq<Chunk>)
    requires Ok(cs)
    ensures Tiled(cs)
  {
  }

  // ----- operations on the chunk sequence

  /** Index of the first free chunk at or after `i` that can hold `len` bytes, |cs| if none. */
  function FitFrom(cs: seq<Chunk>, i: nat, len: int): (k: nat)
    requires i <= |cs|
    ensures i <= k <= |cs|
    ensures k < |cs| ==> !cs[k].used && cs[k].len >= len
    ensures forall j :: i <= j < k ==> cs[j].used || cs[j].len < len
    decreases |cs| - i
  {
    if i == |cs| || (!cs[i].used && cs[i].len >= len) then i else FitFrom(cs, i + 1, len)
  }

  predicate Splits(c: Chunk, len: int) {
    c.len - len > HEADER
  }

  /** Chunk `i` cut to `len` bytes, the tail becoming a free chunk, if a header and more fit there. */
  function SplitAt(cs: seq<Chunk>, i: nat, len: int): (r: seq<Chunk>)
    requires i < |cs|
    ensures |r| == if Splits(cs[i], len) then |cs| + 1 else |cs|
  {
    var c := cs[i];
    if Splits(c, len)
    then cs[..i] + [c.(len := len), Chunk(c.addr + len, c.len - len, false)] + cs[i + 1..]
    else cs
  }

  /** Chunk `i` handed out for `len` bytes. */
  function Take(cs: seq<Chunk>, i: nat, len: int): seq<Chunk>
    requires i < |cs|
  {
    var r := SplitAt(cs, i, len);
    r[i := r[i].(used := true)]
  }

  function Append(cs: seq<Chunk>, len: int): seq<Chunk> {
    cs + [Chunk(End(cs), len, true)]
  }

  /** First fit, or a new chunk at the end; `len` counts the header. */
  function Malloc(cs: seq<Chunk>, len: int): seq<Chunk> {
    var i := FitFrom(cs, 0, len);
    if i < |cs| then Take(cs, i, len) else Append(cs, len)
  }

  function MallocIndex(cs: seq<Chunk>, len: int): nat {
    FitFrom(cs, 0, len)
  }

  function MergeNext(cs: seq<Chunk>, i: nat): (r: seq<Chunk>)
    requires i < |cs|
    ensures i < |r|
  {
    if i + 1 < |cs| && !cs[i + 1].used
    then cs[..i] + [cs[i].(len := cs[i].len + cs[i + 1].len)] + cs[i + 2..]
    else cs
  }

  predicate MergesPrev(cs: seq<Chunk>, i: nat)
    requires i < |cs|
  {
    i > 0 && !cs[i - 1].used
  }

  function MergePrev(cs: seq<Chunk>, i: nat): (r: seq<Chunk>)
    requires i < |cs|
    ensures |r| == if MergesPrev(cs, i) then |cs| - 1 else |cs|
  {
    if MergesPrev(cs, i)
    then cs[..i - 1] + [cs[i - 1].(len := cs[i - 1].len + cs[i].len)] + cs[i + 1..]
    else cs
  }

  function DropTail(cs: seq<Chunk>, i: nat): seq<Chunk>
    requires i < |cs|
  {
    if i + 1 == |cs| then cs[..i] else cs
  }

  /** Chunk `i` released: marked free, joined with free neighbours, dropped when it ends the heap. */
  function Free(cs: seq<Chunk>, i: nat): seq<Chunk>
    requires i < |cs|
  {
    var a := MergeNext(cs[i := cs[i].(used := false)], i);
    DropTail(MergePrev(a, i), if MergesPrev(a, i) then i - 1 else i)
  }

  // ----- tiling

  lemma {:induction false} AddressesIncrease(cs: seq<Chunk>, i: nat, j: nat)
    requires Tiled(cs) && i < j < |cs|
    ensures cs[i].addr + cs[i].len <= cs[j].addr
  {
    if i + 1 < j {
      AddressesIncrease(cs, i, j - 1);
    }
    assert Joined(cs, j - 1);
  }

  lemma ChunkBounds(cs: seq<Chunk>, i: nat)
    requires Tiled(cs) && i < |cs|
    ensures HEAP_START <= cs[i].addr && cs[i].addr + cs[i].len <= End(cs)
  {
    if i > 0 {
      AddressesIncrease(cs, 0, i);
    }
    if i + 1 < |cs| {
      AddressesIncrease(cs, i, |cs| - 1);
    }
  }

  lemma TakeKeepsOk(cs: seq<Chunk>, i: nat, len: int)
    requires Ok(cs) && i < |cs| && !cs[i].used && HEADER <= len <= cs[i].len
    ensures Ok(Take(cs, i, len)) && End(Take(cs, i, len)) == End(cs)
  {
    var r := Take(cs, i, len);
    var d := |r| - |cs|;
    forall k | 0 <= k && k + 1 < |r|
      ensures Joined(r, k) && !BothFree(r, k)
    {
      if k < i {
        assert Joined(cs, k) && !BothFree(cs, k);
      } else if k > i {
        assert Joined(cs, k - d) && !BothFree(cs, k - d);
      } else if d == 0 {
        assert Joined(cs, k);
      }
    }
  }

  lemma AppendKeepsOk(cs: seq<Chunk>, len: int)
    requires Ok(cs) && HEADER <= len
    ensures Ok(Append(cs, len)) && End(Append(cs, len)) == End(cs) + len
  {
    var r := Append(cs, len);
    forall k | 0 <= k && k + 1 < |r|
      ensures Joined(r, k) && !BothFree(r, k)
    {
      if k + 1 < |cs| {
        assert Joined(cs, k) && !BothFree(cs, k);
      }
    }
  }

  /** What `Free` keeps until its last step: tiling, and free neighbours only next to chunk `i`. */
  ghost predicate FreeAt(cs: seq<Chunk>, i: nat) {
    && i < |cs| && !cs[i].used
    && Tiled(cs)
    && (forall k :: 0 <= k && k + 1 < |cs| && k != i && k + 1 != i ==> !BothFree(cs, k))
    && (i + 1 < |cs| ==> Last(cs).used)
  }

  lemma FreeAtIsTiled(cs: seq<Chunk>, i: nat)
    requires FreeAt(cs, i)
    ensures Tiled(cs)
  {
  }

  lemma MergeNextKeeps(cs: seq<Chunk>, i: nat)
    requires FreeAt(cs, i)
    ensures var r := MergeNext(cs, i);
      FreeAt(r, i) && End(r) == End(cs) && (i + 1 < |r| ==> !BothFree(r, i))
  {
    var r := MergeNext(cs, i);
    var d := |cs| - |r|;
    forall k | 0 <= k && k + 1 < |r|
      ensures Joined(r, k) && (k + 1 != i ==> !BothFree(r, k))
    {
      if k < i {
        assert Joined(cs, k) && (k + 1 != i ==> !BothFree(cs, k));
      } else if d == 1 {
        assert Joined(cs, k + 1) && (k > i ==> !BothFree(cs, k + 1));
        assert k == i ==> Joined(cs, i) && !BothFree(cs, i + 1);
      } else {
        assert Joined(cs, k) && (k > i ==> !BothFree(cs, k));
      }
    }
  }

  lemma MergePrevKeeps(cs: seq<Chunk>, i: nat)
    requires FreeAt(cs, i) && (i + 1 < |cs| ==> !BothFree(cs, i))
    ensures var r := MergePrev(cs, i);
      var j := if MergesPrev(cs, i) then i - 1 else i;
      && FreeAt(r, j) && End(r) == End(cs)
      && (forall k :: 0 <= k && k + 1 < |r| ==> !BothFree(r, k))
  {
    var r := MergePrev(cs, i);
    if MergesPrev(cs, i) {
      assert Joined(cs, i - 1);
    }
    forall k | 0 <= k && k + 1 < |r|
      ensures Joined(r, k) && !BothFree(r, k)
    {
      if !MergesPrev(cs, i) {
        assert Joined(cs, k) && (k + 1 != i ==> !BothFree(cs, k));
      } else if k + 1 < i {
        assert Joined(cs, k) && !BothFree(cs, k);
      } else {
        assert Joined(cs, k + 1) && Joined(cs, i - 1) && !BothFree(cs, k + 1);
      }
    }
  }

  lemma MarkFreeKeeps(cs: seq<Chunk>, i: nat)
    requires Ok(cs) && i < |cs| && cs[i].used
    ensures var freed := cs[i := cs[i].(used := false)];
      FreeAt(freed, i) && End(freed) == End(cs)
  {
    var freed := cs[i := cs[i].(used := false)];
    forall k | 0 <= k && k + 1 < |freed|
      ensures Joined(freed, k) && (k != i && k + 1 != i ==> !BothFree(freed, k))
    {
      assert Joined(cs, k) && !BothFree(cs, k);
    }
  }

  lemma MergeNextAt(cs: seq<Chunk>, i: nat)
    requires i < |cs|
    ensures MergeNext(cs, i)[i].addr == cs[i].addr
  {
  }

  lemma MergePrevAt(cs: seq<Chunk>, i: nat)
    requires i < |cs|
    ensures var j := if MergesPrev(cs, i) then i - 1 else i;
      MergePrev(cs, i)[j].addr == cs[j].addr
  {
  }

  lemma FreeKeepsOk(cs: seq<Chunk>, i: nat)
    requires Ok(cs) && i < |cs| && cs[i].used
    ensures Ok(Free(cs, i)) && End(Free(cs, i)) <= End(cs)
  {
    hide MergeNext, MergePrev, DropTail;
    var freed := cs[i := cs[i].(used := false)];
    MarkFreeKeeps(cs, i);
    MergeNextKeeps(freed, i);
    var a := MergeNext(freed, i);
    MergePrevKeeps(a, i);
    var b := MergePrev(a, i);
    var j := if MergesPrev(a, i) then i - 1 else i;
    DropTailKeepsOk(b, j);
    ChunkBounds(b, j);
  }

  lemma DropTailKeepsOk(cs: seq<Chunk>, j: nat)
    requires FreeAt(cs, j)
    requires forall k :: 0 <= k && k + 1 < |cs| ==> !BothFree(cs, k)
    ensures Ok(DropTail(cs, j)) && End(DropTail(cs, j)) == if j + 1 == |cs| then cs[j].addr else End(cs)
  {
    var r := DropTail(cs, j);
    forall k | 0 <= k && k + 1 < |r|
      ensures Joined(r, k) && !BothFree(r, k)
    {
      assert Joined(cs, k) && !BothFree(cs, k);
    }
    if 0 < j && j + 1 == |cs| {
      assert Joined(cs, j - 1) && !BothFree(cs, j - 1);
    }
  }

  // ----- which chunks are in use

  ghost function Live(cs: seq<Chunk>): set<Chunk> {
    set c | c in cs && c.used
  }

  lemma MallocLive(cs: seq<Chunk>, len: int)
    requires Ok(cs) && HEADER <= len
    ensures var r := Malloc(cs, len);
      var k := MallocIndex(cs, len);
      && k < |r| && r[k].used && len <= r[k].len
      && r[k] !in cs && Live(r) == Live(cs) + {r[k]}
  {
    var r := Malloc(cs, len);
    var k := MallocIndex(cs, len);
    forall j | 0 <= j < |cs|
      ensures r[k] != cs[j]
    {
      if j == k {
      } else if k == |cs| {
        ChunkBounds(cs, j);
      } else if j < k {
        AddressesIncrease(cs, j, k);
      } else {
        AddressesIncrease(cs, k, j);
      }
    }
    if k < |cs| {
      TakeLive(cs, k, len);
    } else {
      AppendLive(cs, len);
    }
  }

  /** How much is handed out: the asked for length, or the whole free chunk when no more than 12
      bytes would be left over. A tail of more than 12 bytes stays behind as a free chunk. */
  lemma MallocGrants(cs: seq<Chunk>, len: int)
    requires Ok(cs) && 12 <= len
    ensures var r := Malloc(cs, len);
      var k := MallocIndex(cs, len);
      && k < |r| && r[k].used && len <= r[k].len <= len + 12
      && (k == |cs| ==> r == cs + [Chunk(End(cs), len, true)])
      && (k < |cs| && cs[k].len <= len + 12 ==> r == cs[k := Chunk(cs[k].addr, cs[k].len, true)])
      && (k < |cs| && |r| == |cs| ==> cs[k].len <= len + 12)
      && (k < |cs| && |r| > |cs| ==>
            && cs[k].len > len + 12 && r[k] == Chunk(cs[k].addr, len, true)
            && r[k + 1] == Chunk(cs[k].addr + len, cs[k].len - len, false) && r[k + 1].len > 12
            && r == cs[..k] + [r[k], r[k + 1]] + cs[k + 1..])
  {
    var k := MallocIndex(cs, len);
    if k < |cs| {
      TakeShape(cs, k, len);
    }
  }

  lemma AppendLive(cs: seq<Chunk>, len: int)
    ensures Live(Append(cs, len)) == Live(cs) + {Chunk(End(cs), len, true)}
  {
  }

  lemma TakeShape(cs: seq<Chunk>, i: nat, len: int)
    requires i < |cs|
    ensures Take(cs, i, len) ==
            cs[..i]
            + (if Splits(cs[i], len)
               then [Chunk(cs[i].addr, len, true), Chunk(cs[i].addr + len, cs[i].len - len, false)]
               else [cs[i].(used := true)])
            + cs[i + 1..]
  {
  }

  lemma LiveConcat(a: seq<Chunk>, b: seq<Chunk>, c: seq<Chunk>)
    ensures Live(a + b + c) == Live(a) + Live(b) + Live(c)
  {
  }

  lemma TakeLive(cs: seq<Chunk>, i: nat, len: int)
    requires i < |cs| && !cs[i].used
    ensures Live(Take(cs, i, len)) == Live(cs) + {Take(cs, i, len)[i]}
  {
    var mid := if Splits(cs[i], len)
               then [Chunk(cs[i].addr, len, true), Chunk(cs[i].addr + len, cs[i].len - len, false)]
               else [cs[i].(used := true)];
    TakeShape(cs, i, len);
    LiveOfUnused(cs[i]);
    LiveOfTaken(mid);
    hide Take, Live;
    LiveConcat(cs[..i], mid, cs[i + 1..]);
    LiveConcat(cs[..i], [cs[i]], cs[i + 1..]);
    assert cs == cs[..i] + [cs[i]] + cs[i + 1..];
  }

  lemma LiveOfUnused(c: Chunk)
    requires !c.used
    ensures Live([c]) == {}
  {
  }

  lemma LiveOfTaken(mid: seq<Chunk>)
    requires 1 <= |mid| <= 2 && mid[0].used && (|mid| == 2 ==> !mid[1].used)
    ensures Live(mid) == {mid[0]}
  {
  }

  lemma FreeLive(cs: seq<Chunk>, i: nat)
    requires Ok(cs) && i < |cs| && cs[i].used
    ensures Live(Free(cs, i)) == Live(cs) - {cs[i]}
  {
    var freed := cs[i := cs[i].(used := false)];
    MarkFreeLive(cs, i);
    hide MergeNext, MergePrev;
    MergeNextLive(freed, i);
    var a := MergeNext(freed, i);
    MergePrevLive(a, i);
    var b := MergePrev(a, i);
    var j := if MergesPrev(a, i) then i - 1 else i;
    if j + 1 == |b| {
      assert b == b[..j] + [b[j]] + [];
      LiveConcat(b[..j], [b[j]], []);
    }
  }

  lemma MarkFreeLive(cs: seq<Chunk>, i: nat)
    requires Tiled(cs) && i < |cs| && cs[i].used
    ensures Live(cs[i := cs[i].(used := false)]) == Live(cs) - {cs[i]}
  {
    var freed := cs[i := cs[i].(used := false)];
    assert cs == cs[..i] + [cs[i]] + cs[i + 1..];
    assert freed == cs[..i] + [freed[i]] + cs[i + 1..];
    LiveConcat(cs[..i], [cs[i]], cs[i + 1..]);
    LiveConcat(cs[..i], [freed[i]], cs[i + 1..]);
    assert cs[i] !in cs[..i] + cs[i + 1..] by {
      forall j | 0 <= j < |cs| && j != i
        ensures cs[j] != cs[i]
      {
        AddressesIncrease(cs, if i < j then i else j, if i < j then j else i);
      }
    }
  }

  lemma MergeNextLive(cs: seq<Chunk>, i: nat)
    requires i < |cs| && !cs[i].used
    ensures Live(MergeNext(cs, i)) == Live(cs) && !MergeNext(cs, i)[i].used
  {
    if |MergeNext(cs, i)| < |cs| {
      LiveConcat(cs[..i], [cs[i], cs[i + 1]], cs[i + 2..]);
      LiveConcat(cs[..i], [cs[i].(len := cs[i].len + cs[i + 1].len)], cs[i + 2..]);
      assert cs == cs[..i] + [cs[i], cs[i + 1]] + cs[i + 2..];
    }
  }

  lemma MergePrevLive(cs: seq<Chunk>, i: nat)
    requires i < |cs| && !cs[i].used
    ensures Live(MergePrev(cs, i)) == Live(cs)
    ensures !MergePrev(cs, i)[if MergesPrev(cs, i) then i - 1 else i].used
  {
    if MergesPrev(cs, i) {
      LiveConcat(cs[..i - 1], [cs[i - 1], cs[i]], cs[i + 1..]);
      LiveConcat(cs[..i - 1], [cs[i - 1].(len := cs[i - 1].len + cs[i].len)], cs[i + 1..]);
      assert cs == cs[..i - 1] + [cs[i - 1], cs[i]] + cs[i + 1..];
    }
  }

  /** The chunks in use determine the whole sequence: what `Malloc` and `Free` leave free, and in how
      many pieces, follows from which chunks are in use. */
  lemma {:induction false} LiveDeterminesChunks(cs: seq<Chunk>, ds: seq<Chunk>)
    requires Ok(cs) && Ok(ds) && Live(cs) == Live(ds)
    ensures cs == ds
    decreases |cs|
  {
    SameLast(cs, ds);
    if cs != [] {
      var n, m := |cs| - 1, |ds| - 1;
      FreeKeepsOk(cs, n);
      FreeKeepsOk(ds, m);
      FreeLive(cs, n);
      FreeLive(ds, m);
      BeforeLast(cs);
      BeforeLast(ds);
      hide Free, Live, Tiled;
      LiveDeterminesChunks(Free(cs, n), Free(ds, m));
    }
  }

  lemma SameLast(cs: seq<Chunk>, ds: seq<Chunk>)
    requires Ok(cs) && Ok(ds) && Live(cs) == Live(ds)
    ensures cs == [] <==> ds == []
    ensures cs != [] ==> Last(cs) == Last(ds)
  {
    if cs != [] {
      LastLive(cs);
    }
    if ds != [] {
      LastLive(ds);
    }
  }

  /** No chunk in use starts behind the last one. */
  lemma LastLive(cs: seq<Chunk>)
    requires Ok(cs) && cs != []
    ensures Last(cs) in Live(cs)
    ensures forall c :: c in Live(cs) ==> c == Last(cs) || c.addr + c.len <= Last(cs).addr
    ensures forall c :: c in Live(cs) ==> c.len >= HEADER
  {
    forall i | 0 <= i < |cs| - 1
      ensures cs[i].addr + cs[i].len <= Last(cs).addr
    {
      AddressesIncrease(cs, i, |cs| - 1);
    }
  }

  lemma BeforeLast(cs: seq<Chunk>)
    requires Ok(cs) && cs != []
    ensures var f := Free(cs, |cs| - 1);
      && |f| < |cs|
      && cs == f + (if End(f) < Last(cs).addr then [Chunk(End(f), Last(cs).addr - End(f), false)] else []) + [Last(cs)]
  {
    var n := |cs| - 1;
    if n > 0 {
      assert Joined(cs, n - 1) && !BothFree(cs, n - 1);
    }
    if n > 1 {
      assert Joined(cs, n - 2) && !BothFree(cs, n - 2);
    }
  }

  // ----- allocating and releasing at once

  /** Releasing the chunk just allocated restores the chunk sequence, whether it was reused whole,
      split or appended. */
  lemma FreeUndoesMalloc(cs: seq<Chunk>, len: int)
    requires Ok(cs) && HEADER <= len
    ensures MallocIndex(cs, len) < |Malloc(cs, len)|
    ensures Free(Malloc(cs, len), MallocIndex(cs, len)) == cs
  {
    var k := MallocIndex(cs, len);
    var r := Malloc(cs, len);
    if k == |cs| {
      assert r[k := r[k].(used := false)][..k] == cs;
    } else {
      assert cs[k] == Chunk(cs[k].addr, cs[k].len, false);
      if k > 0 {
        assert !BothFree(cs, k - 1);
      }
      if k + 1 < |cs| {
        assert !BothFree(cs, k);
      }
      assert k + 1 < |cs|;
      FreeUndoesTake(cs, k, len);
    }
  }

  lemma FreeUndoesTake(cs: seq<Chunk>, k: nat, len: int)
    requires k + 1 < |cs| && !cs[k].used && cs[k + 1].used && (k > 0 ==> cs[k - 1].used)
    ensures k < |Take(cs, k, len)| && Free(Take(cs, k, len), k) == cs
  {
    var r := Take(cs, k, len);
    var freed := r[k := r[k].(used := false)];
    assert MergeNext(freed, k) == cs;
  }
}

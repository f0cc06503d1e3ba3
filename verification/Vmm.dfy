/** Paging: physical memory with the page tables inside it, the code that edits the tables, and
    the processor's walk through them. */
module Vmm {
  import opened Words
  import opened PageTables
  import opened Pmm
  import opened FramePool

  const RAM_SIZE := 0x2000_0000
  const PAGE_OFFSET := 0xC000_0000
  const PTE_COUNT := 128
  const KERNEL_SLOT := 768      // PGD_INDEX(PAGE_OFFSET)
  const KERNEL_PAGE := 0xC_0000 // PAGE_OFFSET / PAGE_SIZE

  /** The processor's two-level walk (Intel SDM volume 3A, "32-Bit Paging"): the physical address
      behind `va`, or none when the directory or the table entry is not present. */
  datatype Translation = Fault | At(pa: nat)

  function Walk(ram: seq<Byte>, pgd: Word, va: Word): Translation
    requires WellFormed(ram, pgd)
  {
    var pde := Entry(ram, pgd, PgdIndex(va));
    if pde % 2 == 0 || Table(ram, pgd, PgdIndex(va)) == 0 then Fault
    else
      var pte := Entry(ram, Table(ram, pgd, PgdIndex(va)), PteIndex(va));
      if pte % 2 == 0 then Fault else At(PageBase(pte) + va % PAGE_SIZE)
  }

  /** The 512 MB linear map: page `p` above PAGE_OFFSET is frame `p`, page 0 is left unmapped. */
  ghost predicate LinearMap(ram: seq<Byte>, pgd: Word, pteKern: Word)
    requires WellFormed(ram, pgd)
  {
    && (forall j :: 0 <= j < PTE_COUNT ==>
          Entry(ram, pgd, KERNEL_SLOT + j) == pteKern + 4096 * j + PRESENT + WRITE)
    && (forall p :: 0 <= p < PTE_COUNT * 1024 ==>
          Pte(ram, pgd, KERNEL_PAGE + p) == if p == 0 then 0 else 4096 * p + PRESENT + WRITE)
  }

  /** Word `i` of the static tables, seen as one flat array. */
  function Flat(ram: seq<Byte>, pteKern: nat, i: nat): Word
    requires pteKern + 4 * i + 4 <= |ram|
  {
    Get32(ram, pteKern + 4 * i)
  }

  ghost predicate StaticPlacement(pgd: Word, pteKern: Word) {
    && 0 < pgd && pgd % 4096 == 0 && pgd + 4096 <= RAM_SIZE
    && 0 < pteKern && pteKern % 4096 == 0 && pteKern + PTE_COUNT * 4096 <= RAM_SIZE
    && (pgd + 4096 <= pteKern || pteKern + PTE_COUNT * 4096 <= pgd)
  }

  /** Outside the directory and the static tables the two memories agree. */
  ghost predicate SameElsewhere(s: seq<Byte>, t: seq<Byte>, pgd: Word, pteKern: Word) {
    && |s| == |t|
    && forall i | 0 <= i < |s| && !(pgd <= i < pgd + 4096) ::
         pteKern <= i < pteKern + PTE_COUNT * 4096 || s[i] == t[i]
  }

  lemma ZeroWords(ram: seq<Byte>, a: nat, n: nat)
    requires a + 4 * n <= |ram|
    requires forall i :: a <= i < a + 4 * n ==> ram[i] == 0
    ensures forall i :: 0 <= i < n ==> Get32(ram, a + 4 * i) == 0
  {
    forall i | 0 <= i < n
      ensures Get32(ram, a + 4 * i) == 0
    {
      GetBytes(ram, a + 4 * i);
    }
  }

  /** The directory after slots KERNEL_SLOT up to `i` have been filled in. */
  ghost predicate DirectoryFilled(ram: seq<Byte>, pgd: Word, pteKern: Word, i: nat) {
    |ram| == RAM_SIZE && pgd + 4096 <= RAM_SIZE &&
    forall d :: 0 <= d < 1024 ==>
      Entry(ram, pgd, d) == if KERNEL_SLOT <= d < i then pteKern + 4096 * (d - KERNEL_SLOT) + 3 else 0
  }

  /** The static tables after words 1 up to `n` have been filled in. */
  ghost predicate TablesFilled(ram: seq<Byte>, pteKern: Word, n: nat) {
    |ram| == RAM_SIZE && pteKern + PTE_COUNT * 4096 <= RAM_SIZE &&
    forall i :: 0 <= i < PTE_COUNT * 1024 ==>
      Flat(ram, pteKern, i) == if 1 <= i < n then 4096 * i + 3 else 0
  }

  /** The loops of `init_vmm` have filled the directory up to `d` and the tables up to `n`. */
  ghost predicate Filled(was: seq<Byte>, ram: seq<Byte>, pgd: Word, pteKern: Word, d: nat, n: nat) {
    && DirectoryFilled(ram, pgd, pteKern, d)
    && TablesFilled(ram, pteKern, n)
    && SameElsewhere(was, ram, pgd, pteKern)
  }

  lemma FilledAtStart(ram: seq<Byte>, pgd: Word, pteKern: Word)
    requires |ram| == RAM_SIZE && StaticPlacement(pgd, pteKern)
    requires forall i :: pgd <= i < pgd + 4096 ==> ram[i] == 0
    requires forall i :: pteKern <= i < pteKern + PTE_COUNT * 4096 ==> ram[i] == 0
    ensures Filled(ram, ram, pgd, pteKern, KERNEL_SLOT, 1)
  {
    ZeroWords(ram, pgd, 1024);
    ZeroWords(ram, pteKern, PTE_COUNT * 1024);
  }

  lemma DirectoryStep(was: seq<Byte>, ram: seq<Byte>, pgd: Word, pteKern: Word, i: nat)
    requires StaticPlacement(pgd, pteKern)
    requires Filled(was, ram, pgd, pteKern, i, 1) && KERNEL_SLOT <= i < KERNEL_SLOT + PTE_COUNT
    ensures Filled(was, Put32(ram, pgd + 4 * i, pteKern + 4096 * (i - KERNEL_SLOT) + 3), pgd, pteKern, i + 1, 1)
  {
    hide Get32, Put32;
    var w: Word := pteKern + 4096 * (i - KERNEL_SLOT) + 3;
    var r := Put32(ram, pgd + 4 * i, w);
    forall d | 0 <= d < 1024 && d != i
      ensures Entry(r, pgd, d) == Entry(ram, pgd, d)
    {
      Get32AfterPut32(ram, pgd + 4 * i, w, pgd + 4 * d);
    }
    forall k | 0 <= k < PTE_COUNT * 1024
      ensures Flat(r, pteKern, k) == Flat(ram, pteKern, k)
    {
      Get32AfterPut32(ram, pgd + 4 * i, w, pteKern + 4 * k);
    }
  }

  lemma TablesStep(was: seq<Byte>, ram: seq<Byte>, pgd: Word, pteKern: Word, i: nat)
    requires StaticPlacement(pgd, pteKern)
    requires Filled(was, ram, pgd, pteKern, KERNEL_SLOT + PTE_COUNT, i) && 1 <= i < PTE_COUNT * 1024
    ensures Filled(was, Put32(ram, pteKern + 4 * i, 4096 * i + 3), pgd, pteKern, KERNEL_SLOT + PTE_COUNT, i + 1)
  {
    hide Get32, Put32;
    var w: Word := 4096 * i + 3;
    var r := Put32(ram, pteKern + 4 * i, w);
    forall k | 0 <= k < PTE_COUNT * 1024 && k != i
      ensures Flat(r, pteKern, k) == Flat(ram, pteKern, k)
    {
      Get32AfterPut32(ram, pteKern + 4 * i, w, pteKern + 4 * k);
    }
    forall d | 0 <= d < 1024
      ensures Entry(r, pgd, d) == Entry(ram, pgd, d)
    {
      Get32AfterPut32(ram, pteKern + 4 * i, w, pgd + 4 * d);
    }
  }

  lemma FilledTable(ram: seq<Byte>, pgd: Word, pteKern: Word, d: nat)
    requires StaticPlacement(pgd, pteKern) && d < 1024
    requires DirectoryFilled(ram, pgd, pteKern, KERNEL_SLOT + PTE_COUNT)
    ensures Table(ram, pgd, d) ==
            if KERNEL_SLOT <= d < KERNEL_SLOT + PTE_COUNT then pteKern + 4096 * (d - KERNEL_SLOT) else 0
  {
    hide Get32;
    if KERNEL_SLOT <= d < KERNEL_SLOT + PTE_COUNT {
      PageBaseOf(pteKern, d - KERNEL_SLOT, 3);
    }
  }

  lemma PageBaseOf(b: nat, i: nat, flags: nat)
    requires b % 4096 == 0 && flags < 4096 && b + 4096 * i + flags < 0x1_0000_0000
    ensures PageBase(b + 4096 * i + flags) == b + 4096 * i
  {
  }

  lemma FilledTables(ram: seq<Byte>, pgd: Word, pteKern: Word)
    requires StaticPlacement(pgd, pteKern)
    requires DirectoryFilled(ram, pgd, pteKern, KERNEL_SLOT + PTE_COUNT)
    ensures WellFormed(ram, pgd)
  {
    forall d | 0 <= d < 1024
      ensures Table(ram, pgd, d) ==
              if KERNEL_SLOT <= d < KERNEL_SLOT + PTE_COUNT then pteKern + 4096 * (d - KERNEL_SLOT) else 0
    {
      FilledTable(ram, pgd, pteKern, d);
    }
    hide Entry, Table, DirectoryFilled;
  }

  /** Filled tables are the linear map, and no other directory slot is in use. */
  lemma FilledIsLinear(was: seq<Byte>, ram: seq<Byte>, pgd: Word, pteKern: Word)
    requires StaticPlacement(pgd, pteKern)
    requires Filled(was, ram, pgd, pteKern, KERNEL_SLOT + PTE_COUNT, PTE_COUNT * 1024)
    ensures WellFormed(ram, pgd) && LinearMap(ram, pgd, pteKern)
    ensures SameElsewhere(was, ram, pgd, pteKern)
    ensures forall d :: 0 <= d < 1024 && !(KERNEL_SLOT <= d < KERNEL_SLOT + PTE_COUNT) ==> Entry(ram, pgd, d) == 0
  {
    hide Get32, WellFormed;
    FilledTables(ram, pgd, pteKern);
    forall p | 0 <= p < PTE_COUNT * 1024
      ensures Pte(ram, pgd, KERNEL_PAGE + p) == if p == 0 then 0 else 4096 * p + 3
    {
      KernelPage(p);
      FilledTable(ram, pgd, pteKern, KERNEL_SLOT + p / 1024);
      assert Entry(ram, pteKern + 4096 * (p / 1024), p % 1024) == Flat(ram, pteKern, p);
    }
    forall j | 0 <= j < PTE_COUNT
      ensures Entry(ram, pgd, KERNEL_SLOT + j) == pteKern + 4096 * j + 3
    {
      assert Entry(ram, pgd, KERNEL_SLOT + j) == pteKern + 4096 * ((KERNEL_SLOT + j) - KERNEL_SLOT) + 3;
    }
  }

  lemma KernelPage(p: nat)
    requires p < PTE_COUNT * 1024
    ensures (KERNEL_PAGE + p) / 1024 == KERNEL_SLOT + p / 1024 && (KERNEL_PAGE + p) % 1024 == p % 1024
    ensures 4096 * (p / 1024) + 4 * (p % 1024) == 4 * p
  {
  }

  /** What `get_mapping` finds after `map`: the frame, rounded down to its page, unless frame 0 was
      mapped without any flag, which looks like no mapping at all. */
  lemma MappedPageIsFound(ram: seq<Byte>, pgd: Word, va: Word, pa: Word, flags: nat, spare: Word)
    requires WellFormed(ram, pgd) && flags < 4096
    requires Table(ram, pgd, PgdIndex(va)) == 0 ==> Fresh(ram, pgd, spare)
    ensures WellFormed(MapBytes(ram, pgd, va, pa, flags, spare), pgd)
    ensures Pte(MapBytes(ram, pgd, va, pa, flags, spare), pgd, PageOf(va)) != 0 <==> pa >= 4096 || flags > 0
    ensures PageBase(Pte(MapBytes(ram, pgd, va, pa, flags, spare), pgd, PageOf(va))) == PageBase(pa)
  {
    hide MapBytes, WellFormed, Fresh;
    MapChangesOnePage(ram, pgd, va, pa, flags, spare);
    PageBaseOf(PageBase(pa), 0, flags);
  }

  /** The walk, word by word (Intel SDM volume 3A, "Linear-Address Translation to a 4-KByte Page using
      32-Bit Paging"): the directory entry at 4 times the upper ten bits, the table entry at 4 times
      the next ten, both present, and the low twelve bits as the offset in the frame. */
  lemma WalkByHand(ram: seq<Byte>, pgd: Word, va: Word)
    requires WellFormed(ram, pgd)
    ensures pgd + 4 * (va / 0x40_0000) + 4 <= |ram|
    ensures var pde := Get32(ram, pgd + 4 * (va / 0x40_0000));
      && pde - pde % 0x1000 + 4 * (va / 0x1000 % 0x400) + 4 <= |ram|
      && var pte := Get32(ram, pde - pde % 0x1000 + 4 * (va / 0x1000 % 0x400));
         Walk(ram, pgd, va) ==
         if pde % 2 == 1 && pde >= 0x1000 && pte % 2 == 1 then At(pte - pte % 0x1000 + va % 0x1000) else Fault
  {
    hide Get32;
    TableBounds(ram, pgd, PgdIndex(va));
    hide WellFormed;
  }

  /** What the walk makes of the two entries it finds. */
  function Through(pde: Word, pte: Word, x: Word): Translation {
    if pde % 2 == 1 && pte % 2 == 1 then At(PageBase(pte) + x % 0x1000) else Fault
  }

  lemma WalkIs(ram: seq<Byte>, pgd: Word, x: Word)
    requires WellFormed(ram, pgd)
    ensures Walk(ram, pgd, x) == Through(Entry(ram, pgd, PgdIndex(x)), Pte(ram, pgd, PageOf(x)), x)
  {
    hide Get32;
    TableBounds(ram, pgd, PgdIndex(x));
    hide WellFormed;
  }

  lemma ThroughPresent(pde: Word, pa: Word, flags: nat, x: Word)
    requires pde % 2 == 1 && flags < 4096 && flags % 2 == 1
    ensures Through(pde, PageBase(pa) + flags, x) == At(pa - pa % 0x1000 + x % 0x1000)
  {
    PageBaseOf(PageBase(pa), 0, flags);
  }

  lemma NothingThrough(pde: Word, x: Word)
    ensures Through(pde, 0, x) == Fault
  {
  }

  lemma NoTableNoEntry(ram: seq<Byte>, pgd: Word, page: nat)
    requires WellFormed(ram, pgd) && page < 0x10_0000 && Table(ram, pgd, page / 1024) == 0
    ensures Pte(ram, pgd, page) == 0
  {
  }

  /** The two entries `x` depends on after `map`. */
  lemma MapAt(ram: seq<Byte>, pgd: Word, va: Word, pa: Word, flags: nat, spare: Word, x: Word)
    requires WellFormed(ram, pgd) && flags < 0x1000
    requires Table(ram, pgd, PgdIndex(va)) == 0 ==> Fresh(ram, pgd, spare)
    ensures var r, d := MapBytes(ram, pgd, va, pa, flags, spare), PgdIndex(x);
      && WellFormed(r, pgd)
      && (Table(ram, pgd, PgdIndex(va)) == 0 && d == PgdIndex(va) ==> Entry(r, pgd, d) % 2 == 1)
      && (!(Table(ram, pgd, PgdIndex(va)) == 0 && d == PgdIndex(va)) ==> Entry(r, pgd, d) == Entry(ram, pgd, d))
      && Pte(r, pgd, PageOf(x)) == if PageOf(x) == PageOf(va) then PageBase(pa) + flags else Pte(ram, pgd, PageOf(x))
  {
    hide Entry, Table, Pte, PageBase, PgdIndex, PteIndex, PageOf, MapBytes;
    if Table(ram, pgd, PgdIndex(va)) == 0 {
      FreshBounds(ram, pgd, spare);
    }
    TableBounds(ram, pgd, PgdIndex(va));
    hide WellFormed, Fresh;
    MapChangesOnePage(ram, pgd, va, pa, flags, spare);
  }

  lemma MapTranslatesPage(ram: seq<Byte>, pgd: Word, va: Word, pa: Word, flags: nat, spare: Word, x: Word)
    requires WellFormed(ram, pgd) && flags < 0x1000 && flags % 2 == 1
    requires if Table(ram, pgd, PgdIndex(va)) == 0 then Fresh(ram, pgd, spare)
             else Entry(ram, pgd, PgdIndex(va)) % 2 == 1
    ensures var r := MapBytes(ram, pgd, va, pa, flags, spare);
      && WellFormed(r, pgd)
      && Walk(r, pgd, x) ==
         if PageOf(x) == PageOf(va) then At(pa - pa % 0x1000 + x % 0x1000) else Walk(ram, pgd, x)
  {
    var d := PgdIndex(x);
    TableBounds(ram, pgd, d);
    if Table(ram, pgd, PgdIndex(va)) == 0 {
      FreshBounds(ram, pgd, spare);
    }
    hide *;
    MapAt(ram, pgd, va, pa, flags, spare, x);
    var r := MapBytes(ram, pgd, va, pa, flags, spare);
    WalkIs(ram, pgd, x);
    WalkIs(r, pgd, x);
    if PageOf(x) == PageOf(va) {
      assert d == PgdIndex(va);
      ThroughPresent(Entry(r, pgd, d), pa, flags, x);
    } else if d == PgdIndex(va) && Table(ram, pgd, d) == 0 {
      NoTableNoEntry(ram, pgd, PageOf(x));
      NothingThrough(Entry(ram, pgd, d), x);
      NothingThrough(Entry(r, pgd, d), x);
    }
  }

  /** What `map` is for, seen by the processor: with the present flag, every address of the page goes
      to the same place in the frame afterwards, and every other address to where it went before. */
  lemma MapTranslates(ram: seq<Byte>, pgd: Word, va: Word, pa: Word, flags: nat, spare: Word, x: Word)
    requires WellFormed(ram, pgd) && flags < 0x1000 && flags % 2 == 1
    requires if Table(ram, pgd, va / 0x40_0000) == 0 then Fresh(ram, pgd, spare)
             else Entry(ram, pgd, va / 0x40_0000) % 2 == 1
    ensures var r := MapBytes(ram, pgd, va, pa, flags, spare);
      && WellFormed(r, pgd)
      && Walk(r, pgd, x) ==
         if x / 0x1000 == va / 0x1000 then At(pa - pa % 0x1000 + x % 0x1000) else Walk(ram, pgd, x)
  {
    hide MapBytes, WellFormed, Fresh, Entry, Table, Walk;
    MapTranslatesPage(ram, pgd, va, pa, flags, spare, x);
  }

  /** After `unmap` the page faults, and every other address goes where it went before. */
  lemma UnmapTranslates(ram: seq<Byte>, pgd: Word, va: Word, x: Word)
    requires WellFormed(ram, pgd)
    ensures var r := UnmapBytes(ram, pgd, va);
      && WellFormed(r, pgd)
      && Walk(r, pgd, x) == if x / 0x1000 == va / 0x1000 then Fault else Walk(ram, pgd, x)
  {
    assert PageOf(va) == va / 0x1000 && PageOf(x) == x / 0x1000;
    hide UnmapBytes, WellFormed, Entry, Table, Walk, Pte, PageOf, PgdIndex, PteIndex, Through;
    TableBounds(ram, pgd, PgdIndex(va));
    UnmapRemovesOnePage(ram, pgd, va);
    var r := UnmapBytes(ram, pgd, va);
    WalkIs(ram, pgd, x);
    WalkIs(r, pgd, x);
    NothingThrough(Entry(r, pgd, PgdIndex(x)), x);
  }

  class Memory {
    const ram: array<Byte>
    const pmm: FrameStack
    const pgd: Word        // physical address of pgd_kern
    const pteKern: Word    // physical address of pte_kern

    constructor (ram: array<Byte>, pmm: FrameStack, pgd: Word, pteKern: Word)
      ensures this.ram == ram && this.pmm == pmm && this.pgd == pgd && this.pteKern == pteKern
    {
      this.ram, this.pmm, this.pgd, this.pteKern := ram, pmm, pgd, pteKern;
    }

    ghost predicate Valid()
      reads this, ram, pmm
    {
      && pmm.Valid()
      && ram.Length == RAM_SIZE
      && WellFormed(ram[..], pgd)
    }

    method Load32(a: nat) returns (w: Word)
      requires a + 4 <= ram.Length
      ensures w == Get32(ram[..], a)
    {
      GetBytes(ram[..], a);
      w := ram[a] as int + 0x100 * (ram[a + 1] as int) + 0x1_0000 * (ram[a + 2] as int)
        + 0x100_0000 * (ram[a + 3] as int);
    }

    method Store32(a: nat, w: Word)
      requires a + 4 <= ram.Length
      modifies ram
      ensures ram[..] == Put32(old(ram[..]), a, w)
    {
      ram[a] := w % 0x100;
      ram[a + 1] := w / 0x100 % 0x100;
      ram[a + 2] := w / 0x1_0000 % 0x100;
      ram[a + 3] := w / 0x100_0000;
    }

    /** `bzero` of one page. */
    method ZeroPage(t: nat)
      requires t + 4096 <= ram.Length
      modifies ram
      ensures ram[..] == Zeroed(old(ram[..]), t)
    {
      var dst, len := t, 4096;
      while len != 0
        invariant 0 <= len <= 4096 && dst == t + 4096 - len
        invariant forall i :: 0 <= i < ram.Length ==> ram[i] == if t <= i < dst then 0 else old(ram[i])
      {
        ram[dst] := 0;
        dst := dst + 1;
        len := len - 1;
      }
    }

    /** `init_vmm`: from zeroed static tables, build the linear map and nothing else. */
    method InitVmm()
      requires pmm.Valid() && ram.Length == RAM_SIZE
      requires StaticPlacement(pgd, pteKern)
      requires forall i :: pgd <= i < pgd + 4096 ==> ram[i] == 0
      requires forall i :: pteKern <= i < pteKern + PTE_COUNT * 4096 ==> ram[i] == 0
      modifies ram
      ensures Valid() && LinearMap(ram[..], pgd, pteKern)
      ensures forall d :: 0 <= d < 1024 && !(KERNEL_SLOT <= d < KERNEL_SLOT + PTE_COUNT) ==> Entry(ram[..], pgd, d) == 0
      ensures SameElsewhere(old(ram[..]), ram[..], pgd, pteKern)
    {
      hide Put32, Filled, LinearMap, SameElsewhere;
      ghost var was := ram[..];
      FilledAtStart(was, pgd, pteKern);
      var i, j := KERNEL_SLOT, 0;
      while i < PTE_COUNT + KERNEL_SLOT
        invariant KERNEL_SLOT <= i <= PTE_COUNT + KERNEL_SLOT && j == i - KERNEL_SLOT
        invariant Filled(was, ram[..], pgd, pteKern, i, 1)
      {
        DirectoryStep(was, ram[..], pgd, pteKern, i);
        Store32(pgd + 4 * i, pteKern + 4096 * j + PRESENT + WRITE);
        i, j := i + 1, j + 1;
      }
      i := 1;
      while i < PTE_COUNT * 1024
        invariant 1 <= i <= PTE_COUNT * 1024
        invariant Filled(was, ram[..], pgd, pteKern, KERNEL_SLOT + PTE_COUNT, i)
      {
        TablesStep(was, ram[..], pgd, pteKern, i);
        Store32(pteKern + 4 * i, 4096 * i + PRESENT + WRITE);
        i := i + 1;
      }
      FilledIsLinear(was, ram[..], pgd, pteKern);
    }

    /** `map`: fails only when a page table is missing and no frame is left for it. */
    method Map(va: Word, pa: Word, flags: nat) returns (ok: bool)
      requires Valid() && flags < 4096
      requires Table(ram[..], pgd, PgdIndex(va)) == 0 && pmm.Free() != [] ==>
                 Fresh(ram[..], pgd, Last(pmm.Free()))
      modifies ram, pmm
      ensures Valid()
      ensures ok <==> old(Table(ram[..], pgd, PgdIndex(va))) != 0 || old(pmm.Free()) != []
      ensures old(Table(ram[..], pgd, PgdIndex(va))) != 0 ==>
                && ram[..] == MapBytes(old(ram[..]), pgd, va, pa, flags, 0)
                && pmm.Free() == old(pmm.Free())
      ensures ok && old(Table(ram[..], pgd, PgdIndex(va))) == 0 ==>
                && ram[..] == MapBytes(old(ram[..]), pgd, va, pa, flags, Last(old(pmm.Free())))
                && pmm.Free() == Front(old(pmm.Free()))
      ensures !ok ==> ram[..] == old(ram[..]) && pmm.Free() == old(pmm.Free())
    {
      hide Get32, Put32, Zeroed, WellFormed, Fresh;
      ghost var before, frames := ram[..], pmm.Free();
      var pgdIdx := PgdIndex(va);
      var pteIdx := PteIndex(va);
      TableBounds(before, pgd, pgdIdx);
      var pde := Load32(pgd + 4 * pgdIdx);
      var pte := PageBase(pde);
      assert pte == Table(before, pgd, pgdIdx);
      if pte == 0 {
        ok, pte := pmm.AllocPage();
        if !ok {
          return;
        }
        assert pte == Last(frames);
        FreshBounds(before, pgd, pte);
        MapChangesOnePage(before, pgd, va, pa, flags, pte);
        Store32(pgd + 4 * pgdIdx, pte + PRESENT + WRITE);
        ZeroPage(pte);
      } else {
        MapChangesOnePage(before, pgd, va, pa, flags, 0);
      }
      Store32(pte + 4 * pteIdx, PageBase(pa) + flags);
      ok := true;
    }

    /** `unmap`. */
    method Unmap(va: Word)
      requires Valid()
      modifies ram
      ensures Valid()
      ensures ram[..] == UnmapBytes(old(ram[..]), pgd, va)
    {
      UnmapRemovesOnePage(ram[..], pgd, va);
      var pde := Load32(pgd + 4 * PgdIndex(va));
      var pte := PageBase(pde);
      if pte == 0 {
        return;
      }
      Store32(pte + 4 * PteIndex(va), 0);
    }

    /** `get_mapping`; `wanted` says whether an output pointer was passed. The bare return for a
        missing table counts as 0. */
    method GetMapping(va: Word, wanted: bool) returns (found: bool, pa: Word)
      requires Valid()
      ensures found <==> wanted && Pte(ram[..], pgd, PageOf(va)) != 0
      ensures found ==> pa == PageBase(Pte(ram[..], pgd, PageOf(va)))
    {
      found, pa := false, 0;
      var pde := Load32(pgd + 4 * PgdIndex(va));
      var pte := PageBase(pde);
      TableBounds(ram[..], pgd, PgdIndex(va));
      if pte == 0 {
        return;
      }
      var entry := Load32(pte + 4 * PteIndex(va));
      if entry != 0 && wanted {
        found, pa := true, PageBase(entry);
      }
    }

    /** The processor's translation of `va`. */
    method Translate(va: Word) returns (t: Translation)
      requires Valid()
      ensures t == Walk(ram[..], pgd, va)
    {
      t := Fault;
      TableBounds(ram[..], pgd, PgdIndex(va));
      var pde := Load32(pgd + 4 * PgdIndex(va));
      var table := PageBase(pde);
      if pde % 2 == 1 && table != 0 {
        var pte := Load32(table + 4 * PteIndex(va));
        if pte % 2 == 1 {
          t := At(PageBase(pte) + va % PAGE_SIZE);
        }
      }
    }
  }
}

/** The two-level page table as it lies in physical memory: what one entry store, one table
    installation and one removal do to the page-to-frame function the table represents. */
module PageTables {
  import opened Words

  const PAGE_SIZE := 4096
  const PRESENT := 1
  const WRITE := 2

  /** `PGD_INDEX` and `PTE_INDEX`: the upper and middle ten bits of a virtual address. */
  function PgdIndex(va: Word): (d: nat)
    ensures d < 1024
  {
    va / 0x40_0000
  }

  function PteIndex(va: Word): (k: nat)
    ensures k < 1024
  {
    va / 4096 % 1024
  }

  function PageOf(va: Word): (page: nat)
    ensures page < 0x10_0000
    ensures page / 1024 == PgdIndex(va) && page % 1024 == PteIndex(va)
    ensures 0x1000 * page <= va < 0x1000 * (page + 1)
  {
    va / 4096
  }

  function Entry(ram: seq<Byte>, t: nat, k: nat): Word
    requires t + 4096 <= |ram| && k < 1024
  {
    Get32(ram, t + 4 * k)
  }

  /** Physical address of the page table in directory slot `d`, 0 when there is none. */
  function Table(ram: seq<Byte>, pgd: Word, d: nat): Word
    requires pgd + 4096 <= |ram| && d < 1024
  {
    PageBase(Entry(ram, pgd, d))
  }

  /** The directory and all tables it names are distinct pages inside physical memory. */
  ghost predicate WellFormed(ram: seq<Byte>, pgd: Word) {
    && 0 < pgd && pgd % 4096 == 0 && pgd + 4096 <= |ram|
    && (forall d :: 0 <= d < 1024 ==> Table(ram, pgd, d) + 4096 <= |ram| && Table(ram, pgd, d) != pgd)
    && (forall d, e :: 0 <= d < 1024 && 0 <= e < 1024 && d != e && Table(ram, pgd, d) != 0 ==>
          Table(ram, pgd, d) != Table(ram, pgd, e))
  }

  /** The page-table entry that governs `page`, 0 when the page has no table. */
  ghost function Pte(ram: seq<Byte>, pgd: Word, page: nat): Word
    requires WellFormed(ram, pgd) && page < 0x10_0000
  {
    var t := Table(ram, pgd, page / 1024);
    if t == 0 then 0 else Entry(ram, t, page % 1024)
  }

  /** `t` may become a page table: an aligned page in memory that no table in use occupies. */
  ghost predicate Fresh(ram: seq<Byte>, pgd: Word, t: Word)
    requires WellFormed(ram, pgd)
  {
    && 0 < t && t % 4096 == 0 && t + 4096 <= |ram| && t != pgd
    && forall d :: 0 <= d < 1024 ==> Table(ram, pgd, d) != t
  }

  lemma TableBounds(ram: seq<Byte>, pgd: Word, d: nat)
    requires WellFormed(ram, pgd) && d < 1024
    ensures pgd + 4096 <= |ram| && Table(ram, pgd, d) + 4096 <= |ram| && Table(ram, pgd, d) != pgd
  {
  }

  lemma FreshBounds(ram: seq<Byte>, pgd: Word, t: Word)
    requires WellFormed(ram, pgd) && Fresh(ram, pgd, t)
    ensures 0 < t && t % 4096 == 0 && t + 4096 <= |ram|
  {
  }

  function Zeroed(ram: seq<Byte>, t: nat): (r: seq<Byte>)
    requires t + 4096 <= |ram|
    ensures |r| == |ram|
    ensures forall i :: 0 <= i < |ram| ==> r[i] == if t <= i < t + 4096 then 0 else ram[i]
  {
    ram[..t] + seq(4096, _ => 0) + ram[t + 4096..]
  }

  function WithTable(ram: seq<Byte>, pgd: Word, d: nat, t: Word): (r: seq<Byte>)
    requires pgd + 4096 <= |ram| && d < 1024
    requires t % 4096 == 0 && t + 4096 <= |ram|
    ensures |r| == |ram|
  {
    Zeroed(Put32(ram, pgd + 4 * d, t + PRESENT + WRITE), t)
  }

  function SetEntry(ram: seq<Byte>, t: nat, k: nat, w: Word): (r: seq<Byte>)
    requires t + 4096 <= |ram| && k < 1024
    ensures |r| == |ram|
  {
    Put32(ram, t + 4 * k, w)
  }

  /** Memory after `map`: the slot's table is created from `spare` if it is missing. */
  function MapBytes(ram: seq<Byte>, pgd: Word, va: Word, pa: Word, flags: nat, spare: Word): (r: seq<Byte>)
    requires pgd + 4096 <= |ram| && flags < 4096
    requires var t := Table(ram, pgd, PgdIndex(va));
             if t == 0 then spare % 4096 == 0 && spare + 4096 <= |ram| else t + 4096 <= |ram|
    ensures |r| == |ram|
  {
    var t := Table(ram, pgd, PgdIndex(va));
    if t == 0
    then SetEntry(WithTable(ram, pgd, PgdIndex(va), spare), spare, PteIndex(va), PageBase(pa) + flags)
    else SetEntry(ram, t, PteIndex(va), PageBase(pa) + flags)
  }

  /** Memory after `unmap`. */
  function UnmapBytes(ram: seq<Byte>, pgd: Word, va: Word): (r: seq<Byte>)
    requires pgd + 4096 <= |ram|
    requires Table(ram, pgd, PgdIndex(va)) + 4096 <= |ram|
    ensures |r| == |ram|
  {
    var t := Table(ram, pgd, PgdIndex(va));
    if t == 0 then ram else SetEntry(ram, t, PteIndex(va), 0)
  }

  // ----- what the stores do to the represented function

  lemma EntryFrame(ram: seq<Byte>, r: seq<Byte>, t: nat, k: nat)
    requires |r| == |ram| && t + 4096 <= |ram| && k < 1024
    requires forall i :: t <= i < t + 4096 ==> r[i] == ram[i]
    ensures Entry(r, t, k) == Entry(ram, t, k)
  {
    Get32Frame(r, ram, t + 4 * k);
  }

  lemma SameDirectory(ram: seq<Byte>, r: seq<Byte>, pgd: Word)
    requires WellFormed(ram, pgd) && |r| == |ram|
    requires forall d :: 0 <= d < 1024 ==> Entry(r, pgd, d) == Entry(ram, pgd, d)
    ensures WellFormed(r, pgd)
    ensures forall d :: 0 <= d < 1024 ==> Table(r, pgd, d) == Table(ram, pgd, d)
  {
    hide Get32;
    assert forall d :: 0 <= d < 1024 ==> Table(r, pgd, d) == Table(ram, pgd, d);
  }

  /** Stores that leave the directory and every table alone leave every mapping alone. */
  lemma TablesFrame(ram: seq<Byte>, r: seq<Byte>, pgd: Word)
    requires WellFormed(ram, pgd) && |r| == |ram|
    requires forall i :: pgd <= i < pgd + 4096 ==> r[i] == ram[i]
    requires forall d, i | 0 <= d < 1024 && Table(ram, pgd, d) != 0 ::
               Table(ram, pgd, d) <= i < Table(ram, pgd, d) + 4096 ==> r[i] == ram[i]
    ensures WellFormed(r, pgd)
    ensures forall d :: 0 <= d < 1024 ==> Entry(r, pgd, d) == Entry(ram, pgd, d)
    ensures forall page :: 0 <= page < 0x10_0000 ==> Pte(r, pgd, page) == Pte(ram, pgd, page)
  {
    hide Get32;
    forall d | 0 <= d < 1024
      ensures Entry(r, pgd, d) == Entry(ram, pgd, d)
    {
      EntryFrame(ram, r, pgd, d);
    }
    SameDirectory(ram, r, pgd);
    forall page | 0 <= page < 0x10_0000
      ensures Pte(r, pgd, page) == Pte(ram, pgd, page)
    {
      var t := Table(ram, pgd, page / 1024);
      if t != 0 {
        EntryFrame(ram, r, t, page % 1024);
      }
    }
  }

  lemma PagesApart(t: nat, u: nat)
    requires t % 4096 == 0 && u % 4096 == 0 && t != u
    ensures t + 4096 <= u || u + 4096 <= t
  {
  }

  lemma SetEntryElsewhere(ram: seq<Byte>, t: nat, k: nat, w: Word, u: nat, j: nat)
    requires t + 4096 <= |ram| && u + 4096 <= |ram| && k < 1024 && j < 1024
    requires t % 4096 == 0 && u % 4096 == 0 && (t, k) != (u, j)
    ensures Entry(SetEntry(ram, t, k, w), u, j) == Entry(ram, u, j)
  {
    hide Get32, Put32;
    if t != u {
      PagesApart(t, u);
    }
    Get32AfterPut32(ram, t + 4 * k, w, u + 4 * j);
  }

  lemma SetEntryDirectory(ram: seq<Byte>, pgd: Word, t: Word, k: nat, w: Word)
    requires WellFormed(ram, pgd) && k < 1024
    requires t % 4096 == 0 && t != pgd && t + 4096 <= |ram|
    ensures var r := SetEntry(ram, t, k, w);
      && WellFormed(r, pgd)
      && forall d :: 0 <= d < 1024 ==> Entry(r, pgd, d) == Entry(ram, pgd, d)
  {
    hide Get32, Put32, SetEntry;
    var r := SetEntry(ram, t, k, w);
    forall d | 0 <= d < 1024
      ensures Entry(r, pgd, d) == Entry(ram, pgd, d)
    {
      SetEntryElsewhere(ram, t, k, w, pgd, d);
    }
    SameDirectory(ram, r, pgd);
  }

  /** Storing one entry of a table in use changes exactly the page that entry governs. */
  lemma SetEntryChangesOnePage(ram: seq<Byte>, pgd: Word, page: nat, w: Word)
    requires WellFormed(ram, pgd) && page < 0x10_0000
    requires Table(ram, pgd, page / 1024) != 0
    ensures var r := SetEntry(ram, Table(ram, pgd, page / 1024), page % 1024, w);
      && WellFormed(r, pgd)
      && (forall d :: 0 <= d < 1024 ==> Entry(r, pgd, d) == Entry(ram, pgd, d))
      && (forall p :: 0 <= p < 0x10_0000 ==> Pte(r, pgd, p) == if p == page then w else Pte(ram, pgd, p))
  {
    hide Get32, Put32, SetEntry;
    var t := Table(ram, pgd, page / 1024);
    var r := SetEntry(ram, t, page % 1024, w);
    SetEntryDirectory(ram, pgd, t, page % 1024, w);
    forall p | 0 <= p < 0x10_0000
      ensures Pte(r, pgd, p) == if p == page then w else Pte(ram, pgd, p)
    {
      SetEntryAtPage(ram, pgd, page, w, p);
    }
  }

  lemma SetEntryAtPage(ram: seq<Byte>, pgd: Word, page: nat, w: Word, p: nat)
    requires WellFormed(ram, pgd) && page < 0x10_0000 && p < 0x10_0000
    requires Table(ram, pgd, page / 1024) != 0
    ensures var r := SetEntry(ram, Table(ram, pgd, page / 1024), page % 1024, w);
      WellFormed(r, pgd) && Pte(r, pgd, p) == if p == page then w else Pte(ram, pgd, p)
  {
    hide Get32, Put32;
    var t := Table(ram, pgd, page / 1024);
    var u := Table(ram, pgd, p / 1024);
    SetEntryDirectory(ram, pgd, t, page % 1024, w);
    if u != 0 && p != page {
      if p / 1024 == page / 1024 {
        assert p % 1024 != page % 1024;
      }
      SetEntryElsewhere(ram, t, page % 1024, w, u, p % 1024);
    }
  }

  lemma ZeroedEntry(ram: seq<Byte>, t: nat, k: nat)
    requires t + 4096 <= |ram| && k < 1024
    ensures Entry(Zeroed(ram, t), t, k) == 0
  {
    GetBytes(Zeroed(ram, t), t + 4 * k);
  }

  lemma WithTableElsewhere(ram: seq<Byte>, pgd: Word, d: nat, t: Word, u: nat, j: nat)
    requires 0 < pgd && pgd % 4096 == 0 && pgd + 4096 <= |ram| && d < 1024
    requires t % 4096 == 0 && t + 4096 <= |ram| && t != pgd
    requires u % 4096 == 0 && u + 4096 <= |ram| && u != t && j < 1024
    ensures Entry(WithTable(ram, pgd, d, t), u, j) ==
            if u == pgd && j == d then t + PRESENT + WRITE else Entry(ram, u, j)
  {
    hide Get32, Put32, Zeroed;
    var m := SetEntry(ram, pgd, d, t + PRESENT + WRITE);
    PagesApart(t, u);
    EntryFrame(m, Zeroed(m, t), u, j);
    if (u, j) != (pgd, d) {
      SetEntryElsewhere(ram, pgd, d, t + PRESENT + WRITE, u, j);
    }
  }

  lemma WithTableDirectory(ram: seq<Byte>, pgd: Word, d: nat, t: Word)
    requires WellFormed(ram, pgd) && d < 1024
    requires Table(ram, pgd, d) == 0 && Fresh(ram, pgd, t)
    ensures var r := WithTable(ram, pgd, d, t);
      && WellFormed(r, pgd)
      && Table(r, pgd, d) == t
      && (forall e :: 0 <= e < 1024 ==>
            Entry(r, pgd, e) == if e == d then t + PRESENT + WRITE else Entry(ram, pgd, e))
  {
    hide Get32, Put32, Zeroed, WithTable;
    var r := WithTable(ram, pgd, d, t);
    forall e | 0 <= e < 1024
      ensures Entry(r, pgd, e) == if e == d then t + PRESENT + WRITE else Entry(ram, pgd, e)
    {
      WithTableElsewhere(ram, pgd, d, t, pgd, e);
    }
    assert Table(r, pgd, d) == t;
    assert forall e :: 0 <= e < 1024 && e != d ==> Table(r, pgd, e) == Table(ram, pgd, e);
  }

  /** Putting a zeroed spare table into an empty slot changes no page at all. */
  lemma WithTableChangesNoPage(ram: seq<Byte>, pgd: Word, d: nat, t: Word, p: nat)
    requires WellFormed(ram, pgd) && d < 1024 && p < 0x10_0000
    requires Table(ram, pgd, d) == 0 && Fresh(ram, pgd, t)
    ensures var r := WithTable(ram, pgd, d, t);
      WellFormed(r, pgd) && Pte(r, pgd, p) == Pte(ram, pgd, p)
  {
    hide Get32, Put32, Zeroed;
    WithTableDirectory(ram, pgd, d, t);
    var u := Table(ram, pgd, p / 1024);
    if p / 1024 == d {
      ZeroedEntry(SetEntry(ram, pgd, d, t + PRESENT + WRITE), t, p % 1024);
    } else if u != 0 {
      WithTableElsewhere(ram, pgd, d, t, u, p % 1024);
    }
  }

  /** `map` changes exactly one page, with or without a new table. */
  lemma MapChangesOnePage(ram: seq<Byte>, pgd: Word, va: Word, pa: Word, flags: nat, spare: Word)
    requires WellFormed(ram, pgd) && flags < 4096
    requires Table(ram, pgd, PgdIndex(va)) == 0 ==> Fresh(ram, pgd, spare)
    ensures var r := MapBytes(ram, pgd, va, pa, flags, spare);
      && WellFormed(r, pgd)
      && (forall d :: 0 <= d < 1024 ==>
            Entry(r, pgd, d) ==
            if d == PgdIndex(va) && Table(ram, pgd, d) == 0 then spare + PRESENT + WRITE else Entry(ram, pgd, d))
      && (forall p :: 0 <= p < 0x10_0000 ==>
            Pte(r, pgd, p) == if p == PageOf(va) then PageBase(pa) + flags else Pte(ram, pgd, p))
  {
    hide Get32, Put32, SetEntry, WithTable;
    var d := PgdIndex(va);
    if Table(ram, pgd, d) == 0 {
      WithTableDirectory(ram, pgd, d, spare);
      forall p | 0 <= p < 0x10_0000
        ensures Pte(WithTable(ram, pgd, d, spare), pgd, p) == Pte(ram, pgd, p)
      {
        WithTableChangesNoPage(ram, pgd, d, spare, p);
      }
      SetEntryChangesOnePage(WithTable(ram, pgd, d, spare), pgd, PageOf(va), PageBase(pa) + flags);
    } else {
      SetEntryChangesOnePage(ram, pgd, PageOf(va), PageBase(pa) + flags);
    }
  }

  /** `unmap` empties exactly one page and keeps the directory. */
  lemma UnmapRemovesOnePage(ram: seq<Byte>, pgd: Word, va: Word)
    requires WellFormed(ram, pgd)
    ensures var r := UnmapBytes(ram, pgd, va);
      && WellFormed(r, pgd)
      && (forall d :: 0 <= d < 1024 ==> Entry(r, pgd, d) == Entry(ram, pgd, d))
      && (forall p :: 0 <= p < 0x10_0000 ==>
            Pte(r, pgd, p) == if p == PageOf(va) then 0 else Pte(ram, pgd, p))
  {
    if Table(ram, pgd, PgdIndex(va)) != 0 {
      SetEntryChangesOnePage(ram, pgd, PageOf(va), 0);
    }
  }

  /** Which bytes `map` may touch: the directory and the one table, old or new. */
  lemma MapTouches(ram: seq<Byte>, pgd: Word, va: Word, pa: Word, flags: nat, spare: Word, i: nat)
    requires WellFormed(ram, pgd) && flags < 4096
    requires Table(ram, pgd, PgdIndex(va)) == 0 ==> Fresh(ram, pgd, spare)
    requires i < |ram| && !(pgd <= i < pgd + 4096)
    requires var t := Table(ram, pgd, PgdIndex(va));
             var u := if t == 0 then spare else t;
             !(u <= i < u + 4096)
    ensures MapBytes(ram, pgd, va, pa, flags, spare)[i] == ram[i]
  {
  }
}

/** The part of the 386 the interrupt stubs and the context switch use: registers, a flat byte
    memory, and the assembly routines instruction by instruction. */
module Cpu {
  import opened Words

  type Half = x: int | 0 <= x < 0x1_0000

  const KERNEL_DS: Half := 0x10
  const IF := 0x200               // interrupt enable flag
  const ADDRESS_SPACE := 0x1_0000_0000

  datatype Regs = Regs(
    eax: Word, ecx: Word, edx: Word, ebx: Word, esp: Word, ebp: Word, esi: Word, edi: Word,
    eip: Word, eflags: Word, cs: Half, ds: Half, es: Half, fs: Half, gs: Half, ss: Half)

  datatype Machine = Machine(r: Regs, mem: seq<Byte>)

  predicate Enabled(flags: Word) {
    flags / IF % 2 == 1
  }

  /** What an interrupt gate and `cli` do to the flags. */
  function Disabled(flags: Word): (f: Word)
    ensures !Enabled(f)
  {
    if Enabled(flags) then flags - IF else flags
  }

  /** Replace the low 16 bits: `mov ax, x`. */
  function WithLow(w: Word, x: Half): Word {
    w / 0x1_0000 * 0x1_0000 + x
  }

  function Low(w: Word): Half {
    w % 0x1_0000
  }

  // ----- pushing

  /** Memory after the words `vs` have been pushed, first one first, from stack pointer `sp`. */
  function PushAll(mem: seq<Byte>, sp: nat, vs: seq<Word>): (r: seq<Byte>)
    requires 4 * |vs| <= sp <= |mem|
    ensures |r| == |mem|
  {
    if vs == [] then mem
    else Put32(PushAll(mem, sp, vs[..|vs| - 1]), sp - 4 * |vs|, vs[|vs| - 1])
  }

  lemma PushNone(mem: seq<Byte>, sp: nat)
    requires sp <= |mem|
    ensures PushAll(mem, sp, []) == mem
  {
  }

  lemma PushOne(mem: seq<Byte>, sp: nat, vs: seq<Word>, v: Word)
    requires 4 * |vs| + 4 <= sp <= |mem|
    ensures PushAll(mem, sp, vs + [v]) == Put32(PushAll(mem, sp, vs), sp - 4 * |vs| - 4, v)
  {
    assert (vs + [v])[..|vs|] == vs;
  }

  /** Pushed words are found where they were pushed, and nothing else has changed. */
  lemma {:induction false} PushedAt(mem: seq<Byte>, sp: nat, vs: seq<Word>)
    requires 4 * |vs| <= sp <= |mem|
    ensures var r := PushAll(mem, sp, vs);
      && (forall i :: 0 <= i < |vs| ==> Get32(r, sp - 4 * (i + 1)) == vs[i])
      && (forall a :: 0 <= a < |mem| && !(sp - 4 * |vs| <= a < sp) ==> r[a] == mem[a])
  {
    if vs != [] {
      var n := |vs| - 1;
      var before := PushAll(mem, sp, vs[..n]);
      PushedAt(mem, sp, vs[..n]);
      forall i | 0 <= i < n
        ensures Get32(PushAll(mem, sp, vs), sp - 4 * (i + 1)) == vs[i]
      {
        Get32AfterPut32(before, sp - 4 * |vs|, vs[n], sp - 4 * (i + 1));
        assert vs[..n][i] == vs[i];
      }
    }
  }

  // ----- interrupt entry and exit

  /** The words on the stack when `irq_handler` or `isr_handler` is called: what the processor
      pushed, the error code and number, `pusha`, the data selector, the pt_regs pointer. */
  function InterruptFrame(u: Regs, err: Word, number: Word): seq<Word>
    requires 60 <= u.esp
  {
    [u.eflags, u.cs, u.eip, err, number,
     u.eax, u.ecx, u.edx, u.ebx, u.esp - 20, u.ebp, u.esi, u.edi,
     WithLow(u.eax, u.ds), u.esp - 56]
  }

  /** From the interrupted instruction to the call of the handler, through the interrupt gate, the
      entry macro and the first half of the common stub. */
  function Enter(m: Machine, err: Word, number: Word, entry: Word): (e: Machine)
    requires 60 <= m.r.esp <= |m.mem|
    ensures |e.mem| == |m.mem|
  {
    Machine(m.r.(esp := m.r.esp - 60, eip := entry, eflags := Disabled(m.r.eflags),
                 eax := WithLow(m.r.eax, KERNEL_DS),
                 ds := KERNEL_DS, es := KERNEL_DS, fs := KERNEL_DS, gs := KERNEL_DS, ss := KERNEL_DS),
            PushAll(m.mem, m.r.esp, InterruptFrame(m.r, err, number)))
  }

  /** From the handler's return to the interrupted instruction: the second half of the common stub
      and `iret`. */
  function Leave(m: Machine): Machine
    requires m.r.esp + 60 <= |m.mem| && m.r.esp + 60 < ADDRESS_SPACE
  {
    var s, mem := m.r.esp, m.mem;
    var sel := Low(Get32(mem, s + 4));
    Machine(m.r.(edi := Get32(mem, s + 8), esi := Get32(mem, s + 12), ebp := Get32(mem, s + 16),
                 ebx := Get32(mem, s + 24), edx := Get32(mem, s + 28), ecx := Get32(mem, s + 32),
                 eax := Get32(mem, s + 36), eip := Get32(mem, s + 48), cs := Low(Get32(mem, s + 52)),
                 eflags := Get32(mem, s + 56), esp := s + 60,
                 ds := sel, es := sel, fs := sel, gs := sel, ss := sel),
            mem)
  }

  /** The saved registers of `u` lie at `s`, as the stub left them when it called the handler. */
  predicate FrameAt(mem: seq<Byte>, s: nat, u: Regs)
    requires s + 60 <= |mem|
  {
    && Get32(mem, s + 4) == WithLow(u.eax, u.ds)
    && Get32(mem, s + 8) == u.edi && Get32(mem, s + 12) == u.esi
    && Get32(mem, s + 16) == u.ebp && Get32(mem, s + 24) == u.ebx
    && Get32(mem, s + 28) == u.edx && Get32(mem, s + 32) == u.ecx && Get32(mem, s + 36) == u.eax
    && Get32(mem, s + 48) == u.eip && Get32(mem, s + 52) == u.cs && Get32(mem, s + 56) == u.eflags
  }

  predicate FlatSegments(u: Regs) {
    u.ds == u.es == u.fs == u.gs == u.ss
  }

  lemma EnterSavesRegisters(m: Machine, err: Word, number: Word, entry: Word)
    requires 60 <= m.r.esp <= |m.mem|
    ensures FrameAt(Enter(m, err, number, entry).mem, m.r.esp - 60, m.r)
  {
    hide PushAll, Get32, InterruptFrame;
    var sp, r := m.r.esp, Enter(m, err, number, entry).mem;
    FrameWord(m, err, number, 0);
    FrameWord(m, err, number, 1);
    FrameWord(m, err, number, 2);
    FrameWord(m, err, number, 5);
    FrameWord(m, err, number, 6);
    FrameWord(m, err, number, 7);
    FrameWord(m, err, number, 8);
    FrameWord(m, err, number, 10);
    FrameWord(m, err, number, 11);
    FrameWord(m, err, number, 12);
    FrameWord(m, err, number, 13);
    FrameWords(m.r, err, number);
  }

  lemma FrameWord(m: Machine, err: Word, number: Word, i: nat)
    requires 60 <= m.r.esp <= |m.mem| && i < 15
    ensures Get32(PushAll(m.mem, m.r.esp, InterruptFrame(m.r, err, number)), m.r.esp - 4 * i - 4) ==
            InterruptFrame(m.r, err, number)[i]
  {
    hide PushAll, Get32;
    PushedAt(m.mem, m.r.esp, InterruptFrame(m.r, err, number));
    hide InterruptFrame;
    assert m.r.esp - 4 * i - 4 == m.r.esp - 4 * (i + 1);
  }

  lemma FrameWords(u: Regs, err: Word, number: Word)
    requires 60 <= u.esp
    ensures var vs := InterruptFrame(u, err, number);
      && vs[0] == u.eflags && vs[1] == u.cs && vs[2] == u.eip
      && vs[5] == u.eax && vs[6] == u.ecx && vs[7] == u.edx && vs[8] == u.ebx
      && vs[10] == u.ebp && vs[11] == u.esi && vs[12] == u.edi && vs[13] == WithLow(u.eax, u.ds)
  {
  }

  /** What the handler finds: above its return address the address of the registers, which lie there in
      the order of `pt_regs`; kernel selectors and interrupts off. */
  lemma HandlerSeesFrame(m: Machine, err: Word, number: Word, entry: Word)
    requires 60 <= m.r.esp <= |m.mem|
    ensures var e, u := Enter(m, err, number, entry), m.r;
      var regs := Get32(e.mem, e.r.esp);
      && e.r.esp == u.esp - 60 && regs == u.esp - 56 && e.r.eip == entry
      && Get32(e.mem, regs) == u.eax / 0x1_0000 * 0x1_0000 + u.ds && Get32(e.mem, regs + 4) == u.edi
      && Get32(e.mem, regs + 8) == u.esi && Get32(e.mem, regs + 12) == u.ebp
      && Get32(e.mem, regs + 16) == u.esp - 20 && Get32(e.mem, regs + 20) == u.ebx
      && Get32(e.mem, regs + 24) == u.edx && Get32(e.mem, regs + 28) == u.ecx
      && Get32(e.mem, regs + 32) == u.eax && Get32(e.mem, regs + 36) == number && Get32(e.mem, regs + 40) == err
      && Get32(e.mem, regs + 44) == u.eip && Get32(e.mem, regs + 48) == u.cs && Get32(e.mem, regs + 52) == u.eflags
      && e.r.ds == e.r.es == e.r.fs == e.r.gs == e.r.ss == 0x10
      && e.r.eflags == if u.eflags / 0x200 % 2 == 1 then u.eflags - 0x200 else u.eflags
  {
    hide PushAll, Get32, InterruptFrame;
    EnterSavesRegisters(m, err, number, entry);
    FrameWord(m, err, number, 3);
    FrameWord(m, err, number, 4);
    FrameWord(m, err, number, 9);
    FrameWord(m, err, number, 14);
    OtherWords(m.r, err, number);
  }

  lemma OtherWords(u: Regs, err: Word, number: Word)
    requires 60 <= u.esp
    ensures var vs := InterruptFrame(u, err, number);
      vs[3] == err && vs[4] == number && vs[9] == u.esp - 20 && vs[14] == u.esp - 56
  {
  }

  /** Entering an interrupt writes only the 60 bytes below the stack pointer. */
  lemma EnterWritesBelow(m: Machine, err: Word, number: Word, entry: Word)
    requires 60 <= m.r.esp <= |m.mem|
    ensures forall a :: 0 <= a < |m.mem| && !(m.r.esp - 60 <= a < m.r.esp) ==>
      Enter(m, err, number, entry).mem[a] == m.mem[a]
  {
    PushedAt(m.mem, m.r.esp, InterruptFrame(m.r, err, number));
  }

  lemma FrameStays(mem: seq<Byte>, later: seq<Byte>, s: nat, u: Regs)
    requires s + 60 <= |mem| == |later| && FrameAt(mem, s, u)
    requires forall a :: s <= a < s + 60 ==> later[a] == mem[a]
    ensures FrameAt(later, s, u)
  {
    hide Get32;
    SameWord(mem, later, s, 4);
    SameWord(mem, later, s, 8);
    SameWord(mem, later, s, 12);
    SameWord(mem, later, s, 16);
    SameWord(mem, later, s, 24);
    SameWord(mem, later, s, 28);
    SameWord(mem, later, s, 32);
    SameWord(mem, later, s, 36);
    SameWord(mem, later, s, 48);
    SameWord(mem, later, s, 52);
    SameWord(mem, later, s, 56);
  }

  lemma SameWord(mem: seq<Byte>, later: seq<Byte>, s: nat, d: nat)
    requires s + 60 <= |mem| == |later| && d <= 56
    requires forall a :: s <= a < s + 60 ==> later[a] == mem[a]
    ensures Get32(later, s + d) == Get32(mem, s + d)
  {
    Get32Frame(later, mem, s + d);
  }

  /** Leaving through a saved frame restores every register. */
  lemma LeaveRestores(h: Machine, u: Regs)
    requires h.r.esp + 60 == u.esp && u.esp <= |h.mem|
    requires FrameAt(h.mem, h.r.esp, u) && FlatSegments(u)
    ensures Leave(h) == Machine(u, h.mem)
  {
    hide Get32;
    assert Low(WithLow(u.eax, u.ds)) == u.ds;
  }

  /** Whatever ran in between, if it left the stack from the frame up alone, the interrupted code
      finds its registers as they were. The stub saves one selector for all five data segments, so
      this includes the selectors if and only if they were equal. */
  lemma LeaveUndoesEnter(m: Machine, err: Word, number: Word, entry: Word, h: Machine)
    requires 60 <= m.r.esp <= |m.mem| == |h.mem|
    requires h.r.esp == m.r.esp - 60
    requires var e := Enter(m, err, number, entry);
             forall a :: h.r.esp <= a < m.r.esp ==> h.mem[a] == e.mem[a]
    ensures var ds := m.r.ds;
      Leave(h) == Machine(m.r.(es := ds, fs := ds, gs := ds, ss := ds), h.mem)
    ensures Leave(h).r == m.r <==> FlatSegments(m.r)
  {
    hide FrameAt, Leave, PushAll;
    EnterSavesRegisters(m, err, number, entry);
    FrameStays(Enter(m, err, number, entry).mem, h.mem, h.r.esp, m.r);
    var flat := m.r.(es := m.r.ds, fs := m.r.ds, gs := m.r.ds, ss := m.r.ds);
    assert FrameAt(h.mem, h.r.esp, flat) by { SameFrame(h.mem, h.r.esp, m.r); }
    LeaveRestores(h, flat);
  }

  /** The frame holds nothing of the other four selectors. */
  lemma SameFrame(mem: seq<Byte>, s: nat, u: Regs)
    requires s + 60 <= |mem| && FrameAt(mem, s, u)
    ensures FrameAt(mem, s, u.(es := u.ds, fs := u.ds, gs := u.ds, ss := u.ds))
  {
  }

  // ----- the context switch

  /** `struct context` at address `c` holds the callee-saved registers and flags of `r`. */
  predicate ContextAt(mem: seq<Byte>, c: nat, r: Regs)
    requires c + 24 <= |mem|
  {
    && Get32(mem, c) == r.esp && Get32(mem, c + 4) == r.ebp && Get32(mem, c + 8) == r.ebx
    && Get32(mem, c + 12) == r.esi && Get32(mem, c + 16) == r.edi && Get32(mem, c + 20) == r.eflags
  }

  /** Memory after the words `ws` have been stored at `c`, `c + 4` and so on, in that order. */
  function PutWords(mem: seq<Byte>, c: nat, ws: seq<Word>): (r: seq<Byte>)
    requires c + 4 * |ws| <= |mem|
    ensures |r| == |mem|
  {
    if ws == [] then mem
    else Put32(PutWords(mem, c, ws[..|ws| - 1]), c + 4 * (|ws| - 1), ws[|ws| - 1])
  }

  lemma {:induction false} PutWordsAt(mem: seq<Byte>, c: nat, ws: seq<Word>)
    requires c + 4 * |ws| <= |mem|
    ensures var r := PutWords(mem, c, ws);
      && (forall i :: 0 <= i < |ws| ==> Get32(r, c + 4 * i) == ws[i])
      && (forall a :: 0 <= a < |mem| && !(c <= a < c + 4 * |ws|) ==> r[a] == mem[a])
  {
    if ws != [] {
      var n := |ws| - 1;
      var before := PutWords(mem, c, ws[..n]);
      PutWordsAt(mem, c, ws[..n]);
      forall i | 0 <= i < n
        ensures Get32(PutWords(mem, c, ws), c + 4 * i) == ws[i]
      {
        Get32AfterPut32(before, c + 4 * n, ws[n], c + 4 * i);
        assert ws[..n][i] == ws[i];
      }
    }
  }

  /** The first half of `switch_to`: store the registers at `c`; `pushf` leaves its word below the
      stack pointer. */
  function SaveContext(mem: seq<Byte>, c: nat, r: Regs): (s: seq<Byte>)
    requires c + 24 <= |mem| && 4 <= r.esp <= |mem|
    ensures |s| == |mem|
  {
    var m1 := PutWords(mem, c, [r.esp, r.ebp, r.ebx, r.esi, r.edi]);
    var m2 := Put32(m1, r.esp - 4, r.eflags);
    Put32(m2, c + 20, r.eflags)
  }

  /** The second half up to its last instruction, the `ret`: load the registers at `c` and pass the
      flags through the new stack. */
  function LoadContext(mem: seq<Byte>, c: nat, r: Regs): (m: Machine)
    requires c + 24 <= |mem|
    requires var sp := Get32(mem, c); 4 <= sp && sp + 4 <= |mem| && sp + 4 < ADDRESS_SPACE
    ensures |m.mem| == |mem| && m.r.esp == Get32(mem, c)
  {
    var sp, flags := Get32(mem, c), Get32(mem, c + 20);
    var pushed := Put32(mem, sp - 4, flags);
    Machine(r.(esp := sp, ebp := Get32(mem, c + 4), ebx := Get32(mem, c + 8),
               esi := Get32(mem, c + 12), edi := Get32(mem, c + 16),
               eax := flags, ecx := r.eflags, eflags := flags),
            pushed)
  }

  /** `ret`. */
  function Ret(m: Machine): (n: Machine)
    requires m.r.esp + 4 <= |m.mem| && m.r.esp + 4 < ADDRESS_SPACE
    ensures n.mem == m.mem
  {
    m.(r := m.r.(esp := m.r.esp + 4, eip := Get32(m.mem, m.r.esp)))
  }

  /** `switch_to` finds its two arguments above the return address. */
  predicate CanSwitch(m: Machine) {
    && 4 <= m.r.esp && m.r.esp + 12 <= |m.mem|
    && var prev := Get32(m.mem, m.r.esp + 4);
    && prev + 24 <= |m.mem|
    && var saved := SaveContext(m.mem, prev, m.r);
    && var next := Get32(saved, m.r.esp + 8);
    && next + 24 <= |m.mem|
    && var sp := Get32(saved, next);
    && 4 <= sp && sp + 4 <= |m.mem| && sp + 4 < ADDRESS_SPACE
  }

  /** `switch_to` up to its `ret`. */
  function SwitchTo(m: Machine): (n: Machine)
    requires CanSwitch(m)
    ensures |n.mem| == |m.mem| && n.r.esp + 4 <= |n.mem| && n.r.esp + 4 < ADDRESS_SPACE
  {
    var saved := SaveContext(m.mem, Get32(m.mem, m.r.esp + 4), m.r);
    LoadContext(saved, Get32(saved, m.r.esp + 8), m.r)
  }

  /** The seven stores of `switch_to`, one by one. */
  lemma SaveInSteps(mem: seq<Byte>, c: nat, r: Regs)
    requires c + 24 <= |mem| && 4 <= r.esp <= |mem|
    ensures var a1 := Put32(mem, c, r.esp);
      var a2 := Put32(a1, c + 4, r.ebp);
      var a3 := Put32(a2, c + 8, r.ebx);
      var a4 := Put32(a3, c + 12, r.esi);
      var a5 := Put32(a4, c + 16, r.edi);
      SaveContext(mem, c, r) == Put32(Put32(a5, r.esp - 4, r.eflags), c + 20, r.eflags)
  {
    hide Put32, PutWords;
    PutFive(mem, c, r.esp, r.ebp, r.ebx, r.esi, r.edi);
  }

  lemma PutFive(mem: seq<Byte>, c: nat, v1: Word, v2: Word, v3: Word, v4: Word, v5: Word)
    requires c + 20 <= |mem|
    ensures PutWords(mem, c, [v1, v2, v3, v4, v5]) ==
      Put32(Put32(Put32(Put32(Put32(mem, c, v1), c + 4, v2), c + 8, v3), c + 12, v4), c + 16, v5)
  {
    hide Put32, PutWords;
    PutNone(mem, c);
    PutOne(mem, c, [], v1);
    PutOne(mem, c, [v1], v2);
    PutOne(mem, c, [v1, v2], v3);
    PutOne(mem, c, [v1, v2, v3], v4);
    PutOne(mem, c, [v1, v2, v3, v4], v5);
    assert [] + [v1] == [v1];
    assert [v1] + [v2] == [v1, v2];
    assert [v1, v2] + [v3] == [v1, v2, v3];
    assert [v1, v2, v3] + [v4] == [v1, v2, v3, v4];
    assert [v1, v2, v3, v4] + [v5] == [v1, v2, v3, v4, v5];
  }

  lemma PutNone(mem: seq<Byte>, c: nat)
    requires c <= |mem|
    ensures PutWords(mem, c, []) == mem
  {
  }

  lemma PutOne(mem: seq<Byte>, c: nat, ws: seq<Word>, w: Word)
    requires c + 4 * |ws| + 4 <= |mem|
    ensures PutWords(mem, c, ws + [w]) == Put32(PutWords(mem, c, ws), c + 4 * |ws|, w)
  {
    assert (ws + [w])[..|ws|] == ws;
  }

  lemma SavedWord(mem: seq<Byte>, c: nat, r: Regs, i: nat)
    requires c + 24 <= |mem| && 4 <= r.esp <= |mem| && i < 5
    requires r.esp <= c || c + 24 <= r.esp - 4
    ensures Get32(SaveContext(mem, c, r), c + 4 * i) == [r.esp, r.ebp, r.ebx, r.esi, r.edi][i]
  {
    hide Get32, Put32, PutWords;
    var ws := [r.esp, r.ebp, r.ebx, r.esi, r.edi];
    var m1 := PutWords(mem, c, ws);
    PutWordsAt(mem, c, ws);
    Get32AfterPut32(m1, r.esp - 4, r.eflags, c + 4 * i);
    Get32AfterPut32(Put32(m1, r.esp - 4, r.eflags), c + 20, r.eflags, c + 4 * i);
  }

  lemma SaveContextSaves(mem: seq<Byte>, c: nat, r: Regs)
    requires c + 24 <= |mem| && 4 <= r.esp <= |mem|
    requires r.esp <= c || c + 24 <= r.esp - 4
    ensures ContextAt(SaveContext(mem, c, r), c, r)
  {
    hide Get32;
    SavedWord(mem, c, r, 0);
    SavedWord(mem, c, r, 1);
    SavedWord(mem, c, r, 2);
    SavedWord(mem, c, r, 3);
    SavedWord(mem, c, r, 4);
  }

  /** A context is esp, ebp, ebx, esi, edi and eflags, in this order, both when it is saved and when it
      is loaded. */
  lemma ContextLayout(mem: seq<Byte>, c: nat, r: Regs)
    requires c + 24 <= |mem| && 4 <= r.esp <= |mem|
    requires r.esp <= c || c + 24 <= r.esp - 4
    requires var sp := Get32(mem, c); 4 <= sp && sp + 4 <= |mem| && sp + 4 < ADDRESS_SPACE
    ensures var s := SaveContext(mem, c, r);
      && Get32(s, c) == r.esp && Get32(s, c + 4) == r.ebp && Get32(s, c + 8) == r.ebx
      && Get32(s, c + 12) == r.esi && Get32(s, c + 16) == r.edi && Get32(s, c + 20) == r.eflags
    ensures var n := LoadContext(mem, c, r).r;
      && n.esp == Get32(mem, c) && n.ebp == Get32(mem, c + 4) && n.ebx == Get32(mem, c + 8)
      && n.esi == Get32(mem, c + 12) && n.edi == Get32(mem, c + 16) && n.eflags == Get32(mem, c + 20)
  {
    hide Get32;
    SaveContextSaves(mem, c, r);
  }

  lemma SaveContextWrites(mem: seq<Byte>, c: nat, r: Regs)
    requires c + 24 <= |mem| && 4 <= r.esp <= |mem|
    ensures forall a :: 0 <= a < |mem| && !(c <= a < c + 24) && !(r.esp - 4 <= a < r.esp) ==>
      SaveContext(mem, c, r)[a] == mem[a]
  {
    hide Get32;
    PutWordsAt(mem, c, [r.esp, r.ebp, r.ebx, r.esi, r.edi]);
  }

  lemma LoadContextWrites(mem: seq<Byte>, c: nat, r: Regs)
    requires c + 24 <= |mem|
    requires var sp := Get32(mem, c); 4 <= sp && sp + 4 <= |mem| && sp + 4 < ADDRESS_SPACE
    ensures var sp := Get32(mem, c);
      forall a :: 0 <= a < |mem| && !(sp - 4 <= a < sp) ==> LoadContext(mem, c, r).mem[a] == mem[a]
  {
    hide Get32;
  }

  lemma ContextStays(mem: seq<Byte>, later: seq<Byte>, c: nat, r: Regs)
    requires c + 24 <= |mem| == |later| && ContextAt(mem, c, r)
    requires forall a :: c <= a < c + 24 ==> later[a] == mem[a]
    ensures ContextAt(later, c, r)
  {
    hide Get32;
    Get32Frame(later, mem, c);
    Get32Frame(later, mem, c + 4);
    Get32Frame(later, mem, c + 8);
    Get32Frame(later, mem, c + 12);
    Get32Frame(later, mem, c + 16);
    Get32Frame(later, mem, c + 20);
  }

  /** To its caller `switch_to` is an ordinary function that returns: when a later switch loads the
      context it saved, it comes back to the return address with the stack pointer past it and with
      ebp, ebx, esi, edi and the flags as they were. */
  lemma SwitchComesBack(m: Machine, k: Machine)
    requires CanSwitch(m) && CanSwitch(k) && |m.mem| == |k.mem| == ADDRESS_SPACE
    requires var c := Get32(m.mem, m.r.esp + 4);
      && (m.r.esp <= c || c + 24 <= m.r.esp - 4)
      && var saved := SaveContext(k.mem, Get32(k.mem, k.r.esp + 4), k.r);
      && Get32(saved, k.r.esp + 8) == c
      && (forall a :: c <= a < c + 24 ==> saved[a] == SaveContext(m.mem, c, m.r)[a])
      && (forall a :: m.r.esp <= a < m.r.esp + 4 ==> saved[a] == m.mem[a])
    ensures var n := Ret(SwitchTo(k));
      && n.r.esp == m.r.esp + 4 && n.r.eip == Get32(m.mem, m.r.esp)
      && n.r.ebp == m.r.ebp && n.r.ebx == m.r.ebx && n.r.esi == m.r.esi && n.r.edi == m.r.edi
      && n.r.eflags == m.r.eflags
  {
    hide Get32, Put32;
    var c := Get32(m.mem, m.r.esp + 4);
    var saved := SaveContext(k.mem, Get32(k.mem, k.r.esp + 4), k.r);
    SaveContextSaves(m.mem, c, m.r);
    ContextStays(SaveContext(m.mem, c, m.r), saved, c, m.r);
    var pushed := Put32(saved, m.r.esp - 4, m.r.eflags);
    Get32Frame(pushed, m.mem, m.r.esp);
  }
}

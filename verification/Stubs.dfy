/** The interrupt stubs and `switch_to` as instruction sequences on a processor. */
module Stubs {
  import opened Words
  import opened Cpu

  class Processor {
    var r: Regs
    var mem: seq<Byte>
    ghost var stack: seq<Byte>      // memory when the current run of pushes began
    ghost var base: nat             // stack pointer at that time
    ghost var pushed: seq<Word>     // words pushed since

    ghost function State(): Machine
      reads `r, `mem
    {
      Machine(r, mem)
    }

    ghost predicate Tracking()
      reads `stack, `base, `pushed, `mem, `r
    {
      && 4 * |pushed| <= base <= |stack| && |mem| == |stack|
      && r.esp == base - 4 * |pushed|
      && mem == PushAll(stack, base, pushed)
    }

    constructor (m: Machine)
      ensures State() == m
    {
      r, mem := m.r, m.mem;
      stack, base, pushed := [], 0, [];
    }

    method Push(v: Word)
      requires Tracking() && 4 <= r.esp
      modifies `r, `mem, `pushed
      ensures Tracking() && pushed == old(pushed) + [v]
      ensures r == old(r).(esp := old(r).esp - 4)
    {
      hide PushAll, Put32;
      PushOne(stack, base, pushed, v);
      mem := Put32(mem, r.esp - 4, v);
      r := r.(esp := r.esp - 4);
      pushed := pushed + [v];
    }

    method Pop() returns (v: Word)
      requires r.esp + 4 <= |mem| && r.esp + 4 < ADDRESS_SPACE
      modifies `r
      ensures v == Get32(mem, old(r).esp) && r == old(r).(esp := old(r).esp + 4)
    {
      v := Get32(mem, r.esp);
      r := r.(esp := r.esp + 4);
    }

    /** `mov ax, x`. */
    method SetAx(x: Half)
      modifies `r
      ensures r == old(r).(eax := WithLow(old(r).eax, x))
      ensures old(Tracking()) ==> Tracking()
    {
      r := r.(eax := r.eax / 0x1_0000 * 0x1_0000 + x);
    }

    method LoadSegments(x: Half)
      modifies `r
      ensures r == old(r).(ds := x, es := x, fs := x, gs := x, ss := x)
      ensures old(Tracking()) ==> Tracking()
    {
      r := r.(ds := x);
      r := r.(es := x);
      r := r.(fs := x);
      r := r.(gs := x);
      r := r.(ss := x);
    }

    /** The processor takes an interrupt through a gate at the same privilege level; some exceptions
        push an error code of their own. */
    method Accept(code: seq<Word>)
      requires 16 <= r.esp <= |mem| && |code| <= 1
      modifies this
      ensures Tracking() && stack == old(mem) && base == old(r).esp
      ensures pushed == [old(r).eflags, old(r).cs, old(r).eip] + code
      ensures r == old(r).(eflags := Disabled(old(r).eflags), esp := old(r).esp - 12 - 4 * |code|)
    {
      hide PushAll;
      stack, base, pushed := mem, r.esp, [];
      PushNone(mem, r.esp);
      Push(r.eflags);
      Push(r.cs);
      Push(r.eip);
      if |code| == 1 {
        Push(code[0]);
      }
      r := r.(eflags := Disabled(r.eflags));
    }

    /** `cli`. */
    method Cli()
      requires Tracking()
      modifies `r
      ensures Tracking() && r == old(r).(eflags := Disabled(old(r).eflags))
    {
      r := r.(eflags := Disabled(r.eflags));
    }

    /** IRQ and ISR_NOERRCODE: a zero in place of the error code, then the number. */
    method EntryWithoutCode(number: Word)
      requires Tracking() && 8 <= r.esp
      modifies `r, `mem, `pushed
      ensures Tracking() && pushed == old(pushed) + [0, number]
      ensures r == old(r).(eflags := Disabled(old(r).eflags), esp := old(r).esp - 8)
    {
      hide Tracking;
      Cli();
      Push(0);
      Push(number);
    }

    /** ISR_ERRCODE: the processor has pushed the error code already. */
    method EntryWithCode(number: Word)
      requires Tracking() && 4 <= r.esp
      modifies `r, `mem, `pushed
      ensures Tracking() && pushed == old(pushed) + [number]
      ensures r == old(r).(eflags := Disabled(old(r).eflags), esp := old(r).esp - 4)
    {
      hide Tracking;
      Cli();
      Push(number);
    }

    /** `pusha`: the stack pointer is pushed as it was before the instruction. */
    method PushA()
      requires Tracking() && 32 <= r.esp
      modifies `r, `mem, `pushed
      ensures Tracking() && r == old(r).(esp := old(r).esp - 32)
      ensures var u := old(r);
        pushed == old(pushed) + [u.eax, u.ecx, u.edx, u.ebx, u.esp, u.ebp, u.esi, u.edi]
    {
      hide Tracking;
      var before := r.esp;
      Push(r.eax);
      Push(r.ecx);
      Push(r.edx);
      Push(r.ebx);
      Push(before);
      Push(r.ebp);
      Push(r.esi);
      Push(r.edi);
    }

    /** The common stub up to the call of the handler at `handler`. */
    method StubIn(handler: Word)
      requires Tracking() && 40 <= r.esp
      modifies `r, `mem, `pushed
      ensures Tracking()
      ensures var u := old(r);
        && pushed == old(pushed) + [u.eax, u.ecx, u.edx, u.ebx, u.esp, u.ebp, u.esi, u.edi,
                                    WithLow(u.eax, u.ds), u.esp - 36]
        && r == u.(eax := WithLow(u.eax, KERNEL_DS), esp := u.esp - 40, eip := handler,
                   ds := KERNEL_DS, es := KERNEL_DS, fs := KERNEL_DS, gs := KERNEL_DS, ss := KERNEL_DS)
    {
      hide Tracking;
      PushA();
      SetAx(r.ds);
      Push(r.eax);
      SetAx(KERNEL_DS);
      LoadSegments(Low(r.eax));
      Push(r.esp);
      Call(handler);
    }

    method Call(handler: Word)
      requires Tracking()
      modifies `r
      ensures Tracking() && r == old(r).(eip := handler)
    {
      r := r.(eip := handler);
    }

    /** `popa`: the stored stack pointer is skipped. */
    method PopA()
      requires r.esp + 32 <= |mem| == ADDRESS_SPACE && r.esp + 32 < ADDRESS_SPACE
      modifies `r
      ensures var s := old(r).esp;
        r == old(r).(edi := Get32(mem, s), esi := Get32(mem, s + 4), ebp := Get32(mem, s + 8),
                     ebx := Get32(mem, s + 16), edx := Get32(mem, s + 20), ecx := Get32(mem, s + 24),
                     eax := Get32(mem, s + 28), esp := s + 32)
    {
      hide Get32;
      var edi := Pop();
      var esi := Pop();
      var ebp := Pop();
      r := r.(esp := r.esp + 4);
      var ebx := Pop();
      var edx := Pop();
      var ecx := Pop();
      var eax := Pop();
      r := r.(edi := edi, esi := esi, ebp := ebp, ebx := ebx, edx := edx, ecx := ecx, eax := eax);
    }

    /** The common stub after the handler has returned, and `iret`. */
    method StubOut()
      requires r.esp + 60 <= |mem| == ADDRESS_SPACE && r.esp + 60 < ADDRESS_SPACE
      modifies `r
      ensures State() == Leave(old(State()))
    {
      hide Get32;
      r := r.(esp := r.esp + 4);
      var ebx := Pop();
      r := r.(ebx := ebx);
      LoadSegments(Low(r.ebx));
      PopA();
      r := r.(esp := r.esp + 8);
      var eip := Pop();
      var cs := Pop();
      var eflags := Pop();
      r := r.(eip := eip, cs := Low(cs), eflags := eflags);
    }

    /** A hardware interrupt, up to the call of `irq_handler`. */
    method EnterIrq(number: Word, handler: Word)
      requires 60 <= r.esp <= |mem|
      modifies this
      ensures State() == Enter(old(State()), 0, number, handler)
    {
      hide PushAll, WithLow;
      ghost var u := r;
      Accept([]);
      EntryWithoutCode(number);
      StubIn(handler);
      assert pushed == InterruptFrame(u, 0, number);
    }

    /** An exception, up to the call of `isr_handler`: with or without an error code of its own the
        handler finds the same frame. */
    method EnterException(number: Word, hasCode: bool, code: Word, handler: Word)
      requires 60 <= r.esp <= |mem|
      modifies this
      ensures State() == Enter(old(State()), if hasCode then code else 0, number, handler)
    {
      hide PushAll, WithLow;
      ghost var u := r;
      if hasCode {
        Accept([code]);
        EntryWithCode(number);
      } else {
        Accept([]);
        EntryWithoutCode(number);
      }
      StubIn(handler);
      assert pushed == InterruptFrame(u, if hasCode then code else 0, number);
    }

    /** `switch_to` up to the point where the old context is stored. */
    method SwitchOut()
      requires 4 <= r.esp && r.esp + 12 <= |mem| && Get32(mem, r.esp + 4) + 24 <= |mem|
      modifies `r, `mem
      ensures r == old(r).(eax := Get32(old(mem), old(r).esp + 4), ecx := old(r).eflags)
      ensures mem == SaveContext(old(mem), Get32(old(mem), old(r).esp + 4), old(r))
    {
      hide Get32, Put32;
      SaveInSteps(mem, Get32(mem, r.esp + 4), r);
      r := r.(eax := Get32(mem, r.esp + 4));
      mem := Put32(mem, r.eax, r.esp);
      mem := Put32(mem, r.eax + 4, r.ebp);
      mem := Put32(mem, r.eax + 8, r.ebx);
      mem := Put32(mem, r.eax + 12, r.esi);
      mem := Put32(mem, r.eax + 16, r.edi);
      mem := Put32(mem, r.esp - 4, r.eflags);
      r := r.(ecx := r.eflags);
      mem := Put32(mem, r.eax + 20, r.ecx);
    }

    /** The rest of `switch_to` up to its `ret`: load the context the second argument points to. */
    method SwitchIn()
      requires |mem| == ADDRESS_SPACE && r.esp + 12 <= |mem|
      requires var c := Get32(mem, r.esp + 8);
        c + 24 <= |mem| && 4 <= Get32(mem, c) && Get32(mem, c) + 4 < ADDRESS_SPACE
      modifies `r, `mem
      ensures State() == LoadContext(old(mem), Get32(old(mem), old(r).esp + 8), old(r)).(r :=
        LoadContext(old(mem), Get32(old(mem), old(r).esp + 8), old(r)).r.(ecx := old(r).ecx))
    {
      hide Get32, Put32;
      r := r.(eax := Get32(mem, r.esp + 8));
      r := r.(esp := Get32(mem, r.eax));
      r := r.(ebp := Get32(mem, r.eax + 4));
      r := r.(ebx := Get32(mem, r.eax + 8));
      r := r.(esi := Get32(mem, r.eax + 12));
      r := r.(edi := Get32(mem, r.eax + 16));
      r := r.(eax := Get32(mem, r.eax + 20));
      mem := Put32(mem, r.esp - 4, r.eax);
      r := r.(eflags := r.eax);
    }

    /** `ret`. */
    method Return()
      requires r.esp + 4 <= |mem| && r.esp + 4 < ADDRESS_SPACE
      modifies `r
      ensures State() == Ret(old(State()))
    {
      var eip := Pop();
      r := r.(eip := eip);
    }

    /** `switch_to`. */
    method Switch()
      requires CanSwitch(State()) && |mem| == ADDRESS_SPACE
      modifies `r, `mem
      ensures State() == Ret(SwitchTo(old(State())))
    {
      hide Get32, Put32, SaveContext;
      SwitchOut();
      SwitchIn();
      Return();
    }
  }
}

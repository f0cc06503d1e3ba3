/** Timer preemption of a ring of threads on one processor: every thread behaves as if it had the
    processor to itself. */
module Preemption {
  import opened Words
  import opened Cpu
  import opened Threads

  const TIMER := 32     // interrupt number of IRQ 0

  /** The machine, and the blocks of all threads in ring order; `order[cur]` is `current`. */
  datatype Sys = Sys(m: Machine, order: seq<Word>, cur: nat)

  predicate BlocksApart(b: Word, c: Word) {
    b + STACK_SIZE <= c || c + STACK_SIZE <= b
  }

  function After(i: nat, n: nat): (j: nat)
    requires i < n
    ensures j < n
  {
    if i + 1 == n then 0 else i + 1
  }

  predicate AllApart(order: seq<Word>) {
    forall i, j :: 0 <= i < j < |order| ==> BlocksApart(order[i], order[j])
  }

  /** The ring of blocks `order`, closed through the `next` fields. */
  ghost predicate RingIs(mem: seq<Byte>, order: seq<Word>)
    requires |mem| == ADDRESS_SPACE
  {
    forall i :: 0 <= i < |order| ==> Block(order[i]) && Get32(mem, order[i] + NEXT) == order[After(i, |order|)]
  }

  /** The blocks are apart and their `next` fields close the ring. */
  ghost predicate SysOk(s: Sys) {
    && |s.m.mem| == ADDRESS_SPACE && s.cur < |s.order|
    && RingIs(s.m.mem, s.order)
    && AllApart(s.order)
  }

  /** The processor runs thread `t` of block `b`. */
  ghost predicate Running(m: Machine, b: Word, t: Thread)
    requires |m.mem| == ADDRESS_SPACE && Block(b)
  {
    && t.Ready? && t.u == m.r && KernelSegments(m.r)
    && b + TASK_SIZE <= m.r.esp <= b + STACK_SIZE
    && t.stack == StackFrom(m.mem, b, m.r.esp)
  }

  /** The machine holds the threads `ts`: the current one in its registers, the others parked. */
  ghost predicate Holds(s: Sys, ts: seq<Thread>, code: Code) {
    && SysOk(s) && |ts| == |s.order|
    && Running(s.m, s.order[s.cur], ts[s.cur])
    && (forall i :: 0 <= i < |ts| && i != s.cur ==> Parked(s.m.mem, s.order[i], ts[i], code))
  }

  /** Two memories agree outside [lo, hi). */
  ghost predicate Confined(mem: seq<Byte>, later: seq<Byte>, lo: int, hi: int) {
    |mem| == |later| && forall a :: 0 <= a < |mem| && !(lo <= a < hi) ==> later[a] == mem[a]
  }

  /** What the four C functions do between the stub, which calls `irq_handler` in state `e`, and
      `switch_to`, entered in state `w`: they write below `e`'s stack pointer in the running thread's
      stack, keep a chain of frames, leave interrupts off, and pass the two contexts. */
  ghost predicate CallsSwitch(e: Machine, w: Machine, b: Word, nb: Word, code: Code)
    requires |e.mem| == ADDRESS_SPACE && Block(b) && Block(nb)
  {
    && Confined(e.mem, w.mem, b + TASK_SIZE, e.r.esp)
    && b + TASK_SIZE + 4 <= w.r.esp && w.r.esp + 12 <= w.r.ebp
    && Get32(w.mem, w.r.esp) == code.inChangeTask
    && Get32(w.mem, w.r.esp + 4) == b + CONTEXT && Get32(w.mem, w.r.esp + 8) == nb + CONTEXT
    && Chain(w.mem, w.r.ebp, Returns(code), e.r.esp)
    && KernelSegments(w.r) && !Enabled(w.r.eflags)
  }

  /** The machine with only the `ret` of `switch_to` left to do. */
  function AtRet(n: Machine, code: Code): Machine {
    n.(r := n.r.(eip := code.atRet))
  }

  /** From the `ret` of `switch_to` on, up to the first instruction at which the next interrupt can be
      taken. If the flags just loaded allow interrupts that is the `ret` itself; otherwise it is where
      the C functions and the stub come out. */
  function Resume(n: Machine, code: Code): Outcome
    requires n.r.esp + 4 <= |n.mem| && n.r.esp + 4 < ADDRESS_SPACE
  {
    if Enabled(n.r.eflags) then Arrived(AtRet(n, code))
    else if Ret(n).r.eip != code.inChangeTask then Lost
    else match Epilogues(Ret(n), Returns(code))
      case Lost => Lost
      case Arrived(h) =>
        if h.r.esp + 60 > |h.mem| || h.r.esp + 60 >= ADDRESS_SPACE then Lost else Arrived(Leave(h))
  }

  /** What `switch_to` writes: the old context, one word below the old stack pointer, and one word
      below the new one, `sp`. */
  ghost predicate SwitchWrote(mem: seq<Byte>, later: seq<Byte>, c: int, esp: int, sp: int) {
    && |mem| == |later|
    && forall a | 0 <= a < |mem| && !(c <= a < c + CONTEXT_SIZE) && !(esp - 4 <= a < esp) ::
         !(sp - 4 <= a < sp) ==> later[a] == mem[a]
  }

  /** Where the parked thread of block `nb` left its stack pointer. */
  lemma ParkedStack(mem: seq<Byte>, nb: Word, t: Thread, code: Code)
    requires |mem| == ADDRESS_SPACE && Block(nb) && Parked(mem, nb, t, code)
    ensures var sp := Get32(mem, nb + CONTEXT);
      nb + TASK_SIZE + 4 <= sp && sp + 12 <= nb + STACK_SIZE
  {
    hide Get32, FrameAt;
    if t.Ready? {
      ChainIsAbove(mem, Get32(mem, nb + CONTEXT + 4), Returns(code), t.u.esp - 60);
    }
  }

  lemma SaveKeepsOthers(w: Machine, b: Word, a: int, n: nat)
    requires |w.mem| == ADDRESS_SPACE && Block(b) && b + TASK_SIZE + 4 <= w.r.esp <= b + STACK_SIZE
    requires 0 <= a && a + n <= ADDRESS_SPACE
    requires a + n <= b || b + STACK_SIZE <= a || w.r.esp <= a
    ensures forall i :: a <= i < a + n ==> SaveContext(w.mem, b + CONTEXT, w.r)[i] == w.mem[i]
  {
    SaveContextWrites(w.mem, b + CONTEXT, w.r);
  }

  /** `switch_to`, called as `CallsSwitch` says with a parked thread to go to, can run; it reads that
      thread's context. */
  lemma SwitchIsPossible(w: Machine, b: Word, nb: Word, t: Thread, code: Code)
    requires |w.mem| == ADDRESS_SPACE && Block(b) && Block(nb) && BlocksApart(b, nb)
    requires b + TASK_SIZE + 4 <= w.r.esp && w.r.esp + 12 <= b + STACK_SIZE
    requires Get32(w.mem, w.r.esp + 4) == b + CONTEXT && Get32(w.mem, w.r.esp + 8) == nb + CONTEXT
    requires Parked(w.mem, nb, t, code)
    ensures CanSwitch(w)
    ensures var saved := SaveContext(w.mem, b + CONTEXT, w.r);
      && Parked(saved, nb, t, code)
      && SwitchTo(w) == LoadContext(saved, nb + CONTEXT, w.r)
      && Get32(saved, nb + CONTEXT) == Get32(w.mem, nb + CONTEXT)
  {
    hide Get32, SaveContext, LoadContext, Parked;
    var saved := SaveContext(w.mem, b + CONTEXT, w.r);
    SaveKeepsOthers(w, b, w.r.esp + 8, 4);
    Get32Frame(saved, w.mem, w.r.esp + 8);
    SaveKeepsOthers(w, b, nb, STACK_SIZE);
    Get32Frame(saved, w.mem, nb + CONTEXT);
    ParkedStays(w.mem, saved, nb, t, code);
    ParkedStack(saved, nb, t, code);
  }

  lemma SwitchWrites(w: Machine, b: Word, nb: Word, t: Thread, code: Code)
    requires |w.mem| == ADDRESS_SPACE && Block(b) && Block(nb) && BlocksApart(b, nb)
    requires b + TASK_SIZE + 4 <= w.r.esp && w.r.esp + 12 <= b + STACK_SIZE
    requires Get32(w.mem, w.r.esp + 4) == b + CONTEXT && Get32(w.mem, w.r.esp + 8) == nb + CONTEXT
    requires Parked(w.mem, nb, t, code)
    ensures CanSwitch(w)
    ensures SwitchWrote(w.mem, SwitchTo(w).mem, b + CONTEXT, w.r.esp, Get32(w.mem, nb + CONTEXT))
  {
    hide Get32, SaveContext, LoadContext, Parked, CanSwitch, SwitchTo;
    SwitchIsPossible(w, b, nb, t, code);
    ParkedStack(w.mem, nb, t, code);
    SaveContextWrites(w.mem, b + CONTEXT, w.r);
    LoadContextWrites(SaveContext(w.mem, b + CONTEXT, w.r), nb + CONTEXT, w.r);
  }

  /** The thread switched away from is parked: its registers, its stack and the way back are all in
      its block. */
  lemma OldThreadIsParked(u: Regs, e: Machine, w: Machine, later: seq<Byte>, b: Word, nb: Word, code: Code, sp: Word)
    requires |e.mem| == |later| == ADDRESS_SPACE && Block(b) && Block(nb) && BlocksApart(b, nb)
    requires e.r.esp + 60 == u.esp && b + TASK_SIZE + 64 <= u.esp <= b + STACK_SIZE && KernelSegments(u)
    requires FrameAt(e.mem, e.r.esp, u)
    requires CallsSwitch(e, w, b, nb, code)
    requires SwitchWrote(w.mem, later, b + CONTEXT, w.r.esp, sp) && nb <= sp - 4 && sp <= nb + STACK_SIZE
    requires ContextAt(later, b + CONTEXT, w.r)
    ensures Preempted(later, b, u, StackFrom(e.mem, b, u.esp), code)
  {
    hide Get32, Chain, FrameAt;
    ChainIsAbove(w.mem, w.r.ebp, Returns(code), e.r.esp);
    Get32Frame(later, w.mem, w.r.esp);
    ChainStays(w.mem, later, w.r.ebp, Returns(code), e.r.esp);
    assert forall a :: e.r.esp <= a < b + STACK_SIZE ==> later[a] == e.mem[a];
    FrameStays(e.mem, later, e.r.esp, u);
  }

  /** A new thread before its first instruction of its own: at the `ret` of `switch_to`, which will go
      to `fn`, and interrupts are on. */
  ghost predicate AboutToStart(m: Machine, b: Word, fn: Word, arg: Word, code: Code)
    requires |m.mem| == ADDRESS_SPACE && Block(b)
  {
    && m.r.eip == code.atRet && m.r.esp == b + STACK_SIZE - 12
    && Get32(m.mem, m.r.esp) == fn
    && Get32(m.mem, m.r.esp + 4) == code.kthreadExit && Get32(m.mem, m.r.esp + 8) == arg
    && Enabled(m.r.eflags) && KernelSegments(m.r)
    && m.r.ebp == m.r.ebx == m.r.esi == m.r.edi == 0
  }

  /** The first instruction of a new thread: it is at `fn`, called with `arg`, returns to
      kthread_exit, and can be interrupted. */
  ghost predicate Begins(m: Machine, b: Word, fn: Word, arg: Word, code: Code)
    requires |m.mem| == ADDRESS_SPACE && Block(b)
  {
    && m.r.eip == fn && m.r.esp == b + STACK_SIZE - 8
    && Get32(m.mem, m.r.esp) == code.kthreadExit && Get32(m.mem, m.r.esp + 4) == arg
    && Enabled(m.r.eflags) && KernelSegments(m.r)
    && m.r.ebp == m.r.ebx == m.r.esi == m.r.edi == 0
  }

  /** A parked thread continues where it was interrupted, with every register and its whole stack. */
  lemma InterruptedThreadContinues(saved: seq<Byte>, nb: Word, u: Regs, stack: seq<Byte>, r: Regs, code: Code)
    requires |saved| == ADDRESS_SPACE && Block(nb) && Preempted(saved, nb, u, stack, code)
    requires var sp := Get32(saved, nb + CONTEXT); 4 <= sp && sp + 4 < ADDRESS_SPACE
    ensures var n := LoadContext(saved, nb + CONTEXT, r);
      && !Enabled(n.r.eflags) && Resume(n, code) == Arrived(Machine(u, n.mem))
      && StackFrom(n.mem, nb, u.esp) == stack
  {
    hide Get32, FrameAt, Chain, Leave;
    var n := LoadContext(saved, nb + CONTEXT, r);
    var sp, fp := Get32(saved, nb + CONTEXT), Get32(saved, nb + CONTEXT + 4);
    LoadContextWrites(saved, nb + CONTEXT, r);
    ChainIsAbove(saved, fp, Returns(code), u.esp - 60);
    Get32Frame(n.mem, saved, sp);
    ChainStays(saved, n.mem, fp, Returns(code), u.esp - 60);
    EpiloguesFollowChain(Ret(n), Returns(code), u.esp - 60);
    FrameStays(saved, n.mem, u.esp - 60, u);
    LeaveRestores(Epilogues(Ret(n), Returns(code)).m, u);
  }

  lemma FreshThreadBegins(saved: seq<Byte>, nb: Word, fn: Word, arg: Word, r: Regs, code: Code)
    requires |saved| == ADDRESS_SPACE && Block(nb) && Fresh(saved, nb, fn, arg, code) && KernelSegments(r)
    ensures var n := LoadContext(saved, nb + CONTEXT, r);
      Resume(n, code) == Arrived(AtRet(n, code)) && AboutToStart(AtRet(n, code), nb, fn, arg, code)
  {
    hide Get32;
    var n := LoadContext(saved, nb + CONTEXT, r);
    LoadContextWrites(saved, nb + CONTEXT, r);
    Get32Frame(n.mem, saved, nb + STACK_SIZE - 12);
    Get32Frame(n.mem, saved, nb + STACK_SIZE - 8);
    Get32Frame(n.mem, saved, nb + STACK_SIZE - 4);
  }

  // ----- the events

  /** The running thread does whatever it likes with its registers, its stack and everything that
      belongs to no task; it leaves its own task_struct and the blocks of the others alone. */
  ghost predicate UserStep(s: Sys, s': Sys) {
    && SysOk(s) && s'.order == s.order && s'.cur == s.cur && |s'.m.mem| == ADDRESS_SPACE
    && KernelSegments(s'.m.r)
    && (var b := s.order[s.cur];
        && b + TASK_SIZE <= s'.m.r.esp <= b + STACK_SIZE
        && forall a :: b <= a < b + TASK_SIZE ==> s'.m.mem[a] == s.m.mem[a])
    && (forall i, a :: 0 <= i < |s.order| && i != s.cur && s.order[i] <= a < s.order[i] + STACK_SIZE ==>
          s'.m.mem[a] == s.m.mem[a])
  }

  /** A timer interrupt, from the interrupted instruction of one thread to the first instruction of the
      next one at which interrupts are on again: stub, C functions (`w` is the machine when they have
      done their part), `switch_to`, and the way back. With a single thread `change_task_to` does not switch. */
  ghost predicate Tick(s: Sys, w: Machine, s': Sys, code: Code) {
    && SysOk(s) && Enabled(s.m.r.eflags)
    && s'.order == s.order && s'.cur < |s.order|
    && var b := s.order[s.cur];
    && b + TASK_SIZE + 64 <= s.m.r.esp <= b + STACK_SIZE
    && var e := Enter(s.m, 0, TIMER, code.irqHandler);
    && var nb := Get32(e.mem, b + NEXT);
    && nb == s.order[s'.cur]
    && if nb == b
       then && Confined(e.mem, w.mem, b + TASK_SIZE, e.r.esp)
            && w.r.esp == e.r.esp && !Enabled(w.r.eflags) && s'.m == Leave(w)
       else CallsSwitch(e, w, b, nb, code) && CanSwitch(w) && Resume(SwitchTo(w), code) == Arrived(s'.m)
  }

  /** The final store of `kernel_thread`, `tail->next = new_task`: a block the creator has set up on
      memory that belongs to no task joins the ring. */
  ghost predicate Spawn(s: Sys, s': Sys, nb: Word, fn: Word, arg: Word, code: Code) {
    && SysOk(s) && Block(nb) && |s'.m.mem| == ADDRESS_SPACE
    && (forall i :: 0 <= i < |s.order| ==> BlocksApart(s.order[i], nb))
    && s'.order == s.order + [nb] && s'.cur == s.cur
    && KernelSegments(s'.m.r)
    && s.order[s.cur] + TASK_SIZE <= s'.m.r.esp <= s.order[s.cur] + STACK_SIZE
    && Fresh(s'.m.mem, nb, fn, arg, code)
    && Get32(s'.m.mem, nb + NEXT) == s.order[0]
    && (var tail := s.order[|s.order| - 1];
        && Get32(s'.m.mem, tail + NEXT) == nb
        && (forall i, a | 0 <= i < |s.order| && s.order[i] <= a < s.order[i] + STACK_SIZE ::
              (i != s.cur || a < s.order[i] + TASK_SIZE) ==>
              tail + NEXT <= a < tail + TASK_SIZE || s'.m.mem[a] == s.m.mem[a]))
  }

  /** The threads after the current one has been dispatched: a new one is ready from now on. */
  ghost function Dispatched(s: Sys, ts: seq<Thread>): seq<Thread>
    requires SysOk(s) && |ts| == |s.order|
    requires s.order[s.cur] <= s.m.r.esp <= s.order[s.cur] + STACK_SIZE
  {
    if ts[s.cur].Ready? then ts
    else ts[s.cur := Ready(s.m.r, StackFrom(s.m.mem, s.order[s.cur], s.m.r.esp))]
  }

  lemma UserStepKeepsThreads(s: Sys, s': Sys, ts: seq<Thread>, code: Code)
    requires Holds(s, ts, code) && UserStep(s, s')
    ensures Holds(s', ts[s.cur := Ready(s'.m.r, StackFrom(s'.m.mem, s.order[s.cur], s'.m.r.esp))], code)
  {
    hide Parked, Get32;
    forall i | 0 <= i < |s.order|
      ensures Get32(s'.m.mem, s.order[i] + NEXT) == Get32(s.m.mem, s.order[i] + NEXT)
    {
      Get32Frame(s'.m.mem, s.m.mem, s.order[i] + NEXT);
    }
    forall i | 0 <= i < |ts| && i != s.cur
      ensures Parked(s'.m.mem, s.order[i], ts[i], code)
    {
      ParkedStays(s.m.mem, s'.m.mem, s.order[i], ts[i], code);
    }
  }

  // ----- a tick

  /** Only the context and stack of block `b` and the stack of block `nb` differ. */
  ghost predicate OnlyStacks(mem: seq<Byte>, later: seq<Byte>, b: int, nb: int) {
    && |mem| == |later|
    && forall a | 0 <= a < |mem| && !(b + CONTEXT <= a < b + NEXT) && !(b + TASK_SIZE <= a < b + STACK_SIZE) ::
         !(nb + TASK_SIZE <= a < nb + STACK_SIZE) ==> later[a] == mem[a]
  }

  /** The ring and the threads outside the two blocks are untouched. */
  lemma OthersStay(s: Sys, later: Machine, j: nat, ts: seq<Thread>, code: Code)
    requires Holds(s, ts, code) && j < |s.order|
    requires OnlyStacks(s.m.mem, later.mem, s.order[s.cur], s.order[j])
    ensures SysOk(Sys(later, s.order, j))
    ensures forall i :: 0 <= i < |ts| && i != s.cur && i != j ==> Parked(later.mem, s.order[i], ts[i], code)
  {
    hide Parked, Get32;
    forall i | 0 <= i < |s.order|
      ensures Get32(later.mem, s.order[i] + NEXT) == Get32(s.m.mem, s.order[i] + NEXT)
    {
      Get32Frame(later.mem, s.m.mem, s.order[i] + NEXT);
    }
    forall i | 0 <= i < |ts| && i != s.cur && i != j
      ensures Parked(later.mem, s.order[i], ts[i], code)
    {
      ParkedStays(s.m.mem, later.mem, s.order[i], ts[i], code);
    }
  }

  lemma EnterIsConfined(s: Sys, code: Code)
    requires SysOk(s) && s.order[s.cur] + TASK_SIZE + 64 <= s.m.r.esp <= s.order[s.cur] + STACK_SIZE
    ensures var e := Enter(s.m, 0, TIMER, code.irqHandler);
      && |e.mem| == ADDRESS_SPACE && e.r.esp == s.m.r.esp - 60
      && Confined(s.m.mem, e.mem, e.r.esp, s.m.r.esp)
      && FrameAt(e.mem, e.r.esp, s.m.r)
      && Get32(e.mem, s.order[s.cur] + NEXT) == s.order[After(s.cur, |s.order|)]
  {
    hide FrameAt, PushAll;
    EnterSavesRegisters(s.m, 0, TIMER, code.irqHandler);
    EnterWritesBelow(s.m, 0, TIMER, code.irqHandler);
    Get32Frame(Enter(s.m, 0, TIMER, code.irqHandler).mem, s.m.mem, s.order[s.cur] + NEXT);
  }

  lemma DistinctBlocks(s: Sys)
    requires SysOk(s)
    ensures forall i, j :: 0 <= i < j < |s.order| ==> s.order[i] != s.order[j]
  {
    forall i, j | 0 <= i < j < |s.order|
      ensures s.order[i] != s.order[j]
    {
      assert BlocksApart(s.order[i], s.order[j]);
    }
  }

  /** The tick goes to the next task in ring order. */
  lemma TickGoesRound(s: Sys, w: Machine, s': Sys, code: Code)
    requires Tick(s, w, s', code)
    ensures s'.cur == After(s.cur, |s.order|)
  {
    hide Get32, Resume, CallsSwitch, CanSwitch, Chain;
    EnterIsConfined(s, code);
    DistinctBlocks(s);
  }

  /** With one task the interrupt returns to the interrupted instruction. */
  lemma LoneThreadContinues(s: Sys, w: Machine, s': Sys, ts: seq<Thread>, code: Code)
    requires Holds(s, ts, code) && Tick(s, w, s', code) && s'.cur == s.cur
    ensures s'.m.r == s.m.r && Holds(s', ts, code)
    ensures OnlyStacks(s.m.mem, s'.m.mem, s.order[s.cur], s.order[s.cur])
  {
    hide Get32, Resume, CallsSwitch, CanSwitch, FrameAt, Leave, Parked;
    EnterIsConfined(s, code);
    var e := Enter(s.m, 0, TIMER, code.irqHandler);
    FrameStays(e.mem, w.mem, e.r.esp, s.m.r);
    LeaveRestores(w, s.m.r);
    hide Enter;
    assert OnlyStacks(s.m.mem, s'.m.mem, s.order[s.cur], s.order[s.cur]);
    OthersStay(s, s'.m, s.cur, ts, code);
  }

  /** A real switch: what the whole tick writes, and that the interrupted thread is parked. */
  lemma SwitchParksCurrent(s: Sys, w: Machine, j: nat, ts: seq<Thread>, code: Code)
    requires Holds(s, ts, code) && j < |s.order| && j != s.cur
    requires s.order[s.cur] + TASK_SIZE + 64 <= s.m.r.esp
    requires CallsSwitch(Enter(s.m, 0, TIMER, code.irqHandler), w, s.order[s.cur], s.order[j], code)
    ensures CanSwitch(w)
    ensures OnlyStacks(s.m.mem, SwitchTo(w).mem, s.order[s.cur], s.order[j])
    ensures Parked(SwitchTo(w).mem, s.order[s.cur], ts[s.cur], code)
    ensures Parked(w.mem, s.order[j], ts[j], code)
  {
    hide Get32, FrameAt, Chain, Parked, Enter, SwitchTo, CanSwitch, SaveContext, ContextAt;
    var b, nb := s.order[s.cur], s.order[j];
    var e := Enter(s.m, 0, TIMER, code.irqHandler);
    EnterIsConfined(s, code);
    assert BlocksApart(b, nb);
    ParkedStays(s.m.mem, w.mem, nb, ts[j], code);
    ChainIsAbove(w.mem, w.r.ebp, Returns(code), e.r.esp);
    SwitchWrites(w, b, nb, ts[j], code);
    ParkedStack(w.mem, nb, ts[j], code);
    var sp := Get32(w.mem, nb + CONTEXT);
    ContextIsSaved(w, b, nb, ts[j], code);
    OldThreadIsParked(s.m.r, e, w, SwitchTo(w).mem, b, nb, code, sp);
    assert StackFrom(e.mem, b, s.m.r.esp) == StackFrom(s.m.mem, b, s.m.r.esp);
    ReadyIsParked(SwitchTo(w).mem, b, s.m.r, ts[s.cur], code);
  }

  lemma ReadyIsParked(mem: seq<Byte>, b: Word, u: Regs, t: Thread, code: Code)
    requires |mem| == ADDRESS_SPACE && Block(b)
    requires t.Ready? && t.u == u && Preempted(mem, b, u, t.stack, code)
    ensures Parked(mem, b, t, code)
  {
  }

  lemma ContextIsSaved(w: Machine, b: Word, nb: Word, t: Thread, code: Code)
    requires |w.mem| == ADDRESS_SPACE && Block(b) && Block(nb) && BlocksApart(b, nb)
    requires b + TASK_SIZE + 4 <= w.r.esp && w.r.esp + 12 <= b + STACK_SIZE
    requires Get32(w.mem, w.r.esp + 4) == b + CONTEXT && Get32(w.mem, w.r.esp + 8) == nb + CONTEXT
    requires Parked(w.mem, nb, t, code)
    ensures CanSwitch(w) && ContextAt(SwitchTo(w).mem, b + CONTEXT, w.r)
  {
    hide Get32, SaveContext, LoadContext, Parked, CanSwitch, SwitchTo, ContextAt;
    var saved := SaveContext(w.mem, b + CONTEXT, w.r);
    SwitchIsPossible(w, b, nb, t, code);
    ParkedStack(w.mem, nb, t, code);
    SaveContextSaves(w.mem, b + CONTEXT, w.r);
    LoadContextWrites(saved, nb + CONTEXT, w.r);
    ContextStays(saved, SwitchTo(w).mem, b + CONTEXT, w.r);
  }

  /** The thread switched to continues, or begins. */
  lemma NextThreadRuns(w: Machine, b: Word, nb: Word, t: Thread, code: Code)
    requires |w.mem| == ADDRESS_SPACE && Block(b) && Block(nb) && BlocksApart(b, nb) && KernelSegments(w.r)
    requires b + TASK_SIZE + 4 <= w.r.esp && w.r.esp + 12 <= b + STACK_SIZE
    requires Get32(w.mem, w.r.esp + 4) == b + CONTEXT && Get32(w.mem, w.r.esp + 8) == nb + CONTEXT
    requires Parked(w.mem, nb, t, code)
    ensures CanSwitch(w)
    ensures var o := Resume(SwitchTo(w), code);
      && o.Arrived? && o.m.mem == SwitchTo(w).mem && |o.m.mem| == ADDRESS_SPACE
      && (t.Ready? ==> Running(o.m, nb, t) && !Enabled(SwitchTo(w).r.eflags))
      && (t.Unstarted? ==> AboutToStart(o.m, nb, t.fn, t.arg, code))
  {
    hide Get32, SaveContext, LoadContext, CanSwitch, SwitchTo, Resume, AboutToStart, Preempted, Fresh;
    var saved := SaveContext(w.mem, b + CONTEXT, w.r);
    SwitchIsPossible(w, b, nb, t, code);
    ParkedStack(saved, nb, t, code);
    match t {
      case Ready(u, stack) =>
        PreemptedBounds(saved, nb, u, stack, code);
        InterruptedThreadContinues(saved, nb, u, stack, w.r, code);
      case Unstarted(fn, arg) =>
        FreshThreadBegins(saved, nb, fn, arg, w.r, code);
    }
  }

  lemma PreemptedBounds(mem: seq<Byte>, b: Word, u: Regs, stack: seq<Byte>, code: Code)
    requires |mem| == ADDRESS_SPACE && Block(b) && Preempted(mem, b, u, stack, code)
    ensures b + TASK_SIZE <= u.esp <= b + STACK_SIZE && KernelSegments(u)
  {
  }

  /** Whatever the C functions do within their bounds, a tick gets through: `switch_to` finds what it
      needs and control comes out at the next thread. */
  lemma TickGetsThrough(s: Sys, w: Machine, ts: seq<Thread>, code: Code)
    requires Holds(s, ts, code) && |s.order| > 1
    requires s.order[s.cur] + TASK_SIZE + 64 <= s.m.r.esp
    requires CallsSwitch(Enter(s.m, 0, TIMER, code.irqHandler), w, s.order[s.cur],
                         s.order[After(s.cur, |s.order|)], code)
    ensures CanSwitch(w) && Resume(SwitchTo(w), code).Arrived?
  {
    hide Get32, Chain, FrameAt, CanSwitch, Resume, Parked, Enter, SwitchTo;
    var j := After(s.cur, |s.order|);
    var b, nb := s.order[s.cur], s.order[j];
    EnterIsConfined(s, code);
    SwitchParksCurrent(s, w, j, ts, code);
    assert BlocksApart(b, nb) || BlocksApart(nb, b);
    ChainIsAbove(w.mem, w.r.ebp, Returns(code), s.m.r.esp - 60);
    NextThreadRuns(w, b, nb, ts[j], code);
  }

  /** A tick parks the current thread and dispatches the next one, exactly as it was left, or about to
      start. */
  lemma TickKeepsThreads(s: Sys, w: Machine, s': Sys, ts: seq<Thread>, code: Code)
    requires Holds(s, ts, code) && Tick(s, w, s', code)
    ensures s'.cur == After(s.cur, |s.order|)
    ensures |s'.m.mem| == ADDRESS_SPACE && SysOk(s')
    ensures ts[s'.cur].Ready? ==> s'.m.r == ts[s'.cur].u
    ensures ts[s'.cur].Unstarted? ==> AboutToStart(s'.m, s'.order[s'.cur], ts[s'.cur].fn, ts[s'.cur].arg, code)
    ensures s'.order[s'.cur] <= s'.m.r.esp <= s'.order[s'.cur] + STACK_SIZE
    ensures OnlyStacks(s.m.mem, s'.m.mem, s.order[s.cur], s.order[s'.cur])
    ensures Holds(s', Dispatched(s', ts), code)
  {
    hide Get32, Chain, FrameAt, CanSwitch, Resume, Parked, Enter, SwitchTo, CallsSwitch;
    TickGoesRound(s, w, s', code);
    EnterIsConfined(s, code);
    DistinctBlocks(s);
    var j := s'.cur;
    if j == s.cur {
      LoneThreadContinues(s, w, s', ts, code);
    } else {
      var b, nb := s.order[s.cur], s.order[j];
      SwitchParksCurrent(s, w, j, ts, code);
      CallBounds(s, w, nb, code);
      assert BlocksApart(b, nb) || BlocksApart(nb, b);
      NextThreadRuns(w, b, nb, ts[j], code);
      OthersStay(s, s'.m, j, ts, code);
    }
  }

  lemma CallBounds(s: Sys, w: Machine, nb: Word, code: Code)
    requires SysOk(s) && s.order[s.cur] + TASK_SIZE + 64 <= s.m.r.esp <= s.order[s.cur] + STACK_SIZE && Block(nb)
    requires CallsSwitch(Enter(s.m, 0, TIMER, code.irqHandler), w, s.order[s.cur], nb, code)
    ensures |w.mem| == ADDRESS_SPACE && KernelSegments(w.r)
    ensures s.order[s.cur] + TASK_SIZE + 4 <= w.r.esp && w.r.esp + 12 <= s.order[s.cur] + STACK_SIZE
    ensures Get32(w.mem, w.r.esp + 4) == s.order[s.cur] + CONTEXT && Get32(w.mem, w.r.esp + 8) == nb + CONTEXT
  {
    hide Get32, Chain, FrameAt;
    EnterIsConfined(s, code);
    ChainIsAbove(w.mem, w.r.ebp, Returns(code), s.m.r.esp - 60);
  }

  /** A thread that joins the ring disturbs none of the others. */
  lemma SpawnKeepsThreads(s: Sys, s': Sys, nb: Word, fn: Word, arg: Word, ts: seq<Thread>, code: Code)
    requires Holds(s, ts, code) && Spawn(s, s', nb, fn, arg, code)
    ensures Holds(s', ts[s.cur := Ready(s'.m.r, StackFrom(s'.m.mem, s.order[s.cur], s'.m.r.esp))]
                      + [Unstarted(fn, arg)], code)
  {
    hide Get32, Preempted, Fresh;
    SpawnKeepsRing(s, s', nb, fn, arg, code);
    hide SysOk;
    forall i | 0 <= i < |ts| && i != s.cur
      ensures Parked(s'.m.mem, s.order[i], ts[i], code)
    {
      SpawnSparesParked(s, s', nb, fn, arg, code, i);
      hide Parked;
      ParkedStays(s.m.mem, s'.m.mem, s.order[i], ts[i], code);
    }
  }

  lemma SpawnSparesParked(s: Sys, s': Sys, nb: Word, fn: Word, arg: Word, code: Code, i: nat)
    requires Spawn(s, s', nb, fn, arg, code) && i < |s.order| && i != s.cur
    ensures |s.m.mem| == |s'.m.mem| == ADDRESS_SPACE && Block(s.order[i])
    ensures forall a :: SavedPart(s.order[i], a) ==> s'.m.mem[a] == s.m.mem[a]
  {
    hide Get32, Fresh;
    forall a | SavedPart(s.order[i], a)
      ensures s'.m.mem[a] == s.m.mem[a]
    {
      TailFieldIsElsewhere(s, i, a);
    }
  }

  lemma TailFieldIsElsewhere(s: Sys, i: nat, a: int)
    requires SysOk(s) && i < |s.order| && SavedPart(s.order[i], a)
    ensures var tail := s.order[|s.order| - 1]; !(tail + NEXT <= a < tail + TASK_SIZE)
  {
    if i < |s.order| - 1 {
      assert BlocksApart(s.order[i], s.order[|s.order| - 1]);
    }
  }

  /** Storing a new block in the tail's `next`, with the head in its own, makes it the new tail. */
  lemma RingGrows(mem: seq<Byte>, later: seq<Byte>, order: seq<Word>, nb: Word)
    requires |mem| == |later| == ADDRESS_SPACE && order != [] && Block(nb)
    requires RingIs(mem, order)
    requires forall i :: 0 <= i < |order| - 1 ==>
      Block(order[i]) && Get32(later, order[i] + NEXT) == Get32(mem, order[i] + NEXT)
    requires Block(order[|order| - 1])
    requires Get32(later, order[|order| - 1] + NEXT) == nb && Get32(later, nb + NEXT) == order[0]
    ensures RingIs(later, order + [nb])
  {
    hide Get32;
    var n := |order|;
    forall i | 0 <= i < n + 1
      ensures Block((order + [nb])[i]) && Get32(later, (order + [nb])[i] + NEXT) == (order + [nb])[After(i, n + 1)]
    {
      if i < n - 1 {
        assert Block(order[i]) && Get32(mem, order[i] + NEXT) == order[After(i, n)];
      }
    }
  }

  lemma SpawnKeepsRing(s: Sys, s': Sys, nb: Word, fn: Word, arg: Word, code: Code)
    requires Spawn(s, s', nb, fn, arg, code)
    ensures SysOk(s')
  {
    hide Get32, Fresh;
    var n := |s.order|;
    forall i | 0 <= i < n - 1
      ensures Get32(s'.m.mem, s.order[i] + NEXT) == Get32(s.m.mem, s.order[i] + NEXT)
    {
      assert BlocksApart(s.order[i], s.order[n - 1]);
      Get32Frame(s'.m.mem, s.m.mem, s.order[i] + NEXT);
    }
    RingGrows(s.m.mem, s'.m.mem, s.order, nb);
    hide RingIs;
    assert RingIs(s'.m.mem, s'.order);
    forall i, j | 0 <= i < j < n + 1
      ensures BlocksApart(s'.order[i], s'.order[j])
    {
      if j < n {
        assert BlocksApart(s.order[i], s.order[j]);
      }
    }
  }

  // ----- runs

  ghost predicate Step(s: Sys, s': Sys, code: Code) {
    || UserStep(s, s')
    || (exists w: Machine :: Tick(s, w, s', code))
    || (exists nb: Word, fn: Word, arg: Word :: Spawn(s, s', nb, fn, arg, code))
  }

  /** One step: a thread that is not running before it is still as it was, and if the step is the
      tick that dispatches it, it now runs as it was. */
  lemma StepKeepsThreads(s: Sys, s': Sys, ts: seq<Thread>, code: Code) returns (ts': seq<Thread>)
    requires Holds(s, ts, code) && Step(s, s', code)
    ensures Holds(s', ts', code) && |ts| <= |ts'|
    ensures forall i :: 0 <= i < |ts| && i != s.cur && ts[i].Ready? ==> ts'[i] == ts[i]
    ensures s.order <= s'.order
  {
    hide Holds, UserStep, Tick, Spawn;
    HoldsShape(s, ts, code);
    if UserStep(s, s') {
      UserShape(s, s');
      ts' := ts[s.cur := Ready(s'.m.r, StackFrom(s'.m.mem, s.order[s.cur], s'.m.r.esp))];
      UserStepKeepsThreads(s, s', ts, code);
    } else if exists w: Machine :: Tick(s, w, s', code) {
      var w: Machine :| Tick(s, w, s', code);
      TickShape(s, w, s', code);
      TickKeepsThreads(s, w, s', ts, code);
      ts' := Dispatched(s', ts);
    } else {
      var nb: Word, fn: Word, arg: Word :| Spawn(s, s', nb, fn, arg, code);
      SpawnShape(s, s', nb, fn, arg, code);
      SpawnKeepsThreads(s, s', nb, fn, arg, ts, code);
      ts' := ts[s.cur := Ready(s'.m.r, StackFrom(s'.m.mem, s.order[s.cur], s'.m.r.esp))] + [Unstarted(fn, arg)];
    }
  }

  lemma HoldsShape(s: Sys, ts: seq<Thread>, code: Code)
    requires Holds(s, ts, code)
    ensures SysOk(s) && |ts| == |s.order| && Running(s.m, s.order[s.cur], ts[s.cur])
  {
  }

  lemma UserShape(s: Sys, s': Sys)
    requires UserStep(s, s')
    ensures s'.order == s.order && s'.cur == s.cur && |s'.m.mem| == ADDRESS_SPACE && SysOk(s)
    ensures s.order[s.cur] <= s'.m.r.esp <= s.order[s.cur] + STACK_SIZE
  {
  }

  lemma TickShape(s: Sys, w: Machine, s': Sys, code: Code)
    requires Tick(s, w, s', code)
    ensures s'.order == s.order
  {
  }

  lemma SpawnShape(s: Sys, s': Sys, nb: Word, fn: Word, arg: Word, code: Code)
    requires Spawn(s, s', nb, fn, arg, code)
    ensures s'.order == s.order + [nb] && s'.cur == s.cur && |s'.m.mem| == ADDRESS_SPACE && SysOk(s)
    ensures s.order[s.cur] <= s'.m.r.esp <= s.order[s.cur] + STACK_SIZE
  {
  }

  /** Any sequence of steps of other threads, timer ticks and thread creations. */
  ghost predicate Run(ss: seq<Sys>, code: Code) {
    ss != [] && forall k :: 0 <= k && k + 1 < |ss| ==> Step(ss[k], ss[k + 1], code)
  }

  lemma RunRest(ss: seq<Sys>, code: Code)
    requires Run(ss, code) && |ss| >= 2
    ensures Step(ss[0], ss[1], code) && Run(ss[1..], code)
  {
    hide Step;
    forall k | 0 <= k && k + 1 < |ss[1..]|
      ensures Step(ss[1..][k], ss[1..][k + 1], code)
    {
      assert Step(ss[k + 1], ss[k + 2], code);
    }
  }

  lemma {:induction false} WaitingThreadIsKept(ss: seq<Sys>, ts: seq<Thread>, i: nat, code: Code)
    requires ss != [] && Run(ss, code) && Holds(ss[0], ts, code) && i < |ts| && ts[i].Ready?
    requires forall k :: 0 <= k < |ss| - 1 ==> ss[k].cur != i
    requires ss[|ss| - 1].cur == i
    ensures var s := ss[|ss| - 1];
      && SysOk(s) && i < |s.order| && s.order[i] == ss[0].order[i]
      && Running(s.m, s.order[i], ts[i])
    decreases |ss|
  {
    hide Step, Running, Run, Holds, SysOk;
    HoldsShape(ss[0], ts, code);
    if |ss| > 1 {
      RunRest(ss, code);
      var ts' := StepKeepsThreads(ss[0], ss[1], ts, code);
      HoldsShape(ss[1], ts', code);
      assert ss[1..][|ss| - 2] == ss[|ss| - 1];
      WaitingThreadIsKept(ss[1..], ts', i, code);
    }
  }

  /** Preemption is transparent: a thread interrupted by the timer at any instruction finds, when it
      is the current thread again, however long that takes and whatever the other threads do in the
      meantime, all its registers, flags and instruction pointer and its whole stack as they were. */
  lemma PreemptionIsTransparent(ss: seq<Sys>, ts: seq<Thread>, w: Machine, code: Code)
    requires Run(ss, code) && |ss| >= 2 && Holds(ss[0], ts, code) && Tick(ss[0], w, ss[1], code)
    requires var i := ss[0].cur;
      (forall k :: 1 <= k < |ss| - 1 ==> ss[k].cur != i) && ss[|ss| - 1].cur == i
    ensures var s, s', i := ss[0], ss[|ss| - 1], ss[0].cur;
      && SysOk(s') && i < |s'.order| && s'.order[i] == s.order[i]
      && s'.m.r == s.m.r
      && |s'.m.mem| == |s.m.mem| == ADDRESS_SPACE
      && var b := s.order[i];
      && Block(b) && b <= s.m.r.esp <= b + STACK_SIZE
      && StackFrom(s'.m.mem, b, s.m.r.esp) == StackFrom(s.m.mem, b, s.m.r.esp)
  {
    hide Step, Tick, Holds, Run;
    var i := ss[0].cur;
    HoldsShape(ss[0], ts, code);
    TickShape(ss[0], w, ss[1], code);
    TickKeepsThreads(ss[0], w, ss[1], ts, code);
    var ts' := Dispatched(ss[1], ts);
    assert ss[1..][|ss| - 2] == ss[|ss| - 1];
    RunRest(ss, code);
    WaitingThreadIsKept(ss[1..], ts', i, code);
  }
}

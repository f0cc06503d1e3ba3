/** Threads in memory: a block with the saved context at its bottom and the stack above it,
    and what a thread that is not running looks like there. */
module Threads {
  import opened Words
  import opened Cpu

  const STACK_SIZE := 8192
  const TASK_SIZE := 44           // sizeof(struct task_struct)
  const CONTEXT := 16             // offset of `context`
  const NEXT := 40                // offset of `next`
  const CONTEXT_SIZE := 24

  /** Code addresses: the return address of each call on the way from the stub down to `switch_to`,
      the last instruction of `switch_to`, and the function a thread returns to when it ends. */
  datatype Code = Code(irqHandler: Word, inStub: Word, inIrqHandler: Word, inTimer: Word, inSchedule: Word,
                       inChangeTask: Word, atRet: Word, kthreadExit: Word)

  /** Where the four C functions between `switch_to` and the stub return to, innermost first. */
  function Returns(code: Code): seq<Word> {
    [code.inSchedule, code.inTimer, code.inIrqHandler, code.inStub]
  }

  /** `leave; ret`. */
  function LeaveRet(m: Machine): (n: Machine)
    requires m.r.ebp + 8 <= |m.mem| && m.r.ebp + 8 < ADDRESS_SPACE
  {
    m.(r := m.r.(esp := m.r.ebp + 8, ebp := Get32(m.mem, m.r.ebp), eip := Get32(m.mem, m.r.ebp + 4)))
  }

  datatype Outcome = Lost | Arrived(m: Machine)

  /** The epilogues of functions that return to `rets`, one after the other; lost when one of them
      would return anywhere else. */
  function Epilogues(m: Machine, rets: seq<Word>): Outcome
    decreases |rets|
  {
    if rets == [] then Arrived(m)
    else if m.r.ebp + 8 >= ADDRESS_SPACE || m.r.ebp + 8 > |m.mem| || LeaveRet(m).r.eip != rets[0] then Lost
    else Epilogues(LeaveRet(m), rets[1..])
  }

  /** Stack frames of functions that return to `rets`: a frame pointer chain from `fp` up to the
      stack pointer `top` of the outermost caller. */
  predicate Chain(mem: seq<Byte>, fp: Word, rets: seq<Word>, top: nat)
    requires top <= |mem|
    decreases |rets|
  {
    && rets != [] && fp + 8 <= top && top < ADDRESS_SPACE
    && Get32(mem, fp + 4) == rets[0]
    && if |rets| == 1 then fp + 8 == top
       else fp < Get32(mem, fp) && Chain(mem, Get32(mem, fp), rets[1..], top)
  }

  lemma ChainIsAbove(mem: seq<Byte>, fp: Word, rets: seq<Word>, top: nat)
    requires top <= |mem| && Chain(mem, fp, rets, top)
    ensures fp + 8 <= top
  {
  }

  lemma {:induction false} ChainStays(mem: seq<Byte>, later: seq<Byte>, fp: Word, rets: seq<Word>, top: nat)
    requires top <= |mem| == |later| && Chain(mem, fp, rets, top)
    requires forall a :: fp <= a < top ==> later[a] == mem[a]
    ensures Chain(later, fp, rets, top)
    decreases |rets|
  {
    Get32Frame(later, mem, fp + 4);
    Get32Frame(later, mem, fp);
    if |rets| > 1 {
      ChainStays(mem, later, Get32(mem, fp), rets[1..], top);
    }
  }

  /** Running the epilogues over a chain of frames ends at the outermost return address, with the
      stack pointer back where the outermost call was made. */
  lemma {:induction false} EpiloguesFollowChain(m: Machine, rets: seq<Word>, top: nat)
    requires top <= |m.mem| && Chain(m.mem, m.r.ebp, rets, top)
    ensures var o := Epilogues(m, rets);
      && o.Arrived? && o.m.mem == m.mem
      && o.m.r.esp == top && o.m.r.eip == rets[|rets| - 1]
    decreases |rets|
  {
    if |rets| > 1 {
      EpiloguesFollowChain(LeaveRet(m), rets[1..], top);
    } else {
      assert Epilogues(LeaveRet(m), rets[1..]) == Arrived(LeaveRet(m));
    }
  }

  /** A thread seen on its own: its registers and the part of its stack in use, or the function and
      argument it will start with. */
  datatype Thread = Ready(u: Regs, stack: seq<Byte>) | Unstarted(fn: Word, arg: Word)

  predicate KernelSegments(u: Regs) {
    u.ds == u.es == u.fs == u.gs == u.ss == KERNEL_DS
  }

  /** `b` is a block with room for a task and its stack. */
  predicate Block(b: Word) {
    0 < b && b + STACK_SIZE < ADDRESS_SPACE
  }

  /** The stack bytes of block `b` from `sp` up. */
  function StackFrom(mem: seq<Byte>, b: Word, sp: Word): seq<Byte>
    requires |mem| == ADDRESS_SPACE && Block(b) && b <= sp <= b + STACK_SIZE
  {
    mem[sp..b + STACK_SIZE]
  }

  /** Block `b` holds the interrupted thread `u`: the context saved by `switch_to`, with interrupts
      off, the frames of the C functions, and the register frame of the stub. */
  ghost predicate Preempted(mem: seq<Byte>, b: Word, u: Regs, stack: seq<Byte>, code: Code)
    requires |mem| == ADDRESS_SPACE && Block(b)
  {
    var sp := Get32(mem, b + CONTEXT);
    var fp := Get32(mem, b + CONTEXT + 4);
    && b + TASK_SIZE + 4 <= sp && sp + 4 <= fp && fp < u.esp <= b + STACK_SIZE && b + TASK_SIZE + 64 <= u.esp
    && !Enabled(Get32(mem, b + CONTEXT + 20))
    && Get32(mem, sp) == code.inChangeTask
    && Chain(mem, fp, Returns(code), u.esp - 60)
    && FrameAt(mem, u.esp - 60, u)
    && KernelSegments(u)
    && StackFrom(mem, b, u.esp) == stack
  }

  /** Block `b` is as `kernel_thread` left it: the initial stack and context. */
  ghost predicate Fresh(mem: seq<Byte>, b: Word, fn: Word, arg: Word, code: Code)
    requires |mem| == ADDRESS_SPACE && Block(b)
  {
    && Get32(mem, b + CONTEXT) == b + STACK_SIZE - 12
    && Get32(mem, b + CONTEXT + 4) == 0 && Get32(mem, b + CONTEXT + 8) == 0
    && Get32(mem, b + CONTEXT + 12) == 0 && Get32(mem, b + CONTEXT + 16) == 0
    && Get32(mem, b + CONTEXT + 20) == IF
    && Get32(mem, b + STACK_SIZE - 12) == fn
    && Get32(mem, b + STACK_SIZE - 8) == code.kthreadExit
    && Get32(mem, b + STACK_SIZE - 4) == arg
  }

  ghost predicate Parked(mem: seq<Byte>, b: Word, t: Thread, code: Code)
    requires |mem| == ADDRESS_SPACE && Block(b)
  {
    match t
    case Ready(u, stack) => Preempted(mem, b, u, stack, code)
    case Unstarted(fn, arg) => Fresh(mem, b, fn, arg, code)
  }

  /** The parts of block `b` a parked thread depends on: everything from the context up except the
      `next` field. */
  predicate SavedPart(b: Word, a: int) {
    b + CONTEXT <= a < b + STACK_SIZE && !(b + NEXT <= a < b + TASK_SIZE)
  }

  /** Nothing that leaves those parts alone can disturb a parked thread. */
  lemma ParkedStays(mem: seq<Byte>, later: seq<Byte>, b: Word, t: Thread, code: Code)
    requires |mem| == |later| == ADDRESS_SPACE && Block(b) && Parked(mem, b, t, code)
    requires forall a :: SavedPart(b, a) ==> later[a] == mem[a]
    ensures Parked(later, b, t, code)
  {
    match t {
      case Unstarted(fn, arg) =>
        hide Get32;
        SameIn(mem, later, b, CONTEXT);
        SameIn(mem, later, b, CONTEXT + 4);
        SameIn(mem, later, b, CONTEXT + 8);
        SameIn(mem, later, b, CONTEXT + 12);
        SameIn(mem, later, b, CONTEXT + 16);
        SameIn(mem, later, b, CONTEXT + 20);
        SameIn(mem, later, b, STACK_SIZE - 12);
        SameIn(mem, later, b, STACK_SIZE - 8);
        SameIn(mem, later, b, STACK_SIZE - 4);
      case Ready(u, stack) =>
        PreemptedStays(mem, later, b, u, stack, code);
    }
  }

  lemma SameIn(mem: seq<Byte>, later: seq<Byte>, b: Word, d: nat)
    requires |mem| == |later| == ADDRESS_SPACE && Block(b)
    requires (CONTEXT <= d && d + 4 <= NEXT) || (TASK_SIZE <= d && d + 4 <= STACK_SIZE)
    requires forall a :: SavedPart(b, a) ==> later[a] == mem[a]
    ensures Get32(later, b + d) == Get32(mem, b + d)
  {
    assert forall a :: b + d <= a < b + d + 4 ==> SavedPart(b, a);
    Get32Frame(later, mem, b + d);
  }

  lemma PreemptedStays(mem: seq<Byte>, later: seq<Byte>, b: Word, u: Regs, stack: seq<Byte>, code: Code)
    requires |mem| == |later| == ADDRESS_SPACE && Block(b) && Preempted(mem, b, u, stack, code)
    requires forall a :: SavedPart(b, a) ==> later[a] == mem[a]
    ensures Preempted(later, b, u, stack, code)
  {
    hide Get32, FrameAt, Chain;
    var sp := Get32(mem, b + CONTEXT);
    SameIn(mem, later, b, CONTEXT);
    SameIn(mem, later, b, CONTEXT + 4);
    SameIn(mem, later, b, CONTEXT + 20);
    ChainIsAbove(mem, Get32(mem, b + CONTEXT + 4), Returns(code), u.esp - 60);
    SameIn(mem, later, b, sp - b);
    assert forall a :: sp <= a < b + STACK_SIZE ==> SavedPart(b, a);
    ChainStays(mem, later, Get32(mem, b + CONTEXT + 4), Returns(code), u.esp - 60);
    FrameStays(mem, later, u.esp - 60, u);
  }
}

/** The runs of `Preemption` begin with the state `init_sched` leaves, and the timer can always go on:
    there are C frames that do what is asked of them. */
module Ticking {
  import opened Words
  import opened Cpu
  import opened Threads
  import opened Preemption

  /** After `init_sched` the machine holds one thread, the one that runs. */
  lemma FirstThreadHolds(m: Machine, b: Word, code: Code)
    requires |m.mem| == ADDRESS_SPACE && Block(b) && Get32(m.mem, b + NEXT) == b
    requires KernelSegments(m.r) && b + TASK_SIZE <= m.r.esp <= b + STACK_SIZE
    ensures Holds(Sys(m, [b], 0), [Ready(m.r, StackFrom(m.mem, b, m.r.esp))], code)
  {
  }

  /** What the four C functions leave below the interrupt frame at `top`, lowest word first: the
      return address of `switch_to`, its arguments, and four frames. */
  function CallWords(top: Word, ebp: Word, b: Word, nb: Word, code: Code): (ws: seq<Word>)
    requires 44 <= top && Block(b) && Block(nb)
    ensures |ws| == 11
  {
    [code.inChangeTask, b + CONTEXT, nb + CONTEXT,
     top - 24, code.inSchedule, top - 16, code.inTimer, top - 8, code.inIrqHandler, ebp, code.inStub]
  }

  function Called(e: Machine, b: Word, nb: Word, code: Code): (w: Machine)
    requires 44 <= e.r.esp <= |e.mem| && Block(b) && Block(nb)
    ensures |w.mem| == |e.mem|
  {
    Machine(e.r.(esp := e.r.esp - 44, ebp := e.r.esp - 32),
            PutWords(e.mem, e.r.esp - 44, CallWords(e.r.esp, e.r.ebp, b, nb, code)))
  }

  lemma CalledWord(e: Machine, b: Word, nb: Word, code: Code, i: nat)
    requires 44 <= e.r.esp <= |e.mem| && Block(b) && Block(nb) && i < 11
    ensures Get32(Called(e, b, nb, code).mem, e.r.esp - 44 + 4 * i) == CallWords(e.r.esp, e.r.ebp, b, nb, code)[i]
  {
    hide Get32, PutWords, CallWords;
    PutWordsAt(e.mem, e.r.esp - 44, CallWords(e.r.esp, e.r.ebp, b, nb, code));
  }

  /** Putting one more frame below a chain. */
  lemma ChainGrows(mem: seq<Byte>, fp: Word, rets: seq<Word>, top: nat)
    requires top <= |mem| && |rets| > 1 && fp + 8 <= top && top < ADDRESS_SPACE
    requires Get32(mem, fp + 4) == rets[0] && fp < Get32(mem, fp) && Chain(mem, Get32(mem, fp), rets[1..], top)
    ensures Chain(mem, fp, rets, top)
  {
  }

  lemma CalledChain(e: Machine, b: Word, nb: Word, code: Code)
    requires 44 <= e.r.esp < ADDRESS_SPACE == |e.mem| && Block(b) && Block(nb)
    ensures Chain(Called(e, b, nb, code).mem, e.r.esp - 32, Returns(code), e.r.esp)
  {
    hide Get32, Called, Chain;
    var mem, top, rets := Called(e, b, nb, code).mem, e.r.esp, Returns(code);
    CalledWord(e, b, nb, code, 3);
    CalledWord(e, b, nb, code, 4);
    CalledWord(e, b, nb, code, 5);
    CalledWord(e, b, nb, code, 6);
    CalledWord(e, b, nb, code, 7);
    CalledWord(e, b, nb, code, 8);
    CalledWord(e, b, nb, code, 10);
    OneFrame(mem, top - 8, code.inStub, top);
    assert [code.inIrqHandler, code.inStub][1..] == [code.inStub];
    ChainGrows(mem, top - 16, [code.inIrqHandler, code.inStub], top);
    assert rets[1..][1..] == [code.inIrqHandler, code.inStub];
    ChainGrows(mem, top - 24, rets[1..], top);
    ChainGrows(mem, top - 32, rets, top);
  }

  lemma OneFrame(mem: seq<Byte>, fp: Word, ret: Word, top: nat)
    requires top <= |mem| && fp + 8 == top && top < ADDRESS_SPACE && Get32(mem, fp + 4) == ret
    ensures Chain(mem, fp, [ret], top)
  {
  }

  lemma CalledSwitches(e: Machine, b: Word, nb: Word, code: Code)
    requires |e.mem| == ADDRESS_SPACE && Block(b) && Block(nb) && KernelSegments(e.r) && !Enabled(e.r.eflags)
    requires b + TASK_SIZE + 48 <= e.r.esp
    ensures CallsSwitch(e, Called(e, b, nb, code), b, nb, code)
  {
    hide Get32, Chain, PutWords;
    PutWordsAt(e.mem, e.r.esp - 44, CallWords(e.r.esp, e.r.ebp, b, nb, code));
    CalledWord(e, b, nb, code, 0);
    CalledWord(e, b, nb, code, 1);
    CalledWord(e, b, nb, code, 2);
    CalledChain(e, b, nb, code);
  }

  /** Whenever the running thread has interrupts enabled and room for the frames, a timer tick can
      happen, to the end. */
  lemma TickCanHappen(s: Sys, ts: seq<Thread>, code: Code) returns (w: Machine, s': Sys)
    requires Holds(s, ts, code) && Enabled(s.m.r.eflags)
    requires s.order[s.cur] + TASK_SIZE + 108 <= s.m.r.esp
    ensures Tick(s, w, s', code)
  {
    hide Get32, Called, CallsSwitch, Resume, SwitchTo, CanSwitch, Parked, FrameAt, Chain;
    var n, e, j := |s.order|, Enter(s.m, 0, TIMER, code.irqHandler), After(s.cur, |s.order|);
    var b, nb := s.order[s.cur], s.order[j];
    EnterIsConfined(s, code);
    EnterSegments(s.m, code);
    hide Enter;
    if n == 1 {
      w := e;
      s' := Sys(Leave(e), s.order, s.cur);
    } else {
      DistinctBlocks(s);
      w := Called(e, b, nb, code);
      CalledSwitches(e, b, nb, code);
      TickGetsThrough(s, w, ts, code);
      s' := Sys(Resume(SwitchTo(w), code).m, s.order, j);
    }
  }

  lemma EnterSegments(m: Machine, code: Code)
    requires 60 <= m.r.esp <= |m.mem|
    ensures KernelSegments(Enter(m, 0, TIMER, code.irqHandler).r)
    ensures !Enabled(Enter(m, 0, TIMER, code.irqHandler).r.eflags)
  {
  }
}

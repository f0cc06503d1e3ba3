/** The interrupt flag during a tick, and the one instruction of `switch_to` a new thread executes with
    interrupts on. */
module Interrupts {
  import opened Words
  import opened Cpu
  import opened Threads
  import opened Preemption

  /** Returning from C functions does not touch the flags. */
  lemma {:induction false} EpiloguesKeepFlags(m: Machine, rets: seq<Word>)
    requires Epilogues(m, rets).Arrived?
    ensures Epilogues(m, rets).m.r.eflags == m.r.eflags
    decreases |rets|
  {
    if rets != [] {
      EpiloguesKeepFlags(LeaveRet(m), rets[1..]);
    }
  }

  /** The parts of a tick as one machine after the other: handler called, `switch_to` entered, only its
      `ret` left, back in `change_task_to`, and at each return on the way to the stub's `iret`. */
  ghost predicate OffThroughout(s: Sys, w: Machine, s': Sys, code: Code)
    requires 60 <= s.m.r.esp <= |s.m.mem| && CanSwitch(w)
  {
    var n := SwitchTo(w);
    && !Enabled(Enter(s.m, 0, TIMER, code.irqHandler).r.eflags)
    && !Enabled(w.r.eflags) && !Enabled(n.r.eflags) && !Enabled(Ret(n).r.eflags)
    && (forall k :: 0 <= k <= 4 ==> StillOff(Epilogues(Ret(n), Returns(code)[..k])))
    && var o := Epilogues(Ret(n), Returns(code));
    && o.Arrived? && o.m.r.esp + 60 <= |o.m.mem| && o.m.r.esp + 60 < ADDRESS_SPACE && s'.m == Leave(o.m)
  }

  predicate StillOff(o: Outcome) {
    o.Arrived? && !Enabled(o.m.r.eflags)
  }

  /** From the gate to the `iret` of the thread switched to no interrupt can be taken, so that a tick is
      one step as far as other interrupts are concerned. */
  lemma InterruptsStayOff(s: Sys, w: Machine, s': Sys, ts: seq<Thread>, code: Code)
    requires Holds(s, ts, code) && Tick(s, w, s', code) && s'.cur != s.cur && ts[s'.cur].Ready?
    ensures 60 <= s.m.r.esp <= |s.m.mem| && CanSwitch(w) && OffThroughout(s, w, s', code)
  {
    hide Get32, Chain, FrameAt, CanSwitch, Parked, SwitchTo, LeaveRet, PushAll;
    var j := s'.cur;
    var b, nb := s.order[s.cur], s.order[j];
    TickGoesRound(s, w, s', code);
    EnterIsConfined(s, code);
    DistinctBlocks(s);
    SwitchParksCurrent(s, w, j, ts, code);
    CallBounds(s, w, nb, code);
    assert BlocksApart(b, nb) || BlocksApart(nb, b);
    NextThreadRuns(w, b, nb, ts[j], code);
    var m := Ret(SwitchTo(w));
    forall k | 0 <= k <= 4
      ensures StillOff(Epilogues(m, Returns(code)[..k]))
    {
      PartOfTheWay(m, Returns(code), k);
      EpiloguesKeepFlags(m, Returns(code)[..k]);
    }
  }

  /** Who gets through all returns gets through the first k. */
  lemma {:induction false} PartOfTheWay(m: Machine, rets: seq<Word>, k: nat)
    requires k <= |rets| && Epilogues(m, rets).Arrived?
    ensures Epilogues(m, rets[..k]).Arrived?
    decreases |rets|
  {
    if k > 0 {
      PartOfTheWay(LeaveRet(m), rets[1..], k - 1);
      assert rets[1..][..k - 1] == rets[..k][1..];
    }
  }

  /** A new thread's `ret` is an ordinary step of that thread and takes it to `fn`. */
  lemma NewThreadStarts(s: Sys, fn: Word, arg: Word, code: Code)
    requires SysOk(s) && AboutToStart(s.m, s.order[s.cur], fn, arg, code)
    ensures UserStep(s, Sys(Ret(s.m), s.order, s.cur))
    ensures Begins(Ret(s.m), s.order[s.cur], fn, arg, code)
  {
    hide Get32, RingIs;
  }

  /** Interrupted at that very instruction and resumed at any later time, it is still about to start
      with the same function and argument. */
  lemma NewThreadStartsLater(ss: seq<Sys>, ts: seq<Thread>, w: Machine, fn: Word, arg: Word, code: Code)
    requires Run(ss, code) && |ss| >= 2 && Holds(ss[0], ts, code) && Tick(ss[0], w, ss[1], code)
    requires var i := ss[0].cur;
      (forall k :: 1 <= k < |ss| - 1 ==> ss[k].cur != i) && ss[|ss| - 1].cur == i
    requires ss[0].cur < |ss[0].order| && Block(ss[0].order[ss[0].cur]) && |ss[0].m.mem| == ADDRESS_SPACE
    requires AboutToStart(ss[0].m, ss[0].order[ss[0].cur], fn, arg, code)
    ensures var s, i := ss[|ss| - 1], ss[0].cur;
      && SysOk(s) && i < |s.order| && s.order[i] == ss[0].order[i]
      && AboutToStart(s.m, s.order[i], fn, arg, code)
  {
    hide Run, Tick, Holds, AboutToStart;
    PreemptionIsTransparent(ss, ts, w, code);
    SameStart(ss[0].m, ss[|ss| - 1].m, ss[0].order[ss[0].cur], fn, arg, code);
  }

  lemma SameStart(m: Machine, n: Machine, b: Word, fn: Word, arg: Word, code: Code)
    requires |m.mem| == |n.mem| == ADDRESS_SPACE && Block(b) && AboutToStart(m, b, fn, arg, code)
    requires n.r == m.r && StackFrom(n.mem, b, m.r.esp) == StackFrom(m.mem, b, m.r.esp)
    ensures AboutToStart(n, b, fn, arg, code)
  {
    hide Get32;
    var sp := m.r.esp;
    forall a | sp <= a < sp + 12
      ensures n.mem[a] == m.mem[a]
    {
      assert StackFrom(n.mem, b, sp)[a - sp] == StackFrom(m.mem, b, sp)[a - sp];
    }
    Get32Frame(n.mem, m.mem, sp);
    Get32Frame(n.mem, m.mem, sp + 4);
    Get32Frame(n.mem, m.mem, sp + 8);
  }
}

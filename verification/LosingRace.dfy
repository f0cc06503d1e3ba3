/** A run of two creations that ends with one of the new threads lost. */
module LosingRace {
  import opened Words
  import opened Cpu
  import opened Threads
  import opened Preemption
  import opened Tasks
  import opened Creation
  import opened Race
  import Sched
  import Ticking

  /** The timer can interrupt a thread with registers `u` on block `b`. */
  predicate Interruptible(u: Regs, b: Word) {
    Enabled(u.eflags) && b + TASK_SIZE + 108 <= u.esp
  }

  /** A run from `m` to `n`. */
  ghost predicate Path(ms: seq<Moment>, m: Moment, n: Moment, j1: Job, j2: Job, code: Code)
    requires Pair(j1, j2, code)
  {
    ms != [] && RaceRun(ms, j1, j2, code) && ms[0] == m && ms[|ms| - 1] == n
  }

  lemma PathShape(ms: seq<Moment>, m: Moment, n: Moment, j1: Job, j2: Job, code: Code)
    requires Pair(j1, j2, code) && Path(ms, m, n, j1, j2, code)
    ensures ms != [] && RaceRun(ms, j1, j2, code) && ms[0] == m && ms[|ms| - 1] == n
  {
  }

  /** Two runs, the second from where the first ends. */
  lemma Joined(ms: seq<Moment>, rs: seq<Moment>, m: Moment, n: Moment, o: Moment, j1: Job, j2: Job, code: Code)
      returns (all: seq<Moment>)
    requires Pair(j1, j2, code) && Path(ms, m, n, j1, j2, code) && Path(rs, n, o, j1, j2, code)
    ensures Path(all, m, o, j1, j2, code)
  {
    hide Pair, RaceStep;
    all := ms + rs[1..];
    forall k | 0 <= k && k + 1 < |all|
      ensures RaceStep(all[k], all[k + 1], j1, j2, code)
    {
      if k + 1 < |ms| {
        assert RaceStep(ms[k], ms[k + 1], j1, j2, code);
      } else {
        var i := k - (|ms| - 1);
        assert RaceStep(rs[i], rs[i + 1], j1, j2, code);
      }
    }
  }

  lemma OneStep(m: Moment, m': Moment, j1: Job, j2: Job, code: Code)
    requires Pair(j1, j2, code) && RaceStep(m, m', j1, j2, code)
    ensures Path([m, m'], m, m', j1, j2, code)
  {
    hide RaceStep;
  }

  /** The first creator, left alone, gets as far as finding its tail. */
  lemma {:induction false} FirstFindsTail(m: Moment, j1: Job, j2: Job, ts: seq<Thread>, code: Code)
      returns (ms: seq<Moment>, n: Moment, ts': seq<Thread>)
    requires Pair(j1, j2, code) && BothCreating(m, j1, j2, code) && Holds(m.s, ts, code)
    requires m.s.cur == j1.creator
    ensures Path(ms, m, n, j1, j2, code)
    ensures n.p1.Found? && n.p2 == m.p2 && n.s.cur == m.s.cur && n.s.m.r == m.s.m.r
    ensures BothCreating(n, j1, j2, code) && Holds(n.s, ts', code)
    ensures |ts| <= |ts'| && forall i :: 0 <= i < |ts| && i != m.s.cur && ts[i].Ready? ==> ts'[i] == ts[i]
    decreases StepsLeft(m, j1, code)
  {
    if m.p1.Found? {
      ms, n, ts' := [m], m, ts;
    } else {
      HoldsShape(m.s, ts, code);
      NotDone(m, j1, j2, code);
      PartCreating(m, j1, j2, code);
      hide Pair, JobOk, BothCreating, Creating, CreatorStep, Holds, SysOk, Plan, Left;
      var s', p' := CreatorCanStep(m.s, m.p1, j1, code);
      var m' := Moment(s', p', m.p2);
      CreatorStepKeeps(m.s, m.p1, s', p', j1, code);
      OnlyFoundLinks(m.s, m.p1, s', p', j1, code);
      assert RaceStep(m, m', j1, j2, code);
      var ts1 := BothStep(m, m', j1, j2, ts, code);
      var rest;
      rest, n, ts' := FirstFindsTail(m', j1, j2, ts1, code);
      OneStep(m, m', j1, j2, code);
      ms := Joined([m, m'], rest, m, m', n, j1, j2, code);
    }
  }

  function StepsLeft(m: Moment, j: Job, code: Code): nat
    requires JobOk(j, code)
  {
    if Left(m.p1, j, code) < 0 then 0 else Left(m.p1, j, code)
  }

  lemma PartCreating(m: Moment, j1: Job, j2: Job, code: Code)
    requires Pair(j1, j2, code) && BothCreating(m, j1, j2, code)
    ensures JobOk(j1, code) && JobOk(j2, code) && Creating(m.s, m.p1, j1, code) && Creating(m.s, m.p2, j2, code)
    ensures SysOk(m.s) && m.s.order == j1.order == j2.order && Left(m.p1, j1, code) > 0
  {
    LeftToDo(m.p1, m.s, j1, code);
  }

  lemma OnlyFoundLinks(s: Sys, p: Progress, s': Sys, p': Progress, j: Job, code: Code)
    requires JobOk(j, code) && CreatorStep(s, p, s', p', j, code)
    ensures p'.Done? <==> p.Found?
    ensures s'.cur == s.cur
  {
    hide Plan, SysOk;
  }

  lemma SecondFindsTail(m: Moment, j1: Job, j2: Job, ts: seq<Thread>, code: Code)
      returns (ms: seq<Moment>, n: Moment, ts': seq<Thread>)
    requires Pair(j1, j2, code) && BothCreating(m, j1, j2, code) && Holds(m.s, ts, code)
    requires m.s.cur == j2.creator
    ensures Path(ms, m, n, j1, j2, code)
    ensures n.p2.Found? && n.p1 == m.p1 && n.s.cur == m.s.cur && n.s.m.r == m.s.m.r
    ensures BothCreating(n, j1, j2, code) && Holds(n.s, ts', code)
    ensures |ts| <= |ts'| && forall i :: 0 <= i < |ts| && i != m.s.cur && ts[i].Ready? ==> ts'[i] == ts[i]
  {
    PairSwap(j1, j2, code);
    SwappedStart(m, j1, j2, code);
    hide Pair, BothCreating, Holds;
    var rs, r;
    rs, r, ts' := FirstFindsTail(Moment(m.s, m.p2, m.p1), j2, j1, ts, code);
    SwappedRun(rs, j2, j1, code);
    SwappedStart(r, j2, j1, code);
    ms, n := Swapped(rs), Moment(r.s, r.p2, r.p1);
  }

  /** A tick between two threads that have both been running before. */
  lemma TickOver(m: Moment, j1: Job, j2: Job, ts: seq<Thread>, code: Code) returns (m': Moment)
    requires Pair(j1, j2, code) && Holds(m.s, ts, code) && Interruptible(m.s.m.r, m.s.order[m.s.cur])
    requires ts[After(m.s.cur, |m.s.order|)].Ready?
    ensures Path([m, m'], m, m', j1, j2, code) && m'.p1 == m.p1 && m'.p2 == m.p2
    ensures OtherStep(m.s, m.p1, m'.s, m'.p1, j1, code) && OtherStep(m.s, m.p2, m'.s, m'.p2, j2, code)
    ensures m'.s.order == m.s.order && m'.s.cur == After(m.s.cur, |m.s.order|)
    ensures Holds(m'.s, ts, code) && m'.s.m.r == ts[m'.s.cur].u
  {
    hide Tick, Holds, UserStep, Parked;
    HoldsShape(m.s, ts, code);
    var w, s' := Ticking.TickCanHappen(m.s, ts, code);
    TickShape(m.s, w, s', code);
    TickKeepsThreads(m.s, w, s', ts, code);
    m' := Moment(s', m.p1, m.p2);
    assert OtherStep(m.s, m.p1, m'.s, m'.p1, j1, code) && OtherStep(m.s, m.p2, m'.s, m'.p2, j2, code);
    OneStep(m, m', j1, j2, code);
  }

  /** A tick while both creations are under way. */
  lemma TickBetween(m: Moment, j1: Job, j2: Job, ts: seq<Thread>, code: Code) returns (m': Moment)
    requires Pair(j1, j2, code) && BothCreating(m, j1, j2, code) && Holds(m.s, ts, code)
    requires Interruptible(m.s.m.r, m.s.order[m.s.cur]) && ts[After(m.s.cur, |m.s.order|)].Ready?
    ensures Path([m, m'], m, m', j1, j2, code) && m'.p1 == m.p1 && m'.p2 == m.p2
    ensures BothCreating(m', j1, j2, code)
    ensures m'.s.order == m.s.order && m'.s.cur == After(m.s.cur, |m.s.order|)
    ensures Holds(m'.s, ts, code) && m'.s.m.r == ts[m'.s.cur].u
  {
    hide Pair, BothCreating, Holds, OtherStep;
    m' := TickOver(m, j1, j2, ts, code);
    var _ := NoneMoves(m, m', j1, j2, ts, code);
  }

  /** The thread that runs is ready, with the machine's registers. */
  lemma CurrentIsReady(s: Sys, ts: seq<Thread>, code: Code)
    requires Holds(s, ts, code)
    ensures s.cur < |s.order| == |ts| && ts[s.cur].Ready? && ts[s.cur].u == s.m.r
  {
  }

  /** The stale link can be made. */
  lemma LinksLate(m: Moment, j1: Job, j2: Job, ts: seq<Thread>, code: Code) returns (m': Moment)
    requires Pair(j1, j2, code) && JobOk(Rebased(j2, j1.t), code) && Holds(m.s, ts, code) && m.p1.Done?
    requires m.p2 == Found(j2.order[|j2.order| - 1]) && m.s.cur == j2.creator
    requires m.s.order == j1.order + [j1.t]
    ensures Path([m, m'], m, m', j1, j2, code) && m'.p1.Done? && m'.p2.Done?
    ensures m'.s.order == j1.order + [j2.t]
  {
    hide Parked, Get32, RingIs;
    var s, tail, t := m.s, m.p2.tail, j2.t;
    assert s.order[|j2.order| - 1] == tail;
    MemberIsBlock(s, tail);
    MemberIsBlock(s, s.order[s.cur]);
    PrefixApart(j1.order, j1.t);
    LinkedBeforeLast(j1.order, j1.t, t);
    hide Linked;
    var s' := Sys(s.m.(mem := Put32(s.m.mem, tail + NEXT, t)), Linked(s.order, tail, t), s.cur);
    m' := Moment(s', Done, Done);
    assert CreatorStep(s, m.p2, s', Done, j2, code);
    OneStep(m, m', j1, j2, code);
  }

  lemma PrefixApart(order: seq<Word>, t: Word)
    requires AllApart(order + [t])
    ensures AllApart(order)
  {
    forall i, k | 0 <= i < k < |order|
      ensures BlocksApart(order[i], order[k])
    {
      assert BlocksApart((order + [t])[i], (order + [t])[k]);
    }
  }

  /** The first finds the tail and is interrupted, the second finds the same tail and is interrupted. */
  lemma BothFind(m: Moment, j1: Job, j2: Job, ts: seq<Thread>, code: Code)
      returns (ms: seq<Moment>, n: Moment, ts': seq<Thread>)
    requires Pair(j1, j2, code) && |j1.order| == 2 && j1.creator == 0 && j2.creator == 1
    requires BothCreating(m, j1, j2, code) && Holds(m.s, ts, code) && m.s.cur == 0
    requires |ts| == 2 && ts[1].Ready?
    requires Interruptible(m.s.m.r, j1.order[0]) && Interruptible(ts[1].u, j1.order[1])
    ensures Path(ms, m, n, j1, j2, code) && BothCreating(n, j1, j2, code) && Holds(n.s, ts', code)
    ensures n.s.cur == 0 && n.p1.Found? && n.p2.Found? && n.s.m.r == m.s.m.r && |ts'| == 2 && ts'[1].Ready?
  {
    hide Pair, BothCreating, Holds, Path, JobOk, SysOk, Creating;
    var a, m1, ts1 := FirstFindsTail(m, j1, j2, ts, code);
    PartCreating(m1, j1, j2, code);
    CurrentIsReady(m1.s, ts1, code);
    var m2 := TickBetween(m1, j1, j2, ts1, code);
    a := Joined(a, [m1, m2], m, m1, m2, j1, j2, code);
    var b, m3, ts2 := SecondFindsTail(m2, j1, j2, ts1, code);
    a := Joined(a, b, m, m2, m3, j1, j2, code);
    PartCreating(m3, j1, j2, code);
    CurrentIsReady(m3.s, ts2, code);
    n := TickBetween(m3, j1, j2, ts2, code);
    ms := Joined(a, [m3, n], m, m3, n, j1, j2, code);
    ts' := ts2;
  }

  /** The first links and is interrupted. */
  lemma FirstLinks(m: Moment, j1: Job, j2: Job, ts: seq<Thread>, code: Code)
      returns (ms: seq<Moment>, n: Moment, ts': seq<Thread>)
    requires Pair(j1, j2, code) && |j1.order| == 2 && j1.creator == 0 && j2.creator == 1
    requires BothCreating(m, j1, j2, code) && Holds(m.s, ts, code) && m.s.cur == 0 && m.p1.Found? && m.p2.Found?
    requires |ts| == 2 && ts[1].Ready? && Interruptible(m.s.m.r, j1.order[0])
    ensures Path(ms, m, n, j1, j2, code) && n.p1.Done? && n.p2 == m.p2 == Found(j2.order[|j2.order| - 1])
    ensures n.s.order == j1.order + [j1.t] && n.s.cur == 1 && Holds(n.s, ts', code)
    ensures JobOk(Rebased(j2, j1.t), code)
  {
    PartCreating(m, j1, j2, code);
    HoldsShape(m.s, ts, code);
    hide Pair, BothCreating, Holds, JobOk, SysOk, CreatorStep, Creating, Path, OtherStep;
    var s', p' := CreatorCanStep(m.s, m.p1, j1, code);
    OnlyFoundLinks(m.s, m.p1, s', p', j1, code);
    var m1 := Moment(s', p', m.p2);
    assert RaceStep(m, m1, j1, j2, code);
    OneStep(m, m1, j1, j2, code);
    ts' := LinkMoment(m, m1, j1, j2, ts, code);
    HoldsShape(s', ts', code);
    hide RaceStep;
    n := TickOver(m1, j1, j2, ts', code);
    ms := Joined([m, m1], [m1, n], m, m1, n, j1, j2, code);
  }

  /** From any ring of two threads that begin to create at the same time: the first finds the tail and is
      interrupted, the second finds the same tail and is interrupted, the first links, the second links.
      The thread linked first is gone. */
  lemma LosingRun(s: Sys, j1: Job, j2: Job, ts: seq<Thread>, code: Code) returns (ms: seq<Moment>)
    requires Pair(j1, j2, code) && |j1.order| == 2 && j1.creator == 0 && j2.creator == 1
    requires BothCreating(Moment(s, Storing(0), Storing(0)), j1, j2, code) && Holds(s, ts, code) && s.cur == 0
    requires |ts| == 2 && ts[1].Ready?
    requires Interruptible(s.m.r, j1.order[0]) && Interruptible(ts[1].u, j1.order[1])
    ensures ms != [] && RaceRun(ms, j1, j2, code) && ms[0] == Moment(s, Storing(0), Storing(0))
    ensures ms[|ms| - 1].p1.Done? && ms[|ms| - 1].p2.Done?
    ensures ms[|ms| - 1].s.order == j1.order + [j2.t] && j1.t !in ms[|ms| - 1].s.order
  {
    NewBlocks(j1, j2, code);
    var m := Moment(s, Storing(0), Storing(0));
    hide Pair, BothCreating, Holds, Path, JobOk;
    var a, m1, ts1 := BothFind(m, j1, j2, ts, code);
    var b, m2, ts2 := FirstLinks(m1, j1, j2, ts1, code);
    a := Joined(a, b, m, m1, m2, j1, j2, code);
    var m3 := LinksLate(m2, j1, j2, ts2, code);
    ms := Joined(a, [m2, m3], m, m2, m3, j1, j2, code);
    PathShape(ms, m, m3, j1, j2, code);
  }
}

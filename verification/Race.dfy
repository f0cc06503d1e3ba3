/** Two threads inside `kernel_thread` at once: when both new threads survive, and when one is lost. */
module Race {
  import opened Words
  import opened Cpu
  import opened Threads
  import opened Preemption
  import opened Tasks
  import opened Creation
  import Sched

  /** The system and how far each of the two creations has got. */
  datatype Moment = Moment(s: Sys, p1: Progress, p2: Progress)

  /** Two creations begun by different threads of the same ring, in blocks of their own. */
  predicate Pair(j1: Job, j2: Job, code: Code) {
    && JobOk(j1, code) && JobOk(j2, code)
    && j1.order == j2.order && j1.creator != j2.creator && BlocksApart(j1.t, j2.t)
  }

  /** A statement of one creator or the other, or a step that is neither. */
  ghost predicate RaceStep(m: Moment, m': Moment, j1: Job, j2: Job, code: Code)
    requires Pair(j1, j2, code)
  {
    || (m'.p2 == m.p2 && CreatorStep(m.s, m.p1, m'.s, m'.p1, j1, code))
    || (m'.p1 == m.p1 && CreatorStep(m.s, m.p2, m'.s, m'.p2, j2, code))
    || (OtherStep(m.s, m.p1, m'.s, m'.p1, j1, code) && OtherStep(m.s, m.p2, m'.s, m'.p2, j2, code))
  }

  ghost predicate RaceRun(ms: seq<Moment>, j1: Job, j2: Job, code: Code)
    requires Pair(j1, j2, code)
  {
    ms != [] && forall k :: 0 <= k && k + 1 < |ms| ==> RaceStep(ms[k], ms[k + 1], j1, j2, code)
  }

  /** Neither new thread is in the ring yet. */
  ghost predicate BothCreating(m: Moment, j1: Job, j2: Job, code: Code)
    requires Pair(j1, j2, code)
  {
    && !m.p1.Done? && !m.p2.Done?
    && Creating(m.s, m.p1, j1, code) && Creating(m.s, m.p2, j2, code)
  }

  /** The same creation seen from the ring that has grown by `t`. */
  function Rebased(j: Job, t: Word): Job {
    j.(order := j.order + [t])
  }

  /** A creation that has found its tail, put back to looking at it. */
  function Reconsidered(q: Progress): Progress {
    if q.Found? then Walking(q.tail) else q
  }

  // ----- one creator while the other is not moving

  /** What creator `a` writes is not in the other creation's block. */
  lemma OtherBlockStays(s: Sys, s': Sys, p: Progress, p': Progress, a: Job, b: Job, code: Code)
    requires Pair(a, b, code) && Creating(s, p, a, code) && !p.Done? && CreatorStep(s, p, s', p', a, code)
    ensures |s.m.mem| == |s'.m.mem| == ADDRESS_SPACE
    ensures forall x :: b.t <= x < b.t + STACK_SIZE ==> s'.m.mem[x] == s.m.mem[x]
  {
    hide Get32, RingIs, AllApart, Plan, Built;
    var c := s.order[s.cur];
    assert c in b.order && BlocksApart(c, b.t);
    if p.Found? {
      assert p.tail in b.order && BlocksApart(p.tail, b.t);
    }
  }

  lemma RebasedOk(a: Job, b: Job, code: Code)
    requires Pair(a, b, code)
    ensures JobOk(Rebased(b, a.t), code) && Plan(Rebased(b, a.t), code) == Plan(b, code)
  {
  }

  /** Creator `a` moves on by one statement. As long as it does not link, creation `b` is where it was;
      when it links, `b` is where it was in the longer ring, unless it has found its tail already. */
  lemma OneMoves(s: Sys, s': Sys, p: Progress, p': Progress, q: Progress, a: Job, b: Job, ts: seq<Thread>, code: Code)
      returns (ts': seq<Thread>)
    requires Pair(a, b, code) && !p.Done? && !q.Done? && Creating(s, p, a, code) && Creating(s, q, b, code)
    requires CreatorStep(s, p, s', p', a, code) && Holds(s, ts, code)
    ensures Holds(s', ts', code) && |ts| <= |ts'|
    ensures forall i :: 0 <= i < |ts| && i != s.cur && ts[i].Ready? ==> ts'[i] == ts[i]
    ensures Creating(s', p', a, code)
    ensures !p'.Done? ==> Creating(s', q, b, code)
    ensures p'.Done? ==> s'.order == a.order + [a.t] && JobOk(Rebased(b, a.t), code)
    ensures p'.Done? ==> Creating(s', Reconsidered(q), Rebased(b, a.t), code)
  {
    hide Get32, Plan, SysOk, CreatorStep, BlocksApart;
    ts' := CreationStepKeeps(s, p, s', p', a, ts, code);
    OtherBlockStays(s, s', p, p', a, b, code);
    RebasedOk(a, b, code);
  }

  /** A step of neither creator leaves both creations where they are. */
  lemma NoneMoves(m: Moment, m': Moment, j1: Job, j2: Job, ts: seq<Thread>, code: Code) returns (ts': seq<Thread>)
    requires Pair(j1, j2, code) && BothCreating(m, j1, j2, code) && Holds(m.s, ts, code)
    requires OtherStep(m.s, m.p1, m'.s, m'.p1, j1, code) && OtherStep(m.s, m.p2, m'.s, m'.p2, j2, code)
    ensures BothCreating(m', j1, j2, code) && Holds(m'.s, ts', code) && |ts| <= |ts'|
    ensures forall i :: 0 <= i < |ts| && i != m.s.cur && ts[i].Ready? ==> ts'[i] == ts[i]
  {
    hide Creating, JobOk, Holds, Tick, UserStep;
    ts' := CreationStepKeeps(m.s, m.p1, m'.s, m'.p1, j1, ts, code);
    var _ := CreationStepKeeps(m.s, m.p2, m'.s, m'.p2, j2, ts, code);
  }

  /** Links are not undone. */
  lemma DoneStays(m: Moment, m': Moment, j1: Job, j2: Job, code: Code)
    requires Pair(j1, j2, code) && RaceStep(m, m', j1, j2, code)
    ensures m.p1.Done? ==> m'.p1.Done? && CreationStep(m.s, m.p2, m'.s, m'.p2, j2, code)
    ensures m.p2.Done? ==> m'.p2.Done? && CreationStep(m.s, m.p1, m'.s, m'.p1, j1, code)
  {
    hide Plan, SysOk, Effect;
  }

  /** Until the first link both creations go their way as if alone. */
  lemma {:induction false} BothUntilLink(ms: seq<Moment>, k: nat, j1: Job, j2: Job, ts: seq<Thread>, code: Code)
      returns (ts': seq<Thread>)
    requires Pair(j1, j2, code) && RaceRun(ms, j1, j2, code) && k < |ms|
    requires BothCreating(ms[0], j1, j2, code) && Holds(ms[0].s, ts, code)
    requires !ms[k].p1.Done? && !ms[k].p2.Done?
    ensures BothCreating(ms[k], j1, j2, code) && Holds(ms[k].s, ts', code)
  {
    hide Pair, BothCreating, CreatorStep, OtherStep, Holds;
    if k == 0 {
      ts' := ts;
    } else {
      var m, m' := ms[k - 1], ms[k - 1 + 1];
      assert RaceStep(m, m', j1, j2, code);
      DoneStays(m, m', j1, j2, code);
      var ts1 := BothUntilLink(ms, k - 1, j1, j2, ts, code);
      ts' := BothStep(m, m', j1, j2, ts1, code);
    }
  }

  lemma BothStep(m: Moment, m': Moment, j1: Job, j2: Job, ts: seq<Thread>, code: Code) returns (ts': seq<Thread>)
    requires Pair(j1, j2, code) && RaceStep(m, m', j1, j2, code) && !m'.p1.Done? && !m'.p2.Done?
    requires BothCreating(m, j1, j2, code) && Holds(m.s, ts, code)
    ensures BothCreating(m', j1, j2, code) && Holds(m'.s, ts', code) && |ts| <= |ts'|
    ensures forall i :: 0 <= i < |ts| && i != m.s.cur && ts[i].Ready? ==> ts'[i] == ts[i]
  {
    hide JobOk, Creating, CreatorStep, OtherStep, Holds;
    if m'.p2 == m.p2 && CreatorStep(m.s, m.p1, m'.s, m'.p1, j1, code) {
      ts' := OneMoves(m.s, m'.s, m.p1, m'.p1, m.p2, j1, j2, ts, code);
    } else if m'.p1 == m.p1 && CreatorStep(m.s, m.p2, m'.s, m'.p2, j2, code) {
      PairSwap(j1, j2, code);
      ts' := OneMoves(m.s, m'.s, m.p2, m'.p2, m.p1, j2, j1, ts, code);
    } else {
      ts' := NoneMoves(m, m', j1, j2, ts, code);
    }
  }

  lemma PairSwap(j1: Job, j2: Job, code: Code)
    requires Pair(j1, j2, code)
    ensures Pair(j2, j1, code)
  {
  }

  // ----- after the first link

  lemma RebasedStep(s: Sys, p: Progress, s': Sys, p': Progress, b: Job, t: Word, code: Code)
    requires JobOk(b, code) && JobOk(Rebased(b, t), code) && Plan(Rebased(b, t), code) == Plan(b, code)
    requires CreationStep(s, p, s', p', b, code)
    ensures CreationStep(s, p, s', p', Rebased(b, t), code)
  {
    hide Plan, SysOk, Effect, Tick, UserStep;
  }

  lemma RebasedRun(ss: seq<Sys>, qs: seq<Progress>, b: Job, t: Word, code: Code)
    requires JobOk(b, code) && JobOk(Rebased(b, t), code) && Plan(Rebased(b, t), code) == Plan(b, code)
    requires CreationRun(ss, qs, b, code)
    ensures CreationRun(ss, qs, Rebased(b, t), code)
  {
    hide JobOk, CreationStep, Plan;
    forall k | 0 <= k && k + 1 < |ss|
      ensures CreationStep(ss[k], qs[k], ss[k + 1], qs[k + 1], Rebased(b, t), code)
    {
      RebasedStep(ss[k], qs[k], ss[k + 1], qs[k + 1], b, t, code);
    }
  }

  /** The second creation had not found its tail: it finds the new end of the ring. */
  lemma FreshEnd(ss: seq<Sys>, qs: seq<Progress>, a: Job, b: Job, ts: seq<Thread>, code: Code)
    requires Pair(a, b, code) && |ss| == |qs| > 0 && CreationRun(ss, qs, b, code) && JobOk(Rebased(b, a.t), code)
    requires Creating(ss[0], qs[0], Rebased(b, a.t), code) && Holds(ss[0], ts, code) && qs[|qs| - 1].Done?
    ensures SysOk(ss[|ss| - 1]) && ss[|ss| - 1].order == b.order + [a.t] + [b.t]
  {
    RebasedOk(a, b, code);
    RebasedRun(ss, qs, b, a.t, code);
    hide CreationRun, Creating, Holds, SysOk, JobOk;
    CreationKeepsRing(ss, qs, Rebased(b, a.t), ts, code);
  }

  /** Taking the last block out of the ring disturbs no other thread. */
  lemma LastOut(s: Sys, order: seq<Word>, t: Word, ts: seq<Thread>, code: Code) returns (s0: Sys)
    requires Holds(s, ts, code) && order != [] && s.order == order + [t] && s.cur < |order|
    ensures Block(order[|order| - 1]) && |s.m.mem| == ADDRESS_SPACE && |order| <= |ts|
    ensures s0 == Sys(s.m.(mem := Put32(s.m.mem, order[|order| - 1] + NEXT, order[0])), order, s.cur)
    ensures SysOk(s0) && Holds(s0, ts[..|order|], code)
  {
    hide Get32, Parked;
    var n, last := |order|, order[|order| - 1];
    MemberIsBlock(s, last);
    s0 := Sys(s.m.(mem := Put32(s.m.mem, last + NEXT, order[0])), order, s.cur);
    RingShrinks(s.m.mem, order, t);
    forall i | 0 <= i < n
      ensures s.order[i] == order[i] && Block(order[i])
      ensures forall x :: SavedPart(order[i], x) ==> s0.m.mem[x] == s.m.mem[x]
    {
      assert s.order[i] == order[i];
      if i != n - 1 {
        assert BlocksApart(s.order[i], s.order[n - 1]);
      }
    }
    hide SysOk;
    forall i | 0 <= i < n && i != s.cur
      ensures Parked(s0.m.mem, order[i], ts[i], code)
    {
      ParkedStays(s.m.mem, s0.m.mem, order[i], ts[i], code);
    }
  }

  lemma RingShrinks(mem: seq<Byte>, order: seq<Word>, t: Word)
    requires |mem| == ADDRESS_SPACE && order != [] && RingIs(mem, order + [t]) && AllApart(order + [t])
    ensures Block(order[|order| - 1])
    ensures RingIs(Put32(mem, order[|order| - 1] + NEXT, order[0]), order) && AllApart(order)
  {
    hide Get32;
    var n, ring, last := |order|, order + [t], order[|order| - 1];
    assert ring[n - 1] == last && Block(ring[n - 1]);
    var later := Put32(mem, last + NEXT, order[0]);
    forall i, k | 0 <= i < k < n
      ensures BlocksApart(order[i], order[k])
    {
      assert BlocksApart(ring[i], ring[k]);
    }
    forall i | 0 <= i < n
      ensures Block(order[i]) && Get32(later, order[i] + NEXT) == order[After(i, n)]
    {
      assert ring[i] == order[i] && Block(ring[i]) && Get32(mem, ring[i] + NEXT) == ring[After(i, n + 1)];
      if i < n - 1 {
        assert BlocksApart(order[i], last);
        Get32AfterPut32(mem, last + NEXT, order[0], order[i] + NEXT);
      }
    }
  }

  /** The second creation had found the old tail: its link puts the first new thread out of the ring,
      as if that one had never been in it. */
  lemma StaleLink(s: Sys, s': Sys, q: Progress, q': Progress, a: Job, b: Job, ts: seq<Thread>, code: Code)
      returns (ts': seq<Thread>)
    requires Pair(a, b, code) && JobOk(Rebased(b, a.t), code) && q == Found(b.order[|b.order| - 1])
    requires Creating(s, Reconsidered(q), Rebased(b, a.t), code) && Holds(s, ts, code)
    requires CreatorStep(s, q, s', q', b, code)
    ensures Creating(s', q', b, code) && Holds(s', ts', code) && q'.Done?
  {
    hide Get32, Plan, Apply, Holds;
    RebasedOk(a, b, code);
    var s0 := LastOut(s, b.order, a.t, ts, code);
    LinksAsBefore(s, s0, s', q, q', a, b, code);
    hide SysOk, Creating, CreatorStep, JobOk;
    LinkStep(s0, s', q, q', b, code);
    SpawnKeepsThreads(s0, s', b.t, b.fn, b.arg, ts[..|b.order|], code);
    ts' := ts[..|b.order|][s0.cur := Ready(s'.m.r, StackFrom(s'.m.mem, s0.order[s0.cur], s'.m.r.esp))]
           + [Unstarted(b.fn, b.arg)];
  }

  lemma LinksAsBefore(s: Sys, s0: Sys, s': Sys, q: Progress, q': Progress, a: Job, b: Job, code: Code)
    requires Pair(a, b, code) && JobOk(Rebased(b, a.t), code) && q == Found(b.order[|b.order| - 1])
    requires Plan(Rebased(b, a.t), code) == Plan(b, code)
    requires Creating(s, Reconsidered(q), Rebased(b, a.t), code) && CreatorStep(s, q, s', q', b, code)
    requires |s.m.mem| == ADDRESS_SPACE && Block(q.tail) && SysOk(s0)
    requires s0 == Sys(s.m.(mem := Put32(s.m.mem, q.tail + NEXT, b.order[0])), b.order, s.cur)
    ensures Creating(s0, q, b, code) && CreatorStep(s0, q, s', q', b, code)
  {
    FoundClauses(s, q, s', q', b, code);
    RebasedClauses(s, q, a, b, code);
    hide Creating, CreatorStep, Built, Plan, RingIs, Linked, Effect;
    LinkedLast(b.order, b.t);
    LinkedBeforeLast(b.order, a.t, b.t);
    hide AllApart;
    StillBuilt(s, s0, q.tail, b, code);
    EffectAgain(s, s0, s', q.tail, b.order[0], b.t);
    FoundAgain(s0, q, s', q', b, code);
  }

  lemma FoundClauses(s: Sys, q: Progress, s': Sys, q': Progress, b: Job, code: Code)
    requires JobOk(b, code) && CreatorStep(s, q, s', q', b, code) && q.Found?
    ensures SysOk(s) && s.cur == b.creator && Block(q.tail) && s'.order == Linked(s.order, q.tail, b.t)
    ensures |s.m.mem| == ADDRESS_SPACE && Effect(s, s', Put32(s.m.mem, q.tail + NEXT, b.t)) && q' == Done
  {
    hide Plan, Linked;
  }

  lemma RebasedClauses(s: Sys, q: Progress, a: Job, b: Job, code: Code)
    requires Pair(a, b, code) && JobOk(Rebased(b, a.t), code) && q == Found(b.order[|b.order| - 1])
    requires Plan(Rebased(b, a.t), code) == Plan(b, code) && Creating(s, Reconsidered(q), Rebased(b, a.t), code)
    ensures s.order == b.order + [a.t] && Built(s, |Plan(b, code)|, b, code)
  {
    hide Plan, ApplyAll, SysOk;
  }

  lemma EffectAgain(s: Sys, s0: Sys, s': Sys, tail: Word, head: Word, t: Word)
    requires SysOk(s) && SysOk(s0) && Block(tail) && Effect(s, s', Put32(s.m.mem, tail + NEXT, t))
    requires s0.m.mem == Put32(s.m.mem, tail + NEXT, head) && s0.cur == s.cur
    requires s0.order[s0.cur] == s.order[s.cur]
    ensures |s0.m.mem| == ADDRESS_SPACE && Effect(s0, s', Put32(s0.m.mem, tail + NEXT, t))
  {
    hide Get32, RingIs, AllApart;
    assert Put32(s0.m.mem, tail + NEXT, t) == Put32(s.m.mem, tail + NEXT, t);
  }

  lemma FoundAgain(s: Sys, q: Progress, s': Sys, q': Progress, b: Job, code: Code)
    requires JobOk(b, code) && SysOk(s) && s.order == b.order && s.cur == b.creator
    requires q == Found(b.order[|b.order| - 1]) && q' == Done && Block(q.tail)
    requires Built(s, |Plan(b, code)|, b, code) && s'.order == Linked(b.order, q.tail, b.t)
    requires |s.m.mem| == ADDRESS_SPACE && Effect(s, s', Put32(s.m.mem, q.tail + NEXT, b.t))
    ensures Creating(s, q, b, code) && CreatorStep(s, q, s', q', b, code)
  {
    hide Plan, Built, Linked, Effect, RingIs;
  }

  /** Changing the tail's link does not touch a new block. */
  lemma StillBuilt(s: Sys, s0: Sys, tail: Word, b: Job, code: Code)
    requires JobOk(b, code) && tail in b.order && Block(tail) && |s.m.mem| == ADDRESS_SPACE
    requires Built(s, |Plan(b, code)|, b, code)
    requires s0.m.mem == Put32(s.m.mem, tail + NEXT, b.order[0])
    ensures Built(s0, |Plan(b, code)|, b, code)
  {
    hide Get32, Plan, ApplyAll;
    assert BlocksApart(tail, b.t);
  }

  lemma LinkedBeforeLast(order: seq<Word>, t: Word, u: Word)
    requires order != [] && AllApart(order)
    ensures Linked(order + [t], order[|order| - 1], u) == order + [u]
  {
    PositionInPrefix(order, t, order[|order| - 1]);
    Sched.TaskList.Distinct(order);
    assert (order + [t])[..|order|] == order;
  }

  lemma {:induction false} PositionInPrefix(order: seq<Word>, t: Word, b: Word)
    requires b in order
    ensures Position(order + [t], b) == Position(order, b)
  {
    if order[0] != b {
      assert (order + [t])[1..] == order[1..] + [t];
      PositionInPrefix(order[1..], t, b);
    }
  }

  lemma {:induction false} StaleEnd(ss: seq<Sys>, qs: seq<Progress>, a: Job, b: Job, ts: seq<Thread>, code: Code)
    requires Pair(a, b, code) && |ss| == |qs| > 0 && CreationRun(ss, qs, b, code) && JobOk(Rebased(b, a.t), code)
    requires qs[0] == Found(b.order[|b.order| - 1]) && qs[|qs| - 1].Done?
    requires Creating(ss[0], Reconsidered(qs[0]), Rebased(b, a.t), code) && Holds(ss[0], ts, code)
    ensures SysOk(ss[|ss| - 1]) && ss[|ss| - 1].order == b.order + [b.t]
    decreases |ss|
  {
    hide Pair, JobOk, Creating, CreatorStep, OtherStep, Holds, SysOk, CreationRun;
    PairJobs(a, b, code);
    CreationRunRest(ss, qs, b, code);
    if CreatorStep(ss[0], qs[0], ss[1], qs[1], b, code) {
      var ts' := StaleLink(ss[0], ss[1], qs[0], qs[1], a, b, ts, code);
      CreationKeepsRing(ss[1..], qs[1..], b, ts', code);
    } else {
      var ts' := StaleWaits(ss[0], ss[1], qs[0], qs[1], a, b, ts, code);
      StaleEnd(ss[1..], qs[1..], a, b, ts', code);
    }
  }

  lemma PairJobs(a: Job, b: Job, code: Code)
    requires Pair(a, b, code)
    ensures JobOk(a, code) && JobOk(b, code) && a.order == b.order != []
  {
  }

  lemma StaleWaits(s: Sys, s': Sys, q: Progress, q': Progress, a: Job, b: Job, ts: seq<Thread>, code: Code)
      returns (ts': seq<Thread>)
    requires Pair(a, b, code) && JobOk(Rebased(b, a.t), code) && q.Found?
    requires Creating(s, Reconsidered(q), Rebased(b, a.t), code) && Holds(s, ts, code)
    requires OtherStep(s, q, s', q', b, code)
    ensures q' == q && Creating(s', Reconsidered(q), Rebased(b, a.t), code) && Holds(s', ts', code)
  {
    hide Creating, Holds, JobOk, Tick, UserStep;
    ts' := CreationStepKeeps(s, Reconsidered(q), s', Reconsidered(q), Rebased(b, a.t), ts, code);
  }

  // ----- the outcome

  function Systems(ms: seq<Moment>): (ss: seq<Sys>)
    ensures |ss| == |ms| && forall i :: 0 <= i < |ms| ==> ss[i] == ms[i].s
  {
    seq(|ms|, i requires 0 <= i < |ms| => ms[i].s)
  }

  function Seconds(ms: seq<Moment>): (ps: seq<Progress>)
    ensures |ps| == |ms| && forall i :: 0 <= i < |ms| ==> ps[i] == ms[i].p2
  {
    seq(|ms|, i requires 0 <= i < |ms| => ms[i].p2)
  }

  /** Once the first has linked, the second is the only creation left. */
  lemma {:induction false} OneIsLeft(ms: seq<Moment>, j1: Job, j2: Job, code: Code)
    requires Pair(j1, j2, code) && RaceRun(ms, j1, j2, code) && ms[0].p1.Done?
    ensures CreationRun(Systems(ms), Seconds(ms), j2, code)
    decreases |ms|
  {
    hide Pair, CreationStep, RaceStep;
    PairJobs(j1, j2, code);
    forall k | 0 <= k && k + 1 < |ms|
      ensures CreationStep(ms[k].s, ms[k].p2, ms[k + 1].s, ms[k + 1].p2, j2, code)
    {
      StaysDone(ms, k, j1, j2, code);
      DoneStays(ms[k], ms[k + 1], j1, j2, code);
    }
  }

  lemma {:induction false} StaysDone(ms: seq<Moment>, k: nat, j1: Job, j2: Job, code: Code)
    requires Pair(j1, j2, code) && RaceRun(ms, j1, j2, code) && ms[0].p1.Done? && k < |ms|
    ensures ms[k].p1.Done?
  {
    hide Pair, CreationStep, RaceStep;
    if k > 0 {
      StaysDone(ms, k - 1, j1, j2, code);
      assert RaceStep(ms[k - 1], ms[k - 1 + 1], j1, j2, code);
      DoneStays(ms[k - 1], ms[k], j1, j2, code);
    }
  }

  lemma RaceRest(ms: seq<Moment>, k: nat, j1: Job, j2: Job, code: Code)
    requires Pair(j1, j2, code) && RaceRun(ms, j1, j2, code) && k < |ms|
    ensures RaceRun(ms[k..], j1, j2, code)
  {
    hide Pair, RaceStep;
    forall i | 0 <= i && i + 1 < |ms[k..]|
      ensures RaceStep(ms[k..][i], ms[k..][i + 1], j1, j2, code)
    {
      assert RaceStep(ms[k + i], ms[k + i + 1], j1, j2, code);
    }
  }

  /** The step by which the first creation links, the second not yet done. */
  lemma LinkMoment(m: Moment, m': Moment, j1: Job, j2: Job, ts: seq<Thread>, code: Code) returns (ts': seq<Thread>)
    requires Pair(j1, j2, code) && RaceStep(m, m', j1, j2, code) && BothCreating(m, j1, j2, code)
    requires Holds(m.s, ts, code) && !m.p1.Done? && m'.p1.Done?
    ensures Holds(m'.s, ts', code) && JobOk(Rebased(j2, j1.t), code) && m'.p2 == m.p2
    ensures m'.s.order == j1.order + [j1.t]
    ensures Creating(m'.s, Reconsidered(m.p2), Rebased(j2, j1.t), code)
    ensures m.p2.Found? ==> m.p2 == Found(j2.order[|j2.order| - 1])
    ensures |ts| <= |ts'| && forall i :: 0 <= i < |ts| && i != m.s.cur && ts[i].Ready? ==> ts'[i] == ts[i]
  {
    FirstMoved(m, m', j1, j2, code);
    LinkingJobs(m, j1, j2, code);
    hide JobOk, Creating, CreatorStep, Holds, OtherStep, Pair, BothCreating, RaceStep;
    ts' := OneMoves(m.s, m'.s, m.p1, m'.p1, m.p2, j1, j2, ts, code);
  }

  lemma FirstMoved(m: Moment, m': Moment, j1: Job, j2: Job, code: Code)
    requires Pair(j1, j2, code) && RaceStep(m, m', j1, j2, code) && !m.p1.Done? && m'.p1.Done?
    ensures CreatorStep(m.s, m.p1, m'.s, m'.p1, j1, code) && m'.p2 == m.p2
  {
    hide JobOk, CreatorStep, Tick, UserStep;
  }

  lemma LinkingJobs(m: Moment, j1: Job, j2: Job, code: Code)
    requires Pair(j1, j2, code) && BothCreating(m, j1, j2, code)
    ensures JobOk(j1, code) && JobOk(j2, code) && j1.order == j2.order != []
    ensures !m.p1.Done? && !m.p2.Done? && Creating(m.s, m.p1, j1, code) && Creating(m.s, m.p2, j2, code)
    ensures m.p2.Found? ==> m.p2 == Found(j2.order[|j2.order| - 1])
  {
    hide Creating;
    if m.p2.Found? {
      FoundIsLast(m.s, m.p2, j2, code);
    }
  }

  lemma FoundIsLast(s: Sys, p: Progress, j: Job, code: Code)
    requires JobOk(j, code) && Creating(s, p, j, code) && p.Found?
    ensures p == Found(j.order[|j.order| - 1])
  {
  }

  /** The first creation links at step k. In the end both new threads are in the ring if and only if the
      second one finds its tail after that; otherwise the first new thread is lost. */
  lemma FirstLinksFirst(ms: seq<Moment>, k: nat, j1: Job, j2: Job, ts: seq<Thread>, code: Code)
    requires Pair(j1, j2, code) && RaceRun(ms, j1, j2, code) && k + 1 < |ms|
    requires BothCreating(ms[0], j1, j2, code) && Holds(ms[0].s, ts, code)
    requires !ms[k].p1.Done? && !ms[k].p2.Done? && ms[k + 1].p1.Done? && ms[|ms| - 1].p2.Done?
    ensures var s := ms[|ms| - 1].s;
      && SysOk(s)
      && (!ms[k].p2.Found? ==> s.order == j1.order + [j1.t] + [j2.t])
      && (ms[k].p2.Found? ==> s.order == j1.order + [j2.t])
  {
    hide Pair, JobOk, BothCreating, Creating, CreationRun, Holds, SysOk, RaceStep;
    var ts1 := BothUntilLink(ms, k, j1, j2, ts, code);
    assert RaceStep(ms[k], ms[k + 1], j1, j2, code);
    PairJobs(j1, j2, code);
    var ts2 := LinkMoment(ms[k], ms[k + 1], j1, j2, ts1, code);
    RaceRest(ms, k + 1, j1, j2, code);
    var rest := ms[k + 1..];
    OneIsLeft(rest, j1, j2, code);
    if ms[k].p2.Found? {
      StaleEnd(Systems(rest), Seconds(rest), j1, j2, ts2, code);
    } else {
      FreshEnd(Systems(rest), Seconds(rest), j1, j2, ts2, code);
    }
  }

  function Swapped(ms: seq<Moment>): (rs: seq<Moment>)
    ensures |rs| == |ms| && forall i :: 0 <= i < |ms| ==> rs[i] == Moment(ms[i].s, ms[i].p2, ms[i].p1)
  {
    seq(|ms|, i requires 0 <= i < |ms| => Moment(ms[i].s, ms[i].p2, ms[i].p1))
  }

  lemma SwappedRun(ms: seq<Moment>, j1: Job, j2: Job, code: Code)
    requires Pair(j1, j2, code) && RaceRun(ms, j1, j2, code)
    ensures Pair(j2, j1, code) && RaceRun(Swapped(ms), j2, j1, code)
  {
    PairSwap(j1, j2, code);
    hide JobOk, CreatorStep, OtherStep;
    var rs := Swapped(ms);
    forall k | 0 <= k && k + 1 < |rs|
      ensures RaceStep(rs[k], rs[k + 1], j2, j1, code)
    {
      assert RaceStep(ms[k], ms[k + 1], j1, j2, code);
    }
  }

  /** The first step at which one of the two is linked; it links only that one. */
  lemma {:induction false} FirstLink(ms: seq<Moment>, n: nat, j1: Job, j2: Job, code: Code) returns (k: nat)
    requires Pair(j1, j2, code) && RaceRun(ms, j1, j2, code) && n < |ms|
    requires !ms[0].p1.Done? && !ms[0].p2.Done? && (ms[n].p1.Done? || ms[n].p2.Done?)
    ensures k < n && !ms[k].p1.Done? && !ms[k].p2.Done?
    ensures ms[k + 1].p1.Done? != ms[k + 1].p2.Done?
  {
    hide JobOk, CreatorStep, OtherStep;
    k := n - 1;
    assert RaceStep(ms[k], ms[k + 1], j1, j2, code);
    if ms[k].p1.Done? || ms[k].p2.Done? {
      k := FirstLink(ms, k, j1, j2, code);
    } else {
      OneAtATime(ms[k], ms[k + 1], j1, j2, code);
    }
  }

  lemma OneAtATime(m: Moment, m': Moment, j1: Job, j2: Job, code: Code)
    requires Pair(j1, j2, code) && RaceStep(m, m', j1, j2, code) && !m.p1.Done? && !m.p2.Done?
    ensures !(m'.p1.Done? && m'.p2.Done?)
  {
    hide JobOk, CreatorStep, Tick, UserStep;
  }

  /** Two creations, interleaved in any way with each other and with everything else, both brought to an
      end: the new threads are both in the ring if and only if the creation that linked second had not
      found its tail when the other linked. If it had, the thread linked first is lost. Nothing else
      ever is. */
  lemma RaceOutcome(ms: seq<Moment>, j1: Job, j2: Job, ts: seq<Thread>, code: Code) returns (k: nat)
    requires Pair(j1, j2, code) && RaceRun(ms, j1, j2, code)
    requires BothCreating(ms[0], j1, j2, code) && Holds(ms[0].s, ts, code)
    requires ms[|ms| - 1].p1.Done? && ms[|ms| - 1].p2.Done?
    ensures k + 1 < |ms| && !ms[k].p1.Done? && !ms[k].p2.Done?
    ensures ms[k + 1].p1.Done? != ms[k + 1].p2.Done?
    ensures var s, order := ms[|ms| - 1].s, j1.order;
      var late := if ms[k + 1].p1.Done? then ms[k].p2 else ms[k].p1;
      && SysOk(s)
      && (j1.t in s.order && j2.t in s.order <==> !late.Found?)
      && s.order == (if ms[k + 1].p1.Done? then order + (if late.Found? then [] else [j1.t]) + [j2.t]
                     else order + (if late.Found? then [] else [j2.t]) + [j1.t])
  {
    NewBlocks(j1, j2, code);
    hide Pair, JobOk, BothCreating, Creating, Holds, SysOk, RaceRun, BlocksApart;
    NotDone(ms[0], j1, j2, code);
    k := FirstLink(ms, |ms| - 1, j1, j2, code);
    if ms[k + 1].p1.Done? {
      FirstLinksFirst(ms, k, j1, j2, ts, code);
      InOutcome(j1.order, j1.t, j2.t);
    } else {
      SwappedRun(ms, j1, j2, code);
      SwappedStart(ms[0], j1, j2, code);
      hide Swapped;
      FirstLinksFirst(Swapped(ms), k, j2, j1, ts, code);
      InOutcome(j1.order, j2.t, j1.t);
    }
  }

  lemma InOutcome(order: seq<Word>, t: Word, u: Word)
    requires t != u && t !in order
    ensures order + [] == order
    ensures t in order + [t] + [u] && u in order + [t] + [u]
    ensures t !in order + [u] && u in order + [u]
  {
  }

  lemma NotDone(m: Moment, j1: Job, j2: Job, code: Code)
    requires Pair(j1, j2, code) && BothCreating(m, j1, j2, code)
    ensures !m.p1.Done? && !m.p2.Done?
  {
  }

  lemma SwappedStart(m: Moment, j1: Job, j2: Job, code: Code)
    requires Pair(j1, j2, code) && Pair(j2, j1, code) && BothCreating(m, j1, j2, code)
    ensures BothCreating(Moment(m.s, m.p2, m.p1), j2, j1, code) && j1.order == j2.order
  {
  }

  lemma NewBlocks(j1: Job, j2: Job, code: Code)
    requires Pair(j1, j2, code)
    ensures j1.t != j2.t && j1.t !in j1.order && j2.t !in j1.order
  {
    assert !BlocksApart(j1.t, j1.t) && !BlocksApart(j2.t, j2.t);
  }
}

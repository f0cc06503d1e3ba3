/** `kernel_thread` interleaved with everything else: one thread creates another while the timer
    switches between all of them at any point. */
module Creation {
  import opened Words
  import opened Cpu
  import opened Threads
  import opened Preemption
  import opened Tasks
  import Sched
  import HeapSpec
  import FramePool
  import HeapRuns

  /** A creation: who does it (a position in the ring), in which block, with what memory and ring it
      began, and what the new task is to be. */
  datatype Job = Job(creator: nat, t: Word, fn: Word, arg: Word, pid: Word, base: seq<Byte>, order: seq<Word>)

  /** How far it has got: `k` stores done; looking at `tail`; `tail` known to be the last; linked. */
  datatype Progress = Storing(k: nat) | Walking(tail: Word) | Found(tail: Word) | Done

  predicate JobOk(j: Job, code: Code) {
    && |j.base| == ADDRESS_SPACE && j.creator < |j.order| && Block(j.t)
    && forall b :: b in j.order ==> BlocksApart(b, j.t)
  }

  function Plan(j: Job, code: Code): (sts: seq<Store>)
    requires JobOk(j, code)
    ensures |sts| == TASK_SIZE + 10 && forall st :: st in sts ==> InBlock(st)
  {
    Setup(j.t, j.fn, j.arg, j.pid, j.order[j.creator], j.order[0], code)
  }

  /** The current thread turns memory into `mem`; on its own stack it may keep what it likes. */
  ghost predicate Effect(s: Sys, s': Sys, mem: seq<Byte>) {
    && SysOk(s) && s'.cur == s.cur && |s'.m.mem| == |mem| == ADDRESS_SPACE && KernelSegments(s'.m.r)
    && var b := s.order[s.cur];
    && b + TASK_SIZE <= s'.m.r.esp <= b + STACK_SIZE
    && forall a | 0 <= a < ADDRESS_SPACE :: b + TASK_SIZE <= a < b + STACK_SIZE || s'.m.mem[a] == mem[a]
  }

  /** Position of `b` in the ring; its size if it is not there. */
  function Position(order: seq<Word>, b: Word): (i: nat)
    ensures i <= |order| && (i < |order| ==> order[i] == b)
    ensures b in order ==> i < |order|
  {
    if order == [] then 0 else if order[0] == b then 0 else 1 + Position(order[1..], b)
  }

  /** The ring after `tail->next = t`, when t's own `next` is the head: what followed `tail` is out. */
  function Linked(order: seq<Word>, tail: Word, t: Word): seq<Word> {
    var i := Position(order, tail);
    order[..if i < |order| then i + 1 else i] + [t]
  }

  lemma LinkedLast(order: seq<Word>, t: Word)
    requires order != [] && AllApart(order)
    ensures Linked(order, order[|order| - 1], t) == order + [t]
  {
    Sched.TaskList.Distinct(order);
    assert order[..|order|] == order;
  }

  /** One statement of `kernel_thread`, after `kmalloc`. */
  ghost predicate CreatorStep(s: Sys, p: Progress, s': Sys, p': Progress, j: Job, code: Code)
    requires JobOk(j, code)
  {
    && SysOk(s) && s.cur == j.creator
    && match p
       case Storing(k) =>
         && k < |Plan(j, code)| && s'.order == s.order
         && Effect(s, s', Apply(s.m.mem, j.t, Plan(j, code)[k]))
         && p' == (if k + 1 == |Plan(j, code)| then Walking(j.order[0]) else Storing(k + 1))
       case Walking(tail) =>
         && Block(tail) && s'.order == s.order && Effect(s, s', s.m.mem)
         && var next := Get32(s.m.mem, tail + NEXT);
            p' == (if next != j.order[0] then Walking(next) else Found(tail))
       case Found(tail) =>
         && Block(tail) && s'.order == Linked(s.order, tail, j.t)
         && Effect(s, s', Put32(s.m.mem, tail + NEXT, j.t)) && p' == Done
       case Done => false
  }

  /** Anything else: a step of some thread that keeps its hands off the block being filled, or a
      tick of the timer. */
  ghost predicate OtherStep(s: Sys, p: Progress, s': Sys, p': Progress, j: Job, code: Code) {
    && p' == p && |s'.m.mem| == |s.m.mem| == ADDRESS_SPACE
    && (|| (exists w: Machine :: Tick(s, w, s', code))
        || (UserStep(s, s') && (p.Done? || SameBlock(s, s', j.t))))
  }

  ghost predicate SameBlock(s: Sys, s': Sys, t: Word)
    requires |s'.m.mem| == |s.m.mem| == ADDRESS_SPACE
  {
    forall a | t <= a < t + STACK_SIZE && a < ADDRESS_SPACE :: s'.m.mem[a] == s.m.mem[a]
  }

  ghost predicate CreationStep(s: Sys, p: Progress, s': Sys, p': Progress, j: Job, code: Code)
    requires JobOk(j, code)
  {
    CreatorStep(s, p, s', p', j, code) || OtherStep(s, p, s', p', j, code)
  }

  /** Steps of the creator still to come. */
  function Left(p: Progress, j: Job, code: Code): int
    requires JobOk(j, code)
  {
    match p
    case Storing(k) => |Plan(j, code)| - k + |j.order| + 1
    case Walking(tail) => |j.order| - Position(j.order, tail) + 1
    case Found(_) => 1
    case Done => 0
  }

  ghost predicate Built(s: Sys, k: nat, j: Job, code: Code)
    requires JobOk(j, code) && k <= |Plan(j, code)|
  {
    BlockHolds(s.m.mem, j.base, j.t, Plan(j, code)[..k])
  }

  /** What holds at every moment of the creation. */
  ghost predicate Creating(s: Sys, p: Progress, j: Job, code: Code)
    requires JobOk(j, code)
  {
    && SysOk(s)
    && s.order == (if p.Done? then j.order + [j.t] else j.order)
    && match p
       case Storing(k) => k < |Plan(j, code)| && Built(s, k, j, code)
       case Walking(tail) => tail in j.order && Built(s, |Plan(j, code)|, j, code)
       case Found(tail) => tail == j.order[|j.order| - 1] && Built(s, |Plan(j, code)|, j, code)
       case Done => true
  }

  // ----- the creator's own steps

  lemma MemberIsBlock(s: Sys, b: Word)
    requires SysOk(s) && b in s.order
    ensures Block(b)
  {
  }

  lemma RingBlocksApart(s: Sys, b: Word, c: Word)
    requires SysOk(s) && b in s.order && c in s.order && b != c
    ensures BlocksApart(b, c)
  {
    var i :| 0 <= i < |s.order| && s.order[i] == b;
    var k :| 0 <= k < |s.order| && s.order[k] == c;
    if i < k {
      assert BlocksApart(s.order[i], s.order[k]);
    } else {
      assert BlocksApart(s.order[k], s.order[i]);
    }
  }

  /** The creator is never stuck. */
  lemma CreatorCanStep(s: Sys, p: Progress, j: Job, code: Code) returns (s': Sys, p': Progress)
    requires JobOk(j, code) && Creating(s, p, j, code) && !p.Done? && s.cur == j.creator
    requires KernelSegments(s.m.r) && s.order[s.cur] + TASK_SIZE <= s.m.r.esp <= s.order[s.cur] + STACK_SIZE
    ensures CreatorStep(s, p, s', p', j, code) && s'.m.r == s.m.r
  {
    hide Get32, Plan, Built;
    match p {
      case Storing(k) =>
        s' := s.(m := s.m.(mem := Apply(s.m.mem, j.t, Plan(j, code)[k])));
        p' := if k + 1 == |Plan(j, code)| then Walking(j.order[0]) else Storing(k + 1);
      case Walking(tail) =>
        MemberIsBlock(s, tail);
        s' := s;
        p' := if Get32(s.m.mem, tail + NEXT) != j.order[0] then Walking(Get32(s.m.mem, tail + NEXT)) else Found(tail);
      case Found(tail) =>
        MemberIsBlock(s, tail);
        s' := Sys(s.m.(mem := Put32(s.m.mem, tail + NEXT, j.t)), Linked(s.order, tail, j.t), s.cur);
        p' := Done;
    }
  }

  /** What the creator writes while it is not linking goes to its stack and the new block: to the
      others it is an ordinary step of a thread. */
  lemma QuietStep(s: Sys, s': Sys, mem: seq<Byte>, j: Job, code: Code)
    requires JobOk(j, code) && SysOk(s) && s.order == j.order == s'.order && Effect(s, s', mem)
    requires forall a :: 0 <= a < ADDRESS_SPACE && !(j.t <= a < j.t + STACK_SIZE) ==> mem[a] == s.m.mem[a]
    ensures UserStep(s, s')
    ensures forall a :: j.t <= a < j.t + STACK_SIZE ==> s'.m.mem[a] == mem[a]
  {
    hide Get32, RingIs;
    var b := s.order[s.cur];
    assert b in j.order && BlocksApart(b, j.t);
    forall i, a | 0 <= i < |s.order| && i != s.cur && s.order[i] <= a < s.order[i] + STACK_SIZE
      ensures a < ADDRESS_SPACE && s'.m.mem[a] == s.m.mem[a]
    {
      MemberIsBlock(s, s.order[i]);
      assert s.order[i] in j.order && BlocksApart(s.order[i], j.t);
      RingBlocksApart(s, s.order[i], b);
    }
    MemberIsBlock(s, b);
  }

  lemma UserStepKeepsSys(s: Sys, s': Sys)
    requires UserStep(s, s')
    ensures SysOk(s')
  {
    hide Get32;
    forall i | 0 <= i < |s.order|
      ensures Block(s.order[i]) && Get32(s'.m.mem, s.order[i] + NEXT) == Get32(s.m.mem, s.order[i] + NEXT)
    {
      MemberIsBlock(s, s.order[i]);
      Get32Frame(s'.m.mem, s.m.mem, s.order[i] + NEXT);
    }
  }

  lemma StoreStep(s: Sys, s': Sys, p: Progress, p': Progress, j: Job, code: Code)
    requires JobOk(j, code) && Creating(s, p, j, code) && CreatorStep(s, p, s', p', j, code) && p.Storing?
    ensures Creating(s', p', j, code) && UserStep(s, s') && !p'.Done?
    ensures Left(p', j, code) == Left(p, j, code) - 1
  {
    hide Get32, Plan, Apply, SysOk;
    var plan, k := Plan(j, code), p.k;
    QuietStep(s, s', Apply(s.m.mem, j.t, plan[k]), j, code);
    UserStepKeepsSys(s, s');
    NextStore(s.m.mem, j.base, j.t, plan[..k], plan[k]);
    assert plan[..k] + [plan[k]] == plan[..k + 1];
  }

  lemma WalkStep(s: Sys, s': Sys, p: Progress, p': Progress, j: Job, code: Code)
    requires JobOk(j, code) && Creating(s, p, j, code) && CreatorStep(s, p, s', p', j, code) && p.Walking?
    ensures Creating(s', p', j, code) && UserStep(s, s') && !p'.Done?
    ensures Left(p', j, code) == Left(p, j, code) - 1
  {
    hide Get32, Plan, SysOk;
    QuietStep(s, s', s.m.mem, j, code);
    UserStepKeepsSys(s, s');
    RingPosition(s, p.tail);
  }

  /** Position i is followed by position i + 1, and only the last one by the head. */
  lemma RingPosition(s: Sys, b: Word)
    requires SysOk(s) && b in s.order
    ensures Block(b)
    ensures var n, i, next := |s.order|, Position(s.order, b), Get32(s.m.mem, b + NEXT);
      && next in s.order
      && (i == n - 1 ==> next == s.order[0] && b == s.order[n - 1])
      && (i < n - 1 ==> next != s.order[0] && Position(s.order, next) == i + 1)
  {
    hide Get32;
    var i := Position(s.order, b);
    assert Block(s.order[i]) && Get32(s.m.mem, s.order[i] + NEXT) == s.order[After(i, |s.order|)];
    Sched.TaskList.Distinct(s.order);
  }

  lemma RingShape(s: Sys)
    requires SysOk(s)
    ensures s.order != [] && AllApart(s.order)
  {
  }

  /** The one step that changes the ring. */
  lemma LinkStep(s: Sys, s': Sys, p: Progress, p': Progress, j: Job, code: Code)
    requires JobOk(j, code) && Creating(s, p, j, code) && CreatorStep(s, p, s', p', j, code) && p.Found?
    ensures Creating(s', p', j, code) && Spawn(s, s', j.t, j.fn, j.arg, code) && p'.Done?
    ensures TaskFields(s'.m.mem, j.t, j.pid, j.order[j.creator], j.order[0])
    ensures Left(p', j, code) == Left(p, j, code) - 1
  {
    RingShape(s);
    LinkedLast(s.order, j.t);
    hide Get32, Plan, SysOk, Linked;
    NewTaskIsBuilt(s, s', p, p', j, code);
    LinkWrites(s, s', p, p', j, code);
    SpawnKeepsRing(s, s', j.t, j.fn, j.arg, code);
  }

  lemma NewTaskIsBuilt(s: Sys, s': Sys, p: Progress, p': Progress, j: Job, code: Code)
    requires JobOk(j, code) && Creating(s, p, j, code) && CreatorStep(s, p, s', p', j, code) && p.Found?
    ensures |s'.m.mem| == ADDRESS_SPACE
    ensures Fresh(s'.m.mem, j.t, j.fn, j.arg, code)
    ensures TaskFields(s'.m.mem, j.t, j.pid, j.order[j.creator], j.order[0])
  {
    hide Get32, Setup, Fresh, TaskFields, RingIs, AllApart, ApplyAll;
    var plan := Plan(j, code);
    assert plan[..|plan|] == plan;
    var made := ApplyAll(j.base, j.t, plan);
    SetupMakesTask(j.base, j.t, j.fn, j.arg, j.pid, j.order[j.creator], j.order[0], code);
    assert p.tail in j.order && BlocksApart(p.tail, j.t);
    var b := s.order[s.cur];
    assert b in j.order && BlocksApart(b, j.t);
    TaskDependsOnBlock(made, s'.m.mem, j.t, j.fn, j.arg, j.pid, j.order[j.creator], j.order[0], code);
  }

  lemma LinkWrites(s: Sys, s': Sys, p: Progress, p': Progress, j: Job, code: Code)
    requires JobOk(j, code) && Creating(s, p, j, code) && CreatorStep(s, p, s', p', j, code) && p.Found?
    requires |s'.m.mem| == ADDRESS_SPACE && Fresh(s'.m.mem, j.t, j.fn, j.arg, code)
    requires TaskFields(s'.m.mem, j.t, j.pid, j.order[j.creator], j.order[0])
    ensures Spawn(s, s', j.t, j.fn, j.arg, code)
  {
    hide Creating, CreatorStep, Get32, Fresh, Effect, BlocksApart;
    FoundShape(s, s', p, p', j, code);
    hide SysOk;
    TailField(s, s', p.tail, j.t);
    forall i | 0 <= i < |s.order|
      ensures BlocksApart(s.order[i], j.t)
    {
      assert s.order[i] in j.order;
    }
    BlocksAreKept(s, s', p.tail, j.t);
    IsSpawn(s, s', j.t, j.fn, j.arg, code);
  }

  lemma FoundShape(s: Sys, s': Sys, p: Progress, p': Progress, j: Job, code: Code)
    requires JobOk(j, code) && Creating(s, p, j, code) && CreatorStep(s, p, s', p', j, code) && p.Found?
    ensures SysOk(s) && s.order == j.order && p.tail == s.order[|s.order| - 1] && Block(p.tail)
    ensures |s.m.mem| == ADDRESS_SPACE && Effect(s, s', Put32(s.m.mem, p.tail + NEXT, j.t))
    ensures s'.order == s.order + [j.t] && s'.cur == s.cur && KernelSegments(s'.m.r)
    ensures s.cur < |s.order| && s.order[s.cur] + TASK_SIZE <= s'.m.r.esp <= s.order[s.cur] + STACK_SIZE
  {
    RingShape(s);
    LinkedLast(s.order, j.t);
    hide Get32, Built, RingIs, AllApart, Linked;
  }

  /** Of all blocks only the current stack and the tail's link differ. */
  ghost predicate BlocksKept(s: Sys, s': Sys, tail: Word) {
    && |s.m.mem| == |s'.m.mem| == ADDRESS_SPACE && s.cur < |s.order|
    && (forall i :: 0 <= i < |s.order| ==> Block(s.order[i]))
    && forall i, a | 0 <= i < |s.order| && s.order[i] <= a < s.order[i] + STACK_SIZE ::
         (i != s.cur || a < s.order[i] + TASK_SIZE) ==>
         tail + NEXT <= a < tail + TASK_SIZE || s'.m.mem[a] == s.m.mem[a]
  }

  lemma BlocksAreKept(s: Sys, s': Sys, tail: Word, t: Word)
    requires SysOk(s) && Block(tail) && Effect(s, s', Put32(s.m.mem, tail + NEXT, t))
    ensures BlocksKept(s, s', tail)
  {
    forall i | 0 <= i < |s.order|
      ensures Block(s.order[i])
    {
      MemberIsBlock(s, s.order[i]);
    }
    hide SysOk, Effect;
    forall i, a | && 0 <= i < |s.order| && s.order[i] <= a < s.order[i] + STACK_SIZE
                  && (i != s.cur || a < s.order[i] + TASK_SIZE)
      ensures a < ADDRESS_SPACE
      ensures tail + NEXT <= a < tail + TASK_SIZE || s'.m.mem[a] == s.m.mem[a]
    {
      OutsideStack(s, s', tail, t, i, a);
    }
  }

  lemma IsSpawn(s: Sys, s': Sys, nb: Word, fn: Word, arg: Word, code: Code)
    requires SysOk(s) && Block(nb) && |s'.m.mem| == ADDRESS_SPACE
    requires forall i :: 0 <= i < |s.order| ==> BlocksApart(s.order[i], nb)
    requires s'.order == s.order + [nb] && s'.cur == s.cur && KernelSegments(s'.m.r)
    requires s.order[s.cur] + TASK_SIZE <= s'.m.r.esp <= s.order[s.cur] + STACK_SIZE
    requires Fresh(s'.m.mem, nb, fn, arg, code) && Get32(s'.m.mem, nb + NEXT) == s.order[0]
    requires Block(s.order[|s.order| - 1]) && Get32(s'.m.mem, s.order[|s.order| - 1] + NEXT) == nb
    requires BlocksKept(s, s', s.order[|s.order| - 1])
    ensures Spawn(s, s', nb, fn, arg, code)
  {
    hide Get32, Fresh, RingIs, AllApart;
  }

  lemma TailField(s: Sys, s': Sys, tail: Word, t: Word)
    requires SysOk(s) && tail in s.order && Block(tail) && Effect(s, s', Put32(s.m.mem, tail + NEXT, t))
    ensures Get32(s'.m.mem, tail + NEXT) == t
  {
    hide Get32, RingIs, AllApart;
    var b := s.order[s.cur];
    MemberIsBlock(s, b);
    if tail != b {
      RingBlocksApart(s, tail, b);
    }
    Get32Frame(s'.m.mem, Put32(s.m.mem, tail + NEXT, t), tail + NEXT);
  }

  /** Addresses in the blocks of the ring that are not on the current thread's stack. */
  lemma OutsideStack(s: Sys, s': Sys, tail: Word, t: Word, i: nat, a: int)
    requires SysOk(s) && Block(tail) && Effect(s, s', Put32(s.m.mem, tail + NEXT, t))
    requires i < |s.order| && s.order[i] <= a < s.order[i] + STACK_SIZE
    requires i != s.cur || a < s.order[i] + TASK_SIZE
    ensures a < ADDRESS_SPACE
    ensures tail + NEXT <= a < tail + TASK_SIZE || s'.m.mem[a] == s.m.mem[a]
  {
    hide Get32, RingIs;
    MemberIsBlock(s, s.order[i]);
    if i != s.cur {
      RingBlocksApart(s, s.order[i], s.order[s.cur]);
    }
  }

  // ----- all steps

  /** Every step keeps the ring closed and complete, and moves the creation on only if it is the
      creator's own; to the rest of the system it is a step of `Preemption`. */
  lemma CreationStepKeeps(s: Sys, p: Progress, s': Sys, p': Progress, j: Job, ts: seq<Thread>, code: Code)
      returns (ts': seq<Thread>)
    requires JobOk(j, code) && Creating(s, p, j, code) && CreationStep(s, p, s', p', j, code) && Holds(s, ts, code)
    ensures Creating(s', p', j, code) && Step(s, s', code) && Holds(s', ts', code)
    ensures |ts| <= |ts'| && forall i :: 0 <= i < |ts| && i != s.cur && ts[i].Ready? ==> ts'[i] == ts[i]
    ensures p' != p ==> s.cur == j.creator && Left(p', j, code) == Left(p, j, code) - 1
    ensures p'.Done? && !p.Done? ==> Spawn(s, s', j.t, j.fn, j.arg, code)
  {
    hide Get32, Plan, Parked, Spawn, Tick, UserStep;
    if CreatorStep(s, p, s', p', j, code) {
      CreatorStepKeeps(s, p, s', p', j, code);
    } else if exists w: Machine :: Tick(s, w, s', code) {
      var w: Machine :| Tick(s, w, s', code);
      TickShape(s, w, s', code);
      TickKeepsThreads(s, w, s', ts, code);
      TickKeepsCreating(s, s', p, j, code);
    } else {
      UserShape(s, s');
      UserStepKeepsSys(s, s');
      UserKeepsCreating(s, s', p, j, code);
    }
    ts' := StepKeepsThreads(s, s', ts, code);
  }

  lemma DoneIsDone(s: Sys, s': Sys, p: Progress, p': Progress, j: Job, code: Code)
    requires JobOk(j, code) && CreatorStep(s, p, s', p', j, code)
    ensures !p.Done?
  {
  }

  lemma CreatorStepKeeps(s: Sys, p: Progress, s': Sys, p': Progress, j: Job, code: Code)
    requires JobOk(j, code) && Creating(s, p, j, code) && CreatorStep(s, p, s', p', j, code)
    ensures Creating(s', p', j, code) && Step(s, s', code)
    ensures Left(p', j, code) == Left(p, j, code) - 1
    ensures if p'.Done? then Spawn(s, s', j.t, j.fn, j.arg, code) else UserStep(s, s')
  {
    DoneIsDone(s, s', p, p', j, code);
    hide Creating, Left, UserStep, Spawn, CreatorStep, JobOk, Tick;
    match p {
      case Storing(_) => StoreStep(s, s', p, p', j, code);
      case Walking(_) => WalkStep(s, s', p, p', j, code);
      case Found(_) => LinkStep(s, s', p, p', j, code);
    }
  }

  lemma UserKeepsCreating(s: Sys, s': Sys, p: Progress, j: Job, code: Code)
    requires JobOk(j, code) && Creating(s, p, j, code) && UserStep(s, s') && SysOk(s')
    requires p.Done? || forall a :: j.t <= a < j.t + STACK_SIZE ==> s'.m.mem[a] == s.m.mem[a]
    ensures Creating(s', p, j, code)
  {
    hide Get32, SysOk, Plan;
  }

  /** A tick writes only on stacks of the ring, so it leaves the new block alone. */
  lemma TickKeepsCreating(s: Sys, s': Sys, p: Progress, j: Job, code: Code)
    requires JobOk(j, code) && Creating(s, p, j, code) && SysOk(s') && s'.order == s.order
    requires OnlyStacks(s.m.mem, s'.m.mem, s.order[s.cur], s.order[s'.cur])
    ensures Creating(s', p, j, code)
  {
    hide Get32, RingIs, AllApart, Plan;
    if !p.Done? {
      assert s.order[s.cur] in j.order && BlocksApart(s.order[s.cur], j.t);
      assert s.order[s'.cur] in j.order && BlocksApart(s.order[s'.cur], j.t);
    }
  }

  // ----- runs

  /** The creation from beginning to end, or to any moment before it. */
  ghost predicate CreationRun(ss: seq<Sys>, ps: seq<Progress>, j: Job, code: Code)
    requires JobOk(j, code)
  {
    && |ss| == |ps| > 0
    && forall k :: 0 <= k && k + 1 < |ss| ==> CreationStep(ss[k], ps[k], ss[k + 1], ps[k + 1], j, code)
  }

  /** How often the creation has moved on. */
  function Moves(ps: seq<Progress>): (n: nat) {
    if |ps| < 2 then 0 else (if ps[0] != ps[1] then 1 else 0) + Moves(ps[1..])
  }

  lemma CreationRunRest(ss: seq<Sys>, ps: seq<Progress>, j: Job, code: Code)
    requires JobOk(j, code) && CreationRun(ss, ps, j, code) && |ss| >= 2
    ensures CreationStep(ss[0], ps[0], ss[1], ps[1], j, code) && CreationRun(ss[1..], ps[1..], j, code)
  {
    hide CreationStep;
    forall k | 0 <= k && k + 1 < |ss[1..]|
      ensures CreationStep(ss[1..][k], ps[1..][k], ss[1..][k + 1], ps[1..][k + 1], j, code)
    {
      assert CreationStep(ss[k + 1], ps[k + 1], ss[k + 2], ps[k + 2], j, code);
    }
  }

  /** At every moment of a creation the ring is closed and complete; the new task is in it exactly
      when the last store has been made, and every step of the creator brings that store one step
      nearer. To the other threads the whole of it is an ordinary run. */
  lemma {:induction false} CreationKeepsRing(ss: seq<Sys>, ps: seq<Progress>, j: Job, ts: seq<Thread>, code: Code)
    requires JobOk(j, code) && |ss| == |ps| > 0 && CreationRun(ss, ps, j, code)
    requires Creating(ss[0], ps[0], j, code) && Holds(ss[0], ts, code)
    ensures Run(ss, code)
    ensures forall k :: 0 <= k < |ss| ==>
      SysOk(ss[k]) && ss[k].order == (if ps[k].Done? then j.order + [j.t] else j.order)
    ensures Moves(ps) + Left(ps[|ps| - 1], j, code) == Left(ps[0], j, code)
    ensures Creating(ss[|ss| - 1], ps[|ps| - 1], j, code)
    decreases |ss|
  {
    hide Creating, CreationStep, Holds, SysOk, Left, CreationRun, Step, Run, JobOk;
    CreatingShape(ss[0], ps[0], j, code);
    if |ss| == 1 {
      RunOne(ss, code);
    } else {
      CreationRunRest(ss, ps, j, code);
      var ts' := CreationStepKeeps(ss[0], ps[0], ss[1], ps[1], j, ts, code);
      CreationKeepsRing(ss[1..], ps[1..], j, ts', code);
      RunMore(ss, code);
      forall k | 0 <= k < |ss|
        ensures SysOk(ss[k]) && ss[k].order == (if ps[k].Done? then j.order + [j.t] else j.order)
      {
        if k > 0 {
          assert ss[k] == ss[1..][k - 1] && ps[k] == ps[1..][k - 1];
        }
      }
    }
  }

  lemma CreatingShape(s: Sys, p: Progress, j: Job, code: Code)
    requires JobOk(j, code) && Creating(s, p, j, code)
    ensures SysOk(s) && s.order == (if p.Done? then j.order + [j.t] else j.order)
  {
  }

  lemma RunOne(ss: seq<Sys>, code: Code)
    requires |ss| == 1
    ensures Run(ss, code)
  {
  }

  lemma RunMore(ss: seq<Sys>, code: Code)
    requires |ss| >= 2 && Step(ss[0], ss[1], code) && Run(ss[1..], code)
    ensures Run(ss, code)
  {
    hide Step;
    forall k | 0 <= k && k + 1 < |ss|
      ensures Step(ss[k], ss[k + 1], code)
    {
      if k > 0 {
        assert Step(ss[1..][k - 1], ss[1..][k], code);
      }
    }
  }

  /** `kernel_thread` ends: from its first store it takes the creator one step for each store, one
      for each task in the ring, and the link, however the timer cuts it up. */
  lemma {:induction false} CreationEnds(ss: seq<Sys>, ps: seq<Progress>, j: Job, ts: seq<Thread>, code: Code)
    requires JobOk(j, code) && CreationRun(ss, ps, j, code)
    requires Creating(ss[0], ps[0], j, code) && Holds(ss[0], ts, code) && ps[0] == Storing(0)
    ensures Moves(ps) <= TASK_SIZE + 10 + |j.order| + 1
    ensures ps[|ps| - 1].Done? <==> Moves(ps) == TASK_SIZE + 10 + |j.order| + 1
  {
    CreationKeepsRing(ss, ps, j, ts, code);
    LeftToDo(ps[|ps| - 1], ss[|ss| - 1], j, code);
  }

  lemma LeftToDo(p: Progress, s: Sys, j: Job, code: Code)
    requires JobOk(j, code) && Creating(s, p, j, code)
    ensures Left(p, j, code) >= 0 && (Left(p, j, code) == 0 <==> p.Done?)
  {
    hide Plan, SysOk, Built;
  }

  /** Why only one creation may be in flight: when another task has been linked behind the tail this
      creator found, its own link throws that task out of the ring again. */
  lemma RacingCreationsLoseOne(mem: seq<Byte>, order: seq<Word>, t1: Word, t2: Word)
    requires |mem| == ADDRESS_SPACE && order != [] && RingIs(mem, order) && AllApart(order)
    requires Block(t1) && Block(t2) && BlocksApart(t1, t2)
    requires forall b :: b in order ==> BlocksApart(b, t1) && BlocksApart(b, t2)
    requires Get32(mem, t1 + NEXT) == order[0] == Get32(mem, t2 + NEXT)
    ensures var tail := order[|order| - 1];
      && Block(tail)
      && var first := Put32(mem, tail + NEXT, t1);
         var second := Put32(first, tail + NEXT, t2);
         && RingIs(first, order + [t1])
         && RingIs(second, order + [t2]) && t1 !in order + [t2]
  {
    hide Get32, AllApart, RingIs;
    var tail := order[|order| - 1];
    Sched.LinkTail(mem, order, t1);
    var first := Put32(mem, tail + NEXT, t1);
    var second := Put32(first, tail + NEXT, t2);
    assert tail in order && BlocksApart(tail, t2) && BlocksApart(tail, t1);
    Sched.LinkTail(mem, order, t2);
    assert second == Put32(mem, tail + NEXT, t2);
  }

  // ----- where the blocks come from

  /** Blocks from `kmalloc`, after any calls of `kmalloc` and `kfree`, are apart from each other and
      from the kernel's own stack below the heap. */
  lemma StacksAreApart(frames: seq<Word>, calls: seq<HeapRuns.Call>, w: HeapRuns.World, all: set<Word>,
                       p: int, q: int, first: Word)
    requires FramePool.Distinct(frames) && |frames| < HeapRuns.MAX_FRAMES
    requires forall f :: f in all <==> f in frames
    requires HeapRuns.Reaches(HeapRuns.Boot(frames), calls, w)
    requires p in w.asked && q in w.asked && p != q && w.asked[p] == w.asked[q] == STACK_SIZE
    requires first + STACK_SIZE <= HeapSpec.HEAP_START
    ensures 0 <= p && p + STACK_SIZE < ADDRESS_SPACE && Block(p as Word)
    ensures 0 <= q && q + STACK_SIZE < ADDRESS_SPACE && Block(q as Word)
    ensures BlocksApart(p as Word, q as Word) && BlocksApart(first, p as Word)
  {
    HeapRuns.PayloadsAreSafe(frames, calls, w, all);
    HeapRuns.RoomEverywhere(w.heap, all);
    assert HeapRuns.Apart(p, w.asked[p], q, w.asked[q]);
  }
}

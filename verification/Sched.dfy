/** The globals of the scheduler and the routines that change them: `init_sched`, `schedule`,
    `change_task_to` and `kernel_thread`. */
module Sched {
  import opened Words
  import opened Cpu
  import opened Threads
  import opened Preemption
  import opened Tasks

  datatype Created = Halted | Created(pid: Word)

  /** The call of `switch_to` at the end of `change_task_to`, if there is one. */
  datatype Switch = Stay | Contexts(prev: Word, next: Word)

  class TaskList {
    var mem: seq<Byte>
    var current: Word
    var head: Word                 // running_proc_head
    var nowPid: Word
    ghost var order: seq<Word>     // all blocks from `head` on
    ghost var before: seq<Byte>    // memory when a new task was begun
    ghost var built: seq<Store>    // what has been stored there since

    constructor ()
      ensures current == 0 && head == 0 && nowPid == 0 && |mem| == ADDRESS_SPACE
    {
      mem := seq(ADDRESS_SPACE, _ => 0);
      current, head, nowPid := 0, 0, 0;
      order, before, built := [], [], [];
    }

    ghost predicate Ring()
      reads `mem, `current, `head, `order
    {
      && |mem| == ADDRESS_SPACE && order != [] && head == order[0] && current in order
      && RingIs(mem, order) && AllApart(order)
    }

    /** The current flow of control becomes the first task; its block is the kernel stack. */
    method InitSched(stackTop: Word)
      requires |mem| == ADDRESS_SPACE && STACK_SIZE < stackTop
      modifies this
      ensures Ring() && order == [stackTop - 8192] && current == stackTop - 8192
      ensures TaskFields(mem, current, old(nowPid), current, current)
      ensures forall a | 0 <= a < |mem| ::
        current <= a < current + 16 || current + NEXT <= a < current + TASK_SIZE || mem[a] == old(mem)[a]
    {
      hide Get32, ApplyAll, Building, FirstTask;
      var b := stackTop - STACK_SIZE;
      before, built := mem, [];
      StartBuilding(b);
      current := b;
      Store(b, Set(0, RUNNABLE));
      Store(b, Set(4, nowPid));
      nowPid := (nowPid + 1) % ADDRESS_SPACE;
      Store(b, Set(8, current));
      Store(b, Set(12, 0));
      Store(b, Set(NEXT, current));
      head := current;
      order := [b];
      FirstTaskIs(b, old(nowPid));
      BuildingBlock(b);
      FirstTaskFields(before, b, old(nowPid));
    }

    lemma StartBuilding(t: Word)
      requires |mem| == ADDRESS_SPACE && Block(t) && before == mem && built == []
      ensures Building(t)
    {
    }

    /** `change_task_to`, up to the call of `switch_to`. */
    method ChangeTaskTo(next: Word) returns (sw: Switch)
      requires current + CONTEXT < ADDRESS_SPACE && next + CONTEXT < ADDRESS_SPACE
      modifies `current
      ensures current == next
      ensures sw == if next == old(current) then Stay else Contexts(old(current) + CONTEXT, next + CONTEXT)
    {
      sw := Stay;
      if current != next {
        var prev := current;
        current := next;
        sw := Contexts(prev + CONTEXT, current + CONTEXT);
      }
    }

    /** The next thread of the ring becomes current; before `init_sched` nothing
        happens. */
    method Schedule() returns (sw: Switch)
      requires current != 0 ==> Ring()
      modifies `current
      ensures old(current) == 0 ==> sw == Stay && current == 0
      ensures old(current) != 0 ==> Ring() && forall i | 0 <= i < |order| && order[i] == old(current) ::
        && current == order[After(i, |order|)]
        && sw == (if |order| == 1 then Stay else Contexts(order[i] + CONTEXT, order[After(i, |order|)] + CONTEXT))
    {
      hide Get32;
      sw := Stay;
      if current != 0 {
        ghost var i :| 0 <= i < |order| && order[i] == current;
        assert Block(order[i]) && Get32(mem, order[i] + NEXT) == order[After(i, |order|)];
        assert Block(order[After(i, |order|)]);
        Distinct(order);
        sw := ChangeTaskTo(Get32(mem, current + NEXT));
      }
    }

    static lemma Distinct(order: seq<Word>)
      requires AllApart(order)
      ensures forall i, j :: 0 <= i < |order| && 0 <= j < |order| && order[i] == order[j] ==> i == j
    {
      forall i, j | 0 <= i < j < |order|
        ensures order[i] != order[j]
      {
        assert BlocksApart(order[i], order[j]);
      }
    }

    /** Memory is what the stores built so far have made of it. */
    ghost predicate Building(t: Word)
      reads `mem, `before, `built
    {
      && |before| == ADDRESS_SPACE && Block(t)
      && (forall st :: st in built ==> InBlock(st))
      && mem == ApplyAll(before, t, built)
    }

    method Store(t: Word, st: Store)
      requires Building(t) && InBlock(st)
      modifies `mem, `built
      ensures Building(t) && built == old(built) + [st]
    {
      assert (built + [st])[..|built|] == built;
      match st {
        case Zero(d) => mem := mem[t + d := 0];
        case Set(d, v) => mem := Put32(mem, t + d, v);
      }
      built := built + [st];
    }

    /** `bzero(new_task, sizeof(struct task_struct))`. */
    method Clear(t: Word)
      requires Building(t) && built == []
      modifies `mem, `built
      ensures Building(t) && built == Zeroes(TASK_SIZE)
    {
      var i := 0;
      while i < TASK_SIZE
        invariant i <= TASK_SIZE && Building(t) && built == Zeroes(i)
      {
        Store(t, Zero(i));
        i := i + 1;
      }
    }

    method Describe(t: Word)
      requires Building(t)
      modifies `mem, `built, `nowPid
      ensures Building(t) && nowPid == (old(nowPid) + 1) % ADDRESS_SPACE
      ensures built == old(built) + Description(current, old(nowPid))
    {
      hide Building;
      Store(t, Set(0, RUNNABLE));
      Store(t, Set(8, current));
      Store(t, Set(4, nowPid));
      nowPid := (nowPid + 1) % ADDRESS_SPACE;
      Store(t, Set(12, 0));
    }

    /** The initial stack: fn, the address it returns to, and its argument. */
    method InitialStack(t: Word, fn: Word, arg: Word, code: Code)
      requires Building(t)
      modifies `mem, `built
      ensures Building(t)
      ensures built == old(built) + StackWords(fn, arg, code)
    {
      hide Building;
      var stackTop := STACK_SIZE;
      stackTop := stackTop - 4;
      Store(t, Set(stackTop, arg));
      stackTop := stackTop - 4;
      Store(t, Set(stackTop, code.kthreadExit));
      stackTop := stackTop - 4;
      Store(t, Set(stackTop, fn));
    }

    /** Saved stack pointer and flags, and the link to the head. */
    method InitialContext(t: Word)
      requires Building(t)
      modifies `mem, `built
      ensures Building(t)
      ensures Block(t) && built == old(built) + ContextWords(t, head)
    {
      BuildingBlock(t);
      hide Building;
      Store(t, Set(CONTEXT, t + STACK_SIZE - 12));
      Store(t, Set(CONTEXT + 20, IF));
      Store(t, Set(NEXT, head));
    }

    lemma BuildingBlock(t: Word)
      requires Building(t)
      ensures |before| == ADDRESS_SPACE && Block(t) && (forall st :: st in built ==> InBlock(st))
      ensures mem == ApplyAll(before, t, built)
    {
    }

    /** `kernel_thread` up to `new_task->next = running_proc_head`. */
    method Build(t: Word, fn: Word, arg: Word, code: Code)
      requires |mem| == ADDRESS_SPACE && Block(t)
      modifies `mem, `before, `built, `nowPid
      ensures mem == ApplyAll(old(mem), t, Setup(t, fn, arg, old(nowPid), current, head, code))
      ensures nowPid == (old(nowPid) + 1) % ADDRESS_SPACE
    {
      before, built := mem, [];
      StartBuilding(t);
      hide Building, Zeroes, Setup, ApplyAll, Description, StackWords, ContextWords;
      Clear(t);
      Describe(t);
      InitialStack(t, fn, arg, code);
      InitialContext(t);
      SetupParts(t, fn, arg, old(nowPid), current, head, code);
      BuildingBlock(t);
    }

    /** The walk from the head to the last block, whose `next` is the head. */
    method FindTail() returns (tail: Word)
      requires Ring()
      ensures tail == order[|order| - 1] && Block(tail)
    {
      hide Get32, BlocksApart;
      ghost var n, i := |order|, 0;
      Distinct(order);
      tail := head;
      assert Block(order[0]);
      while Get32(mem, tail + NEXT) != head
        invariant i < n && tail == order[i] && Block(tail)
        decreases n - i
      {
        assert Get32(mem, order[i] + NEXT) == order[After(i, n)] && Block(order[After(i, n)]);
        tail := Get32(mem, tail + NEXT);
        i := i + 1;
      }
      assert Get32(mem, order[i] + NEXT) == order[After(i, n)];
    }

    /** `kernel_thread`; `t` is what `kmalloc` returned, 0 when there is no memory. A failed `assert`
        halts the machine. */
    method KernelThread(t: Word, fn: Word, arg: Word, code: Code) returns (r: Created)
      requires |mem| == ADDRESS_SPACE && (head != 0 ==> Ring())
      requires t != 0 ==> Block(t) && forall b :: b in order ==> BlocksApart(b, t)
      modifies `mem, `nowPid, `order, `before, `built
      ensures r.Halted? <==> t == 0 || head == 0
      ensures r.Created? ==>
        && r.pid == old(nowPid) && nowPid == (old(nowPid) + 1) % ADDRESS_SPACE
        && Ring() && order == old(order) + [t]
        && Fresh(mem, t, fn, arg, code) && TaskFields(mem, t, r.pid, current, head)
        && old(order) != [] && var tail := old(order[|order| - 1]);
           forall a | 0 <= a < |mem| :: !(t <= a < t + STACK_SIZE) && !(tail + NEXT <= a < tail + TASK_SIZE) ==>
             mem[a] == old(mem)[a]
    {
      hide Get32, Setup, Fresh, ApplyAll, RingIs, AllApart;
      if t == 0 {
        return Halted;
      }
      Build(t, fn, arg, code);
      SetupMakesTask(old(mem), t, fn, arg, old(nowPid), current, head, code);
      if head == 0 {
        return Halted;
      }
      ghost var m1 := mem;
      RingStays(old(mem), mem, order, t);
      var tail := FindTail();
      mem := Put32(mem, tail + NEXT, t);
      LinkTail(m1, order, t);
      assert tail in order && BlocksApart(tail, t);
      TaskDependsOnBlock(m1, mem, t, fn, arg, old(nowPid), current, head, code);
      order := order + [t];
      r := Created(Get32(mem, t + 4));
    }
  }

  /** What `init_sched` stores: the block is the stack of the code that runs, so its context and
      stack are left as they are. */
  function FirstTask(b: Word, pid: Word): (sts: seq<Store>)
    ensures forall st :: st in sts ==> InBlock(st)
  {
    [Set(0, RUNNABLE), Set(4, pid), Set(8, b), Set(12, 0), Set(NEXT, b)]
  }

  lemma FirstTaskIs(b: Word, pid: Word)
    ensures FirstTask(b, pid) == [] + [Set(0, RUNNABLE)] + [Set(4, pid)] + [Set(8, b)] + [Set(12, 0)] + [Set(NEXT, b)]
  {
  }

  lemma FirstTaskFields(mem: seq<Byte>, b: Word, pid: Word)
    requires |mem| == ADDRESS_SPACE && Block(b)
    ensures TaskFields(ApplyAll(mem, b, FirstTask(b, pid)), b, pid, b, b)
    ensures forall a | b <= a < b + STACK_SIZE :: !(a < b + 16) && !(b + NEXT <= a < b + TASK_SIZE) ==>
      ApplyAll(mem, b, FirstTask(b, pid))[a] == mem[a]
  {
    hide Get32, ApplyAll;
    var sts := FirstTask(b, pid);
    ReadBack(mem, b, sts, 0);
    ReadBack(mem, b, sts, 1);
    ReadBack(mem, b, sts, 2);
    ReadBack(mem, b, sts, 3);
    ReadBack(mem, b, sts, 4);
    Untouched(mem, b, sts, 16, NEXT);
    Untouched(mem, b, sts, TASK_SIZE, STACK_SIZE);
  }

  function Description(creator: Word, pid: Word): seq<Store> {
    [Set(0, RUNNABLE), Set(8, creator), Set(4, pid), Set(12, 0)]
  }

  function StackWords(fn: Word, arg: Word, code: Code): seq<Store> {
    [Set(STACK_SIZE - 4, arg), Set(STACK_SIZE - 8, code.kthreadExit), Set(STACK_SIZE - 12, fn)]
  }

  function ContextWords(t: Word, head: Word): seq<Store>
    requires Block(t)
  {
    [Set(CONTEXT, t + STACK_SIZE - 12), Set(CONTEXT + 20, IF), Set(NEXT, head)]
  }

  lemma SetupParts(t: Word, fn: Word, arg: Word, pid: Word, creator: Word, head: Word, code: Code)
    requires Block(t)
    ensures Setup(t, fn, arg, pid, creator, head, code) ==
      Zeroes(TASK_SIZE) + Description(creator, pid) + StackWords(fn, arg, code) + ContextWords(t, head)
  {
    hide Zeroes;
  }

  /** Changes elsewhere do not affect the ring. */
  lemma RingStays(mem: seq<Byte>, later: seq<Byte>, order: seq<Word>, t: Word)
    requires |mem| == |later| == ADDRESS_SPACE && RingIs(mem, order)
    requires forall b :: b in order ==> BlocksApart(b, t)
    requires forall a :: 0 <= a < |mem| && !(t <= a < t + STACK_SIZE) ==> later[a] == mem[a]
    ensures RingIs(later, order)
  {
    hide Get32;
    forall i | 0 <= i < |order|
      ensures Block(order[i]) && Get32(later, order[i] + NEXT) == Get32(mem, order[i] + NEXT)
    {
      assert order[i] in order;
      Get32Frame(later, mem, order[i] + NEXT);
    }
  }

  /** `tail->next = new_task`: the new task is the last of the ring. */
  lemma LinkTail(mem: seq<Byte>, order: seq<Word>, t: Word)
    requires |mem| == ADDRESS_SPACE && order != [] && RingIs(mem, order) && AllApart(order) && Block(t)
    requires forall b :: b in order ==> BlocksApart(b, t)
    requires Get32(mem, t + NEXT) == order[0]
    ensures Block(order[|order| - 1])
    ensures RingIs(Put32(mem, order[|order| - 1] + NEXT, t), order + [t]) && AllApart(order + [t])
  {
    hide Get32;
    var tail := order[|order| - 1];
    var later := Put32(mem, tail + NEXT, t);
    assert tail in order && BlocksApart(tail, t);
    Get32AfterPut32(mem, tail + NEXT, t, t + NEXT);
    forall i | 0 <= i < |order| - 1
      ensures Block(order[i]) && Get32(later, order[i] + NEXT) == Get32(mem, order[i] + NEXT)
    {
      assert BlocksApart(order[i], tail);
      Get32AfterPut32(mem, tail + NEXT, t, order[i] + NEXT);
    }
    RingGrows(mem, later, order, t);
    forall i, j | 0 <= i < j < |order| + 1
      ensures BlocksApart((order + [t])[i], (order + [t])[j])
    {
      if j < |order| {
        assert BlocksApart(order[i], order[j]);
      } else {
        assert order[i] in order;
      }
    }
  }
}

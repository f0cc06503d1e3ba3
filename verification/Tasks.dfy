/** Task creation and scheduling: the stores by which `kernel_thread` builds a task, and the globals
    and list it shares with the scheduler. */
module Tasks {
  import opened Words
  import opened Cpu
  import opened Threads
  import opened Preemption

  const RUNNABLE: Word := 2

  /** One store into the new block, at an offset from its start. */
  datatype Store = Zero(d: nat) | Set(d: nat, v: Word)

  predicate InBlock(st: Store) {
    match st
    case Zero(d) => d < STACK_SIZE
    case Set(d, v) => d + 4 <= STACK_SIZE
  }

  predicate Misses(st: Store, lo: nat, hi: nat) {
    match st
    case Zero(d) => d < lo || hi <= d
    case Set(d, v) => d + 4 <= lo || hi <= d
  }

  function Apply(mem: seq<Byte>, t: Word, st: Store): (r: seq<Byte>)
    requires |mem| == ADDRESS_SPACE && Block(t) && InBlock(st)
    ensures |r| == |mem|
    ensures forall a :: 0 <= a < |mem| && !(t <= a < t + STACK_SIZE) ==> r[a] == mem[a]
  {
    match st
    case Zero(d) => mem[t + d := 0]
    case Set(d, v) => Put32(mem, t + d, v)
  }

  /** Memory after the stores `sts` into block `t`, first one first. */
  function ApplyAll(mem: seq<Byte>, t: Word, sts: seq<Store>): (r: seq<Byte>)
    requires |mem| == ADDRESS_SPACE && Block(t) && forall st :: st in sts ==> InBlock(st)
    ensures |r| == |mem|
    ensures forall a :: 0 <= a < |mem| && !(t <= a < t + STACK_SIZE) ==> r[a] == mem[a]
  {
    if sts == [] then mem
    else Apply(ApplyAll(mem, t, sts[..|sts| - 1]), t, sts[|sts| - 1])
  }

  /** The block holds what the stores `sts` put there over `base`. */
  ghost predicate BlockHolds(mem: seq<Byte>, base: seq<Byte>, t: Word, sts: seq<Store>)
    requires |base| == ADDRESS_SPACE && Block(t) && forall st :: st in sts ==> InBlock(st)
  {
    && |mem| == ADDRESS_SPACE
    && forall a :: t <= a < t + STACK_SIZE ==> mem[a] == ApplyAll(base, t, sts)[a]
  }

  lemma NextStore(mem: seq<Byte>, base: seq<Byte>, t: Word, sts: seq<Store>, st: Store)
    requires |base| == ADDRESS_SPACE && Block(t) && InBlock(st) && forall x :: x in sts ==> InBlock(x)
    requires BlockHolds(mem, base, t, sts)
    ensures BlockHolds(Apply(mem, t, st), base, t, sts + [st])
  {
    assert (sts + [st])[..|sts|] == sts;
    var was := ApplyAll(base, t, sts);
    if st.Set? {
      SameBytes(mem, was, t + st.d, st.v);
    }
  }

  /** A store writes the same bytes whatever was there before. */
  lemma SameBytes(m1: seq<Byte>, m2: seq<Byte>, a: nat, v: Word)
    requires a + 4 <= |m1| == |m2|
    ensures forall i :: a <= i < a + 4 ==> Put32(m1, a, v)[i] == Put32(m2, a, v)[i]
  {
  }

  /** `kernel_thread` from `bzero` to the store of `new_task->next`. */
  function Setup(t: Word, fn: Word, arg: Word, pid: Word, creator: Word, head: Word, code: Code): (sts: seq<Store>)
    requires Block(t)
    ensures |sts| == TASK_SIZE + 10
    ensures forall st :: st in sts ==> InBlock(st)
  {
    Zeroes(TASK_SIZE) + Fields(t, fn, arg, pid, creator, head, code)
  }

  /** `bzero` of the first `n` bytes. */
  function Zeroes(n: nat): (sts: seq<Store>)
    requires n <= STACK_SIZE
    ensures |sts| == n && forall st :: st in sts ==> InBlock(st)
  {
    if n == 0 then [] else Zeroes(n - 1) + [Zero(n - 1)]
  }

  function Fields(t: Word, fn: Word, arg: Word, pid: Word, creator: Word, head: Word, code: Code): (sts: seq<Store>)
    requires Block(t)
    ensures |sts| == 10 && forall st :: st in sts ==> InBlock(st)
  {
    [Set(0, RUNNABLE), Set(8, creator), Set(4, pid), Set(12, 0),
     Set(STACK_SIZE - 4, arg), Set(STACK_SIZE - 8, code.kthreadExit), Set(STACK_SIZE - 12, fn),
     Set(CONTEXT, t + STACK_SIZE - 12), Set(CONTEXT + 20, IF), Set(NEXT, head)]
  }

  // ----- what the stores leave behind

  lemma {:induction false} Untouched(mem: seq<Byte>, t: Word, sts: seq<Store>, lo: nat, hi: nat)
    requires |mem| == ADDRESS_SPACE && Block(t) && hi <= STACK_SIZE
    requires forall st :: st in sts ==> InBlock(st) && Misses(st, lo, hi)
    ensures forall a :: t + lo <= a < t + hi ==> ApplyAll(mem, t, sts)[a] == mem[a]
  {
    if sts != [] {
      Untouched(mem, t, sts[..|sts| - 1], lo, hi);
      assert sts[|sts| - 1] in sts;
    }
  }

  lemma {:induction false} ApplyAllPlus(mem: seq<Byte>, t: Word, s1: seq<Store>, s2: seq<Store>)
    requires |mem| == ADDRESS_SPACE && Block(t)
    requires forall st :: st in s1 + s2 ==> InBlock(st)
    ensures forall st :: st in s1 || st in s2 ==> st in s1 + s2
    ensures ApplyAll(mem, t, s1 + s2) == ApplyAll(ApplyAll(mem, t, s1), t, s2)
    decreases |s2|
  {
    if s2 == [] {
      assert s1 + s2 == s1;
    } else {
      var n := |s2| - 1;
      assert (s1 + s2)[..|s1| + n] == s1 + s2[..n];
      assert (s1 + s2)[|s1| + n] == s2[n];
      ApplyAllPlus(mem, t, s1, s2[..n]);
    }
  }

  /** A stored word is found again unless a later store overlaps it. */
  lemma ReadBack(mem: seq<Byte>, t: Word, sts: seq<Store>, i: nat)
    requires |mem| == ADDRESS_SPACE && Block(t) && i < |sts| && sts[i].Set?
    requires forall st :: st in sts ==> InBlock(st)
    requires forall j :: i < j < |sts| ==> Misses(sts[j], sts[i].d, sts[i].d + 4)
    ensures t + sts[i].d + 4 <= ADDRESS_SPACE
    ensures Get32(ApplyAll(mem, t, sts), t + sts[i].d) == sts[i].v
  {
    hide Get32;
    var s1, s2 := sts[..i + 1], sts[i + 1..];
    var d := sts[i].d;
    assert InBlock(sts[i]);
    assert sts == s1 + s2;
    ApplyAllPlus(mem, t, s1, s2);
    assert s1[..i] == sts[..i];
    var m1 := ApplyAll(mem, t, s1);
    assert Get32(m1, t + d) == sts[i].v;
    Untouched(m1, t, s2, d, d + 4);
    Get32Frame(ApplyAll(m1, t, s2), m1, t + d);
  }

  lemma {:induction false} ZeroesClear(mem: seq<Byte>, t: Word, n: nat)
    requires |mem| == ADDRESS_SPACE && Block(t) && n <= STACK_SIZE
    ensures forall a :: t <= a < t + n ==> ApplyAll(mem, t, Zeroes(n))[a] == 0
  {
    if n > 0 {
      ZeroesClear(mem, t, n - 1);
      var z := Zeroes(n);
      assert z[..n - 1] == Zeroes(n - 1) && z[n - 1] == Zero(n - 1);
      assert ApplyAll(mem, t, z) == ApplyAll(mem, t, Zeroes(n - 1))[t + n - 1 := 0];
    }
  }

  lemma GetZero(mem: seq<Byte>, a: nat)
    requires a + 4 <= |mem| && mem[a] == mem[a + 1] == mem[a + 2] == mem[a + 3] == 0
    ensures Get32(mem, a) == 0
  {
    GetBytes(mem, a);
  }

  /** A word of the block that only `bzero` writes. */
  lemma StaysZero(mem: seq<Byte>, t: Word, sts: seq<Store>, d: nat)
    requires |mem| == ADDRESS_SPACE && Block(t) && d + 4 <= TASK_SIZE
    requires forall st :: st in sts ==> InBlock(st) && Misses(st, d, d + 4)
    requires forall a :: t <= a < t + TASK_SIZE ==> mem[a] == 0
    ensures Get32(ApplyAll(mem, t, sts), t + d) == 0
  {
    Untouched(mem, t, sts, d, d + 4);
    GetZero(ApplyAll(mem, t, sts), t + d);
  }

  /** The other fields of the new task. */
  ghost predicate TaskFields(mem: seq<Byte>, t: Word, pid: Word, creator: Word, head: Word)
    requires |mem| == ADDRESS_SPACE && Block(t)
  {
    && Get32(mem, t) == RUNNABLE && Get32(mem, t + 4) == pid && Get32(mem, t + 8) == creator
    && Get32(mem, t + 12) == 0 && Get32(mem, t + NEXT) == head
  }

  lemma FieldsMakeContext(mem: seq<Byte>, t: Word, fn: Word, arg: Word, pid: Word, creator: Word, head: Word,
                          code: Code)
    requires |mem| == ADDRESS_SPACE && Block(t)
    requires forall a :: t <= a < t + TASK_SIZE ==> mem[a] == 0
    ensures Fresh(ApplyAll(mem, t, Fields(t, fn, arg, pid, creator, head, code)), t, fn, arg, code)
  {
    hide Get32, ApplyAll, Apply;
    var fs := Fields(t, fn, arg, pid, creator, head, code);
    StaysZero(mem, t, fs, CONTEXT + 4);
    StaysZero(mem, t, fs, CONTEXT + 8);
    StaysZero(mem, t, fs, CONTEXT + 12);
    StaysZero(mem, t, fs, CONTEXT + 16);
    ReadBack(mem, t, fs, 4);
    ReadBack(mem, t, fs, 5);
    ReadBack(mem, t, fs, 6);
    ReadBack(mem, t, fs, 7);
    ReadBack(mem, t, fs, 8);
  }

  lemma FieldsMakeTask(mem: seq<Byte>, t: Word, fn: Word, arg: Word, pid: Word, creator: Word, head: Word, code: Code)
    requires |mem| == ADDRESS_SPACE && Block(t)
    requires forall a :: t <= a < t + TASK_SIZE ==> mem[a] == 0
    ensures TaskFields(ApplyAll(mem, t, Fields(t, fn, arg, pid, creator, head, code)), t, pid, creator, head)
  {
    hide Get32, ApplyAll, Apply;
    var fs := Fields(t, fn, arg, pid, creator, head, code);
    ReadBack(mem, t, fs, 0);
    ReadBack(mem, t, fs, 1);
    ReadBack(mem, t, fs, 2);
    ReadBack(mem, t, fs, 3);
    ReadBack(mem, t, fs, 9);
  }

  /** Whatever the block held before, after the stores it is a task that starts at `fn` with `arg`,
      linked to the head of the list. */
  lemma SetupMakesTask(mem: seq<Byte>, t: Word, fn: Word, arg: Word, pid: Word, creator: Word, head: Word, code: Code)
    requires |mem| == ADDRESS_SPACE && Block(t)
    ensures var r := ApplyAll(mem, t, Setup(t, fn, arg, pid, creator, head, code));
      Fresh(r, t, fn, arg, code) && TaskFields(r, t, pid, creator, head)
  {
    hide Get32, ApplyAll, Apply, Zeroes, Fields, Fresh, TaskFields;
    var n: nat :| n == TASK_SIZE;
    var zs, fs := Zeroes(n), Fields(t, fn, arg, pid, creator, head, code);
    ZeroesClear(mem, t, n);
    ApplyAllPlus(mem, t, zs, fs);
    FieldsMakeContext(ApplyAll(mem, t, zs), t, fn, arg, pid, creator, head, code);
    FieldsMakeTask(ApplyAll(mem, t, zs), t, fn, arg, pid, creator, head, code);
  }

  /** The new block word by word: state, pid, stack, mm, the context, `next`, and at the top of its
      8192 bytes fn, the address it returns to, and its argument. */
  lemma NewTaskLayout(mem: seq<Byte>, t: Word, fn: Word, arg: Word, pid: Word, creator: Word, head: Word, code: Code)
    requires |mem| == ADDRESS_SPACE && 0 < t && t + 8192 < 0x1_0000_0000
    ensures var r := ApplyAll(mem, t, Setup(t, fn, arg, pid, creator, head, code));
      && Get32(r, t) == 2 && Get32(r, t + 4) == pid && Get32(r, t + 8) == creator && Get32(r, t + 12) == 0
      && Get32(r, t + 16) == t + 8180
      && Get32(r, t + 20) == Get32(r, t + 24) == Get32(r, t + 28) == Get32(r, t + 32) == 0
      && Get32(r, t + 36) == 0x200 && Get32(r, t + 40) == head
      && Get32(r, t + 8180) == fn && Get32(r, t + 8184) == code.kthreadExit && Get32(r, t + 8188) == arg
      && forall a :: 0 <= a < |mem| && !(t <= a < t + 8192) ==> r[a] == mem[a]
  {
    hide Get32, ApplyAll, Setup;
    SetupMakesTask(mem, t, fn, arg, pid, creator, head, code);
  }

  /** Switching to the new task: the `ret` of `switch_to` enters fn with interrupts on, with the return
      address and the argument where a C function expects them. */
  lemma NewTaskRuns(mem: seq<Byte>, t: Word, fn: Word, arg: Word, pid: Word, creator: Word, head: Word, code: Code,
                    r: Regs)
    requires |mem| == ADDRESS_SPACE && 0 < t && t + 8192 < 0x1_0000_0000
    requires forall a :: t + 16 <= a < t + 8192 && !(t + 40 <= a < t + 44) ==>
               mem[a] == ApplyAll(mem, t, Setup(t, fn, arg, pid, creator, head, code))[a]
    ensures Get32(mem, t + 16) == t + 8180
    ensures var n := Ret(LoadContext(mem, t + 16, r));
      && n.r.eip == fn && n.r.esp == t + 8184 && n.r.eflags == 0x200
      && Get32(n.mem, n.r.esp) == code.kthreadExit && Get32(n.mem, n.r.esp + 4) == arg
  {
    hide Get32, Put32, ApplyAll, Setup;
    var built := ApplyAll(mem, t, Setup(t, fn, arg, pid, creator, head, code));
    NewTaskLayout(mem, t, fn, arg, pid, creator, head, code);
    Get32Frame(mem, built, t + 16);
    Get32Frame(mem, built, t + 36);
    var pushed := LoadContext(mem, t + 16, r).mem;
    Get32Frame(pushed, built, t + 8180);
    Get32Frame(pushed, built, t + 8184);
    Get32Frame(pushed, built, t + 8188);
  }

  /** These facts depend on nothing outside the block. */
  lemma TaskDependsOnBlock(mem: seq<Byte>, later: seq<Byte>, t: Word, fn: Word, arg: Word, pid: Word, creator: Word,
                           head: Word, code: Code)
    requires |mem| == |later| == ADDRESS_SPACE && Block(t)
    requires forall a :: t <= a < t + STACK_SIZE ==> later[a] == mem[a]
    requires Fresh(mem, t, fn, arg, code) && TaskFields(mem, t, pid, creator, head)
    ensures Fresh(later, t, fn, arg, code) && TaskFields(later, t, pid, creator, head)
  {
    hide Get32, Fresh;
    ParkedStays(mem, later, t, Unstarted(fn, arg), code);
    Get32Frame(later, mem, t);
    Get32Frame(later, mem, t + 4);
    Get32Frame(later, mem, t + 8);
    Get32Frame(later, mem, t + 12);
    Get32Frame(later, mem, t + NEXT);
  }
}

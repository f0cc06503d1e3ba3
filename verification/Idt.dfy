/** Dispatch of interrupts and exceptions to the registered handlers, and the acknowledgements sent
    to the two cascaded interrupt controllers. */
module Idt {
  import opened Words

  const MASTER: Word := 0x20
  const SLAVE: Word := 0xA0
  const EOI: Word := 0x20
  const IRQ8 := 40

  /** What the outside sees of a handler: port writes, and what is called with the interrupt frame. */
  datatype Event = Out(port: Word, value: Word) | Call(handler: Word, number: Word) | Unhandled(number: Word)

  /** The in-service bits of the controllers; the slave hangs on input 2 of the master. */
  datatype Pic = Pic(master: set<nat>, slave: set<nat>)

  /** The processor takes line `irq` (0 to 15). */
  function Accept(p: Pic, irq: nat): Pic {
    if irq < 8 then p.(master := p.master + {irq})
    else Pic(p.master + {2}, p.slave + {irq - 8})
  }

  /** The in-service line of highest priority, which a non-specific end of interrupt clears. */
  predicate Highest(s: set<nat>, i: nat) {
    i in s && forall k :: k in s ==> i <= k
  }

  /** An end of interrupt clears the highest line, if any is in service. */
  ghost predicate Ended(s: set<nat>, t: set<nat>) {
    if s == {} then t == {} else exists i :: Highest(s, i) && t == s - {i}
  }

  /** What the controllers do at an event. */
  ghost predicate PicStep(p: Pic, e: Event, q: Pic) {
    match e
    case Out(port, value) =>
      if port == MASTER && value == EOI then
        q.slave == p.slave && Ended(p.master, q.master)
      else if port == SLAVE && value == EOI then
        q.master == p.master && Ended(p.slave, q.slave)
      else q == p
    case Call(_, _) => q == p
    case Unhandled(_) => q == p
  }

  /** The controllers go from `ps[0]` through the events `es`. */
  ghost predicate PicRun(ps: seq<Pic>, es: seq<Event>) {
    |ps| == |es| + 1 && forall k :: 0 <= k < |es| ==> PicStep(ps[k], es[k], ps[k + 1])
  }

  const NO_HANDLER: Word := 0

  /** A call of `register_interrupt_handler`. */
  datatype Registration = Registration(num: Byte, func: Word)

  /** The handler for `n` after the registrations `rs`: the one registered last. */
  function LastFor(rs: seq<Registration>, n: int): Word {
    if rs == [] then NO_HANDLER
    else if rs[|rs| - 1].num == n then rs[|rs| - 1].func
    else LastFor(rs[..|rs| - 1], n)
  }

  lemma {:induction false} LastForIs(rs: seq<Registration>, n: int)
    ensures (forall k :: 0 <= k < |rs| ==> rs[k].num != n) ==> LastFor(rs, n) == NO_HANDLER
    ensures forall k | 0 <= k < |rs| && rs[k].num == n ::
      (forall l :: k < l < |rs| ==> rs[l].num != n) ==> LastFor(rs, n) == rs[k].func
  {
    if rs != [] && rs[|rs| - 1].num != n {
      LastForIs(rs[..|rs| - 1], n);
    }
  }

  /** What an exception leads to when `handler` is registered for it. */
  function IsrEvents(handler: Word, number: Word): seq<Event> {
    [if handler != NO_HANDLER then Call(handler, number) else Unhandled(number)]
  }

  /** What a device interrupt leads to. */
  function IrqEvents(handler: Word, number: Word): seq<Event> {
    (if number >= IRQ8 then [Out(SLAVE, EOI)] else [])
    + [Out(MASTER, EOI)]
    + (if handler != NO_HANDLER then [Call(handler, number)] else [])
  }

  class Dispatcher {
    var handlers: seq<Word>                   // interrupt_handlers
    var trace: seq<Event>
    ghost var registered: seq<Registration>   // since `init_idt`

    /** The table holds, for every number, the handler registered last. */
    ghost predicate Valid()
      reads this
    {
      |handlers| == 256 && forall n :: 0 <= n < 256 ==> handlers[n] == LastFor(registered, n)
    }

    /** `init_idt` clears the table. */
    constructor ()
      ensures Valid() && trace == [] && registered == []
    {
      handlers, trace, registered := seq(256, _ => NO_HANDLER), [], [];
    }

    method RegisterInterruptHandler(num: Byte, func: Word)
      requires Valid()
      modifies `handlers, `registered
      ensures Valid() && registered == old(registered) + [Registration(num, func)]
    {
      handlers := handlers[num := func];
      registered := registered + [Registration(num, func)];
      assert registered[..|registered| - 1] == old(registered);
    }

    /** `isr_handler`. */
    method IsrHandler(number: Word)
      requires Valid() && number < 256
      modifies `trace
      ensures Valid() && trace == old(trace) + IsrEvents(LastFor(registered, number), number)
    {
      if handlers[number] != NO_HANDLER {
        trace := trace + [Call(handlers[number], number)];
      } else {
        trace := trace + [Unhandled(number)];
      }
    }

    /** `irq_handler`. */
    method IrqHandler(number: Word)
      requires Valid() && number < 256
      modifies `trace
      ensures Valid() && trace == old(trace) + IrqEvents(LastFor(registered, number), number)
    {
      if number >= IRQ8 {
        trace := trace + [Out(SLAVE, EOI)];
      }
      trace := trace + [Out(MASTER, EOI)];
      if handlers[number] != NO_HANDLER {
        trace := trace + [Call(handlers[number], number)];
      }
    }
  }

  /** Once `func` has been registered for `num`, exception and interrupt `num` end with a call of
      `func`, and every other number is dispatched as before. */
  lemma RegistrationDispatches(rs: seq<Registration>, num: Byte, func: Word, n: Word)
    ensures var now := LastFor(rs + [Registration(num, func)], n);
      if n == num && func != NO_HANDLER then
        && IsrEvents(now, n) == [Call(func, n)]
        && IrqEvents(now, n)[|IrqEvents(now, n)| - 1] == Call(func, n)
      else if n != num then
        && IsrEvents(now, n) == IsrEvents(LastFor(rs, n), n)
        && IrqEvents(now, n) == IrqEvents(LastFor(rs, n), n)
      else IsrEvents(now, n) == [Unhandled(n)]
  {
    assert (rs + [Registration(num, func)])[..|rs|] == rs;
  }

  /** The accepted line is behind every line in service: its number is the lowest on its controller,
      and for a slave line input 2 is the lowest on the master. */
  predicate Accepts(p: Pic, irq: nat) {
    if irq < 8 then forall i :: i in p.master ==> irq < i
    else (forall i :: i in p.master ==> 2 < i) && forall i :: i in p.slave ==> irq - 8 < i
  }

  lemma EndsOwn(s: set<nat>, i: nat, t: set<nat>)
    requires (forall k :: k in s ==> i < k) && Ended(s + {i}, t)
    ensures t == s
  {
    assert Highest(s + {i}, i);
  }

  /** A slave line is acknowledged at the slave, then at the master, any other line at the master only.
      Whatever else is in service, by the time the handler is called exactly the accepted line no
      longer is: a handler that switches to another thread and does not come back for a while, as the
      timer's does, holds up no further interrupt, and no other line is let through by it. */
  lemma AcknowledgedBeforeHandler(ps: seq<Pic>, handler: Word, irq: nat, p: Pic)
    requires irq < 16 && Accepts(p, irq)
    requires PicRun(ps, IrqEvents(handler, 32 + irq)) && ps[0] == Accept(p, irq)
    ensures var es := IrqEvents(handler, 32 + irq);
      && es == (if irq >= 8 then [Out(0xA0, 0x20), Out(0x20, 0x20)] else [Out(0x20, 0x20)])
               + (if handler != 0 then [Call(handler, 32 + irq)] else [])
      && (forall k :: 0 <= k < |es| && es[k].Call? ==> ps[k] == p)
      && ps[|es|] == p
  {
    var es := IrqEvents(handler, 32 + irq);
    assert PicStep(ps[0], es[0], ps[1]);
    if irq >= 8 {
      assert PicStep(ps[1], es[1], ps[2]);
      EndsOwn(p.slave, irq - 8, ps[1].slave);
      EndsOwn(p.master, 2, ps[2].master);
      if |es| == 3 {
        assert PicStep(ps[2], es[2], ps[3]);
      }
    } else {
      EndsOwn(p.master, irq, ps[1].master);
      if |es| == 2 {
        assert PicStep(ps[1], es[1], ps[2]);
      }
    }
  }
}

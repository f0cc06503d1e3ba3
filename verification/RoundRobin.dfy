/** Fairness of `schedule`: the timer dispatches the threads of the ring in turn. */
module RoundRobin {
  import opened Cpu
  import opened Threads
  import opened Preemption

  ghost predicate Ticks(s: Sys, s': Sys, code: Code) {
    exists w: Machine :: Tick(s, w, s', code)
  }

  /** A run in which the steps marked in `tick` are ticks of the timer, the others steps of whatever
      thread is running. */
  ghost predicate Clocked(ss: seq<Sys>, tick: seq<bool>, code: Code) {
    && |ss| == |tick| + 1
    && forall k | 0 <= k < |tick| ::
         if tick[k] then Ticks(ss[k], ss[k + 1], code) else UserStep(ss[k], ss[k + 1])
  }

  /** Which thread each tick makes current. */
  function Turns(ss: seq<Sys>, tick: seq<bool>): seq<nat>
    requires |ss| == |tick| + 1
    decreases |tick|
  {
    if tick == [] then [] else (if tick[0] then [ss[1].cur] else []) + Turns(ss[1..], tick[1..])
  }

  lemma ClockedRest(ss: seq<Sys>, tick: seq<bool>, code: Code)
    requires Clocked(ss, tick, code) && tick != []
    ensures if tick[0] then Ticks(ss[0], ss[1], code) else UserStep(ss[0], ss[1])
    ensures Clocked(ss[1..], tick[1..], code)
  {
    hide Ticks, UserStep;
    forall k | 0 <= k < |tick[1..]|
      ensures if tick[1..][k] then Ticks(ss[1..][k], ss[1..][k + 1], code) else UserStep(ss[1..][k], ss[1..][k + 1])
    {
      assert tick[1..][k] == tick[k + 1] && ss[1..][k] == ss[k + 1] && ss[1..][k + 1] == ss[k + 2];
    }
  }

  /** The k-th task from position `c` on, going round a ring of n. */
  function Nth(c: nat, k: nat, n: nat): (i: nat)
    requires n > 0
    ensures i < n
  {
    (c + k) % n
  }

  lemma {:induction false} TurnsGoRound(ss: seq<Sys>, tick: seq<bool>, n: nat, code: Code)
    requires |ss| == |tick| + 1 && Clocked(ss, tick, code) && |ss[0].order| == n && ss[0].cur < n
    ensures forall k :: 0 <= k < |Turns(ss, tick)| ==> Turns(ss, tick)[k] == Nth(ss[0].cur + 1, k, n)
    decreases |tick|
  {
    hide Clocked, Tick, UserStep, Nth, After;
    if tick != [] {
      ClockedRest(ss, tick, code);
      if tick[0] {
        var w: Machine :| Tick(ss[0], w, ss[1], code);
        TickShape(ss[0], w, ss[1], code);
        TickGoesRound(ss[0], w, ss[1], code);
        TurnsGoRound(ss[1..], tick[1..], n, code);
        forall k | 0 <= k < |Turns(ss, tick)|
          ensures Turns(ss, tick)[k] == Nth(ss[0].cur + 1, k, n)
        {
          NextTurn(ss[0].cur, n, k);
        }
      } else {
        UserShape(ss[0], ss[1]);
        TurnsGoRound(ss[1..], tick[1..], n, code);
        assert Turns(ss, tick) == Turns(ss[1..], tick[1..]);
      }
    }
  }

  lemma NextTurn(c: nat, n: nat, k: nat)
    requires c < n
    ensures k == 0 ==> After(c, n) == Nth(c + 1, k, n)
    ensures k > 0 ==> Nth(After(c, n) + 1, k - 1, n) == Nth(c + 1, k, n)
  {
    if c + 1 == n {
      assert (c + 1 + k) % n == (k + n) % n == k % n by {
        ModPlus(k, n);
      }
    }
  }

  lemma ModPlus(a: nat, n: nat)
    requires n > 0
    ensures (a + n) % n == a % n
  {
    ModIs(a + n, n, a / n + 1, a % n);
  }

  /** The remainder is what is left after any multiple. */
  lemma ModIs(a: nat, n: nat, q: nat, r: nat)
    requires r < n && a == q * n + r
    ensures a % n == r
  {
    var d := q - a / n;
    assert a == a / n * n + a % n;
    Distribute(q, a / n, n);
    if d > 0 {
      NotBelow(d, n);
    } else if d < 0 {
      NotBelow(-d, n);
    }
  }

  lemma Distribute(x: int, y: int, n: int)
    ensures x * n - y * n == (x - y) * n && (y - x) * n == -((x - y) * n)
  {
  }

  lemma NotBelow(d: nat, n: nat)
    requires d > 0
    ensures d * n >= n
  {
  }

  /** Any n ticks in a row make each of the n tasks current exactly once. */
  lemma EveryTaskOnce(ss: seq<Sys>, tick: seq<bool>, a: nat, i: nat, code: Code)
    requires |ss| == |tick| + 1 && Clocked(ss, tick, code) && SysOk(ss[0])
    requires i < |ss[0].order| && a + |ss[0].order| <= |Turns(ss, tick)|
    ensures exists k | a <= k < a + |ss[0].order| ::
      && Turns(ss, tick)[k] == i
      && forall l :: a <= l < a + |ss[0].order| && Turns(ss, tick)[l] == i ==> l == k
  {
    hide Clocked, SysOk;
    var n, turns := |ss[0].order|, Turns(ss, tick);
    CurrentInRing(ss[0]);
    TurnsGoRound(ss, tick, n, code);
    var at := ss[0].cur + 1 + a;
    var k := OneInWindow(at, n, i);
    assert turns[a + k] == i;
    forall l | a <= l < a + n && turns[l] == i
      ensures l == a + k
    {
      assert turns[l] == Nth(at, l - a, n);
    }
  }

  lemma CurrentInRing(s: Sys)
    requires SysOk(s)
    ensures s.cur < |s.order|
  {
  }

  lemma NthIs(at: nat, n: nat, l: nat, q: nat, r: nat)
    requires l < n && r < n && at == q * n + r
    ensures Nth(at, l, n) == (if r + l < n then r + l else r + l - n)
  {
    if r + l < n {
      ModIs(at + l, n, q, r + l);
    } else {
      NextMultiple(q, n);
      ModIs(at + l, n, q + 1, r + l - n);
    }
  }

  lemma NextMultiple(q: nat, n: nat)
    ensures (q + 1) * n == q * n + n
  {
  }

  /** Among n successive numbers one and only one leaves remainder i. */
  lemma OneInWindow(at: nat, n: nat, i: nat) returns (k: nat)
    requires i < n
    ensures k < n && Nth(at, k, n) == i
    ensures forall l :: 0 <= l < n && Nth(at, l, n) == i ==> l == k
  {
    var r, q := at % n, at / n;
    assert at == q * n + r;
    hide Nth;
    k := if r <= i then i - r else i - r + n;
    forall l | 0 <= l < n
      ensures Nth(at, l, n) == (if r + l < n then r + l else r + l - n)
    {
      NthIs(at, n, l, q, r);
    }
  }
}

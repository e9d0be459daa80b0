/**
 What every run of the scheduler keeps: placement, accounting and fairness.
 */
module SchedulingTheorems {
  import opened Bytes
  import opened Common
  import opened Scheduling

  // ---------------------------------------------------------------- placement

  // Both lists hold distinct processes in the matching state, and never the idle process.
  ghost predicate Consistent<P>(s: Sched<P>) {
    && Known(s) && Distinct(s.ready) && Distinct(s.sleeping)
    && s.idle !in s.ready && s.idle !in s.sleeping
    && (forall p :: p in s.ready ==> s.info[p].status == Ready)
    && (forall p :: p in s.sleeping ==> s.info[p].status == Sleeping)
  }

  // ... and conversely a process in such a state is on that list; only the current one runs.
  ghost predicate Placed<P>(s: Sched<P>) {
    && Consistent(s)
    && forall p :: p in s.info && p != s.idle ==>
         && (s.info[p].status == Ready ==> p in s.ready)
         && (s.info[p].status == Sleeping ==> p in s.sleeping)
         && (s.info[p].status == Running ==> p == s.current)
  }

  // Between slices nothing but the idle process is left running.
  ghost predicate Settled<P>(s: Sched<P>) {
    Placed(s) && forall p :: p in s.info && p != s.idle ==> s.info[p].status != Running
  }

  // A process is ready, asleep or finished, and in exactly one of these.
  lemma OnePlace<P>(s: Sched<P>, p: P)
    requires Settled(s) && p in s.info && p != s.idle
    ensures p in s.ready || p in s.sleeping || s.info[p].status == Zombie
    ensures !(p in s.ready && p in s.sleeping)
    ensures p in s.ready || p in s.sleeping ==> s.info[p].status != Zombie
  {
  }

  lemma InitSettled<P>(idle: P, policy: nat)
    ensures Settled(Init(idle, policy))
  {
  }

  lemma {:induction false} DistinctGrows<P>(q: seq<P>, r: seq<P>)
    requires Distinct(q) && Distinct(r) && forall p :: p in q ==> p !in r
    ensures Distinct(q + r)
  {
    var all := q + r;
    forall i, j | 0 <= i < j < |all|
      ensures all[i] != all[j]
    {
      if i < |q| <= j {
        assert all[i] in q && all[j] in r;
      }
    }
  }

  // scheduler_tick moves exactly the sleepers whose time has come, behind the ready ones; they and
  // those left keep the order of the sleep list.
  lemma {:induction false} TickMovesTheDue<P>(s: Sched<P>)
    requires Settled(s)
    ensures Settled(Tick(s))
    ensures var t := Tick(s);
            && s.ready <= t.ready
            && (forall p :: p in t.ready[|s.ready|..] <==> p in s.sleeping && s.info[p].wakeTick <= t.ticks)
            && (forall p :: p in t.sleeping <==> p in s.sleeping && s.info[p].wakeTick > t.ticks)
            && KeepsOrder(s.sleeping, t.ready[|s.ready|..]) && KeepsOrder(s.sleeping, t.sleeping)
  {
    hide Due, NotDue, KeepsOrder;
    var t := Tick(s);
    var due, rest := Due(s.info, t.ticks, s.sleeping), NotDue(s.info, t.ticks, s.sleeping);
    DueSplits(s.info, t.ticks, s.sleeping);
    DueKeepsOrder(s.info, t.ticks, s.sleeping);
    TickKnown(s);
    assert t.ready[|s.ready|..] == due;
    DistinctGrows(s.ready, due);
    forall p | p in t.ready
      ensures t.info[p].status == Ready && p != s.idle
    {
      assert p in s.ready || p in due;
    }
    forall p | p in t.info && p != t.idle
      ensures t.info[p].status == Ready ==> p in t.ready
    {
      assert p in s.ready ==> p in s.ready + due;
      assert p in due ==> p in s.ready + due;
    }
  }

  // Those who run next: the current process, taken off the ready list, or the idle process.
  ghost predicate Dispatched<P>(s: Sched<P>) {
    && Placed(s)
    && (s.current != s.idle ==> s.info[s.current].status == Running)
  }

  lemma {:induction false} DispatchPlaces<P>(s: Sched<P>)
    requires Settled(s)
    ensures Dispatched(Dispatch(s))
    ensures Dispatch(s).current == s.idle <==> s.ready == []
  {
    hide Choice;
    if s.ready != [] {
      var p := s.ready[PickIndex(s)];
      WithoutKeeps(s.ready, p);
      assert p in s.ready;
      var t := Dispatch(s);
      assert t.current == p && t.ready == Without(s.ready, p);
      assert Consistent(t);
    }
  }

  lemma {:induction false} BehaveKeeps<P>(s: Sched<P>, act: Act)
    requires Dispatched(s)
    ensures Placed(Behave(s, act)) && Behave(s, act).current == s.current
    ensures s.current != s.idle && act != Return ==> Behave(s, act).info[s.current].status != Running
  {
    if s.current != s.idle {
      assert s.current !in s.ready && s.current !in s.sleeping;
      WithoutAbsent(s.ready, s.current);
    }
  }

  lemma {:induction false} SettleSettles<P>(s: Sched<P>)
    requires Placed(s)
    ensures Settled(Settle(s))
  {
    if s.current != s.idle && s.info[s.current].status == Running {
      WithoutAbsent(s.ready, s.current);
    }
  }

  lemma {:induction false} SliceSettles<P>(s: Sched<P>, act: Act)
    requires Settled(s)
    ensures Settled(Slice(s, act))
  {
    hide Tick, Dispatch, Behave, Settle, Distinct;
    TickMovesTheDue(s);
    DispatchPlaces(Tick(s));
    BehaveKeeps(Dispatch(Tick(s)), act);
    SettleSettles(Behave(Dispatch(Tick(s)), act));
  }

  lemma {:induction false} CreateSettles<P>(s: Sched<P>, p: P, priority: byte)
    requires Settled(s)
    ensures Settled(Create(s, p, priority))
  {
    if p !in s.info {
      assert p !in s.ready;
      DistinctGrows(s.ready, [p]);
    }
  }

  lemma {:induction false} WakeSettles<P>(s: Sched<P>, p: P)
    requires Settled(s)
    ensures Settled(Wake(s, p))
  {
    if p in s.info && s.info[p].status == Sleeping && p != s.idle {
      WithoutKeeps(s.sleeping, p);
      DistinctGrows(s.ready, [p]);
    } else if p == s.idle {
      WithoutAbsent(s.sleeping, p);
    }
  }

  // ---------------------------------------------------------------- runs

  // What happens next: a round of scheduler_run, a bare scheduler_tick, a new process, an
  // explicit wake-up.
  datatype Event<P> = Round(act: Act) | BareTick | NewProcess(p: P, priority: byte) | WakeUp(p: P)

  ghost function Step<P>(s: Sched<P>, e: Event<P>): (r: Sched<P>)
    requires Settled(s)
    ensures Settled(r)
  {
    match e
    case Round(act) => SliceSettles(s, act); Slice(s, act)
    case BareTick => TickMovesTheDue(s); Tick(s)
    case NewProcess(p, priority) => CreateSettles(s, p, priority); Create(s, p, priority)
    case WakeUp(p) => WakeSettles(s, p); Wake(s, p)
  }

  // Every reachable state is settled.
  ghost function Run<P>(s: Sched<P>, es: seq<Event<P>>): (r: Sched<P>)
    requires Settled(s)
    ensures Settled(r)
  {
    if es == [] then s else Step(Run(s, es[..|es| - 1]), es[|es| - 1])
  }

  // ---------------------------------------------------------------- accounting

  function BareTicks<P>(es: seq<Event<P>>): (n: nat) {
    if es == [] then 0 else BareTicks(es[..|es| - 1]) + if es[|es| - 1].BareTick? then 1 else 0
  }

  ghost predicate Balanced<P>(s: Sched<P>, bare: nat) {
    s.ticks == (s.switches + s.idleTime + bare) % TWO64 && s.work == s.switches
  }

  lemma PlusOne(a: int, b: int)
    requires 0 <= a < TWO64 && a == b % TWO64
    ensures (a + 1) % TWO64 == (b + 1) % TWO64
  {
  }

  lemma {:induction false} WrapSum(ticks: u64, a: u64, b: u64, bare: nat)
    requires ticks == (a + b + bare) % TWO64
    ensures (ticks + 1) % TWO64 == ((a + 1) % TWO64 + b + bare) % TWO64
    ensures (ticks + 1) % TWO64 == (a + (b + 1) % TWO64 + bare) % TWO64
  {
    PlusOne(ticks, a + b + bare);
  }

  lemma {:induction false} BalanceMoves<P>(s: Sched<P>, t: Sched<P>, bare: nat)
    requires Balanced(s, bare) && t.ticks == Plus(s.ticks, 1)
    requires || (t.switches == Plus(s.switches, 1) && t.work == Plus(s.work, 1) && t.idleTime == s.idleTime)
             || (t.idleTime == Plus(s.idleTime, 1) && t.work == s.work && t.switches == s.switches)
    ensures Balanced(t, bare)
  {
    WrapSum(s.ticks, s.switches, s.idleTime, bare);
  }

  lemma {:induction false} SliceBalances<P>(s: Sched<P>, act: Act, bare: nat)
    requires Settled(s) && Balanced(s, bare)
    ensures Balanced(Slice(s, act), bare)
  {
    hide Due, NotDue, Without, Woken, Behave, Settle, Distinct, Plus, Balanced, Choice;
    TickMovesTheDue(s);
    TickKnown(s);
    DispatchPlaces(Tick(s));
    BalanceMoves(s, Slice(s, act), bare);
  }

  // In every run, ticks = context switches + idle time (+ ticks made outside a round), and the
  // work done = context switches, all modulo 2^64.
  lemma {:induction false} RunBalances<P>(s: Sched<P>, es: seq<Event<P>>, bare: nat)
    requires Settled(s) && Balanced(s, bare)
    ensures Balanced(Run(s, es), bare + BareTicks(es))
    decreases |es|
  {
    hide Slice, Due, NotDue, Create, Wake, Woken;
    if es != [] {
      var m := |es| - 1;
      RunBalances(s, es[..m], bare);
      var t, n := Run(s, es[..m]), bare + BareTicks(es[..m]);
      match es[m] {
        case Round(act) => SliceBalances(t, act, n);
        case BareTick => PlusOne(t.ticks, t.switches + t.idleTime + n);
        case NewProcess(_, _) =>
        case WakeUp(_) =>
      }
    }
  }
}

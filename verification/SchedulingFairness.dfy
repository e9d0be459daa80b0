/**
 Who gets the processor: shares under both policies, and waiting times under round robin.
 */
module SchedulingFairness {
  import opened Bytes
  import opened Common
  import opened Scheduling
  import opened SchedulingTheorems

  // ---------------------------------------------------------------- a round in which the process yields

  lemma {:induction false} QuietTick<P>(s: Sched<P>)
    requires Settled(s) && s.sleeping == []
    ensures Tick(s) == s.(ticks := Plus(s.ticks, 1))
  {
    assert Woken(s.info, []) == s.info;
    assert s.ready + [] == s.ready;
  }

  function Ran(i: Info): (r: Info) { i.(cpuTime := Plus(i.cpuTime, 1)) }

  // With no sleepers, the chosen process goes to the end of the ready list and only its
  // processor time changes.
  lemma {:induction false} YieldRound<P>(s: Sched<P>)
    requires Settled(s) && s.sleeping == [] && s.ready != []
    ensures var k := PickIndex(s);
            var p, t := s.ready[k], Slice(s, Yield);
            && t.ready == s.ready[..k] + s.ready[k + 1..] + [p] && t.sleeping == []
            && t.info == s.info[p := Ran(s.info[p])]
            && t.current == p && t.policy == s.policy && t.idle == s.idle
  {
    hide Tick, Choice, IsChoice, Plus;
    QuietTick(s);
    var k := PickIndex(s);
    var p := s.ready[k];
    WithoutAt(s.ready, k);
    assert p in s.ready;
    WithoutKeeps(s.ready, p);
  }

  // `n` rounds in which whoever runs yields.
  function Yields<P>(n: nat): (es: seq<Event<P>>) {
    if n == 0 then [] else Yields(n - 1) + [Round(Yield)]
  }

  lemma {:induction false} OneMoreYield<P>(s: Sched<P>, n: nat)
    requires Settled(s)
    ensures Run(s, Yields(n + 1)) == Slice(Run(s, Yields(n)), Yield)
  {
    hide Slice;
    var es: seq<Event<P>> := Yields(n + 1);
    assert es[..|es| - 1] == Yields(n);
  }

  // ---------------------------------------------------------------- round robin

  ghost predicate Turned<P>(s: Sched<P>, t: Sched<P>, k: nat, j: nat)
    requires Settled(s) && j <= |s.ready|
  {
    && Settled(t) && t.policy == s.policy && t.sleeping == [] && t.ready == s.ready[j..] + s.ready[..j]
    && t.info.Keys == s.info.Keys
    && forall p :: p in s.info ==>
         t.info[p] == s.info[p].(cpuTime :=
           if p in s.ready[..j] then Plus(s.info[p].cpuTime, (k + 1) % TWO64)
           else if p in s.ready then Plus(s.info[p].cpuTime, k % TWO64)
           else s.info[p].cpuTime)
  }

  lemma {:induction false} PlusPlus(a: u64, k: nat)
    ensures Plus(Plus(a, k % TWO64), 1) == Plus(a, (k + 1) % TWO64)
  {
    Wrap(a + k % TWO64, 1);
    Wrap(k, a + 1);
    Wrap(k + 1, a);
  }

  lemma Wrap(x: int, y: int)
    ensures (x % TWO64 + y) % TWO64 == (x + y) % TWO64
  {
  }

  lemma SettledLists<P>(s: Sched<P>)
    requires Settled(s)
    ensures Distinct(s.ready) && Known(s)
  {
  }

  lemma {:induction false} TurnOn<P>(s: Sched<P>, t: Sched<P>, k: nat, j: nat)
    requires Settled(s) && s.policy != PRIORITY && j < |s.ready| && Turned(s, t, k, j)
    ensures Turned(s, Slice(t, Yield), k, j + 1)
  {
    hide Slice, Plus, Choice, Settled;
    var q, p := s.ready, s.ready[j];
    assert t.ready[0] == p;
    SettledLists(s);
    SettledLists(t);
    YieldRound(t);
    SliceSettles(t, Yield);
    assert t.ready[..0] + t.ready[1..] + [p] == q[j + 1..] + q[..j + 1];
    assert p !in q[..j] && p in q;
    PlusPlus(s.info[p].cpuTime, k);
    assert q[..j + 1] == q[..j] + [p];
  }

  // With `n` ready processes that always yield and no sleepers, `k * n` rounds run each exactly
  // `k` times and restore the order of the ready list.
  lemma {:induction false} RoundRobin<P>(s: Sched<P>, k: nat, j: nat)
    requires Settled(s) && s.policy != PRIORITY && s.sleeping == [] && s.ready != [] && j <= |s.ready|
    ensures Turned(s, Run(s, Yields(k * |s.ready| + j)), k, j)
    decreases k, j
  {
    hide Slice, Settled, Run, Turned, Yields;
    var n := |s.ready|;
    if j > 0 {
      RoundRobin(s, k, j - 1);
      TurnOn(s, Run(s, Yields(k * n + j - 1)), k, j - 1);
      OneMoreYield(s, k * n + j - 1);
    } else if k > 0 {
      RoundRobin(s, k - 1, n);
      OneMoreTurn(k, n);
      TurnWraps(s, Run(s, Yields(k * n + j)), k - 1);
    } else {
      NotTurned(s);
      assert k * n + j == 0;
    }
  }

  lemma OneMoreTurn(k: nat, n: nat)
    requires k > 0
    ensures (k - 1) * n + n == k * n
  {
  }

  lemma {:induction false} TurnWraps<P>(s: Sched<P>, t: Sched<P>, k: nat)
    requires Settled(s) && Turned(s, t, k, |s.ready|)
    ensures Turned(s, t, k + 1, 0)
  {
    var q := s.ready;
    assert q[|q|..] + q[..|q|] == q == q[0..] + q[..0];
    assert q[..|q|] == q && q[..0] == [];
  }

  lemma {:induction false} NotTurned<P>(s: Sched<P>)
    requires Settled(s) && s.sleeping == []
    ensures Turned(s, s, 0, 0) && Run(s, Yields(0)) == s
  {
    assert s.ready[0..] + s.ready[..0] == s.ready;
    assert forall a: u64 :: Plus(a, 0) == a;
  }

  // ---------------------------------------------------------------- waiting under round robin

  // The first ready process runs next; the others move up a place.
  lemma {:induction false} MovesUp<P>(s: Sched<P>, act: Act, i: nat)
    requires Settled(s) && s.policy != PRIORITY && i < |s.ready|
    ensures var t := Slice(s, act);
            && t.policy == s.policy
            && (i == 0 ==> t.current == s.ready[0])
            && (i > 0 ==> |t.ready| >= i && t.ready[i - 1] == s.ready[i])
  {
    hide Tick, Dispatch, Behave, Settle, KeepsOrder;
    TickMovesTheDue(s);
    TickKnown(s);
    TickKeepsPolicy(s);
    FirstIsTaken(Tick(s));
    BehavePlaces(Dispatch(Tick(s)), act);
  }

  lemma TickKeepsPolicy<P>(s: Sched<P>)
    requires Settled(s)
    ensures Tick(s).policy == s.policy
  {
  }

  lemma {:induction false} FirstIsTaken<P>(a: Sched<P>)
    requires Settled(a) && a.policy != PRIORITY && a.ready != []
    ensures var b := Dispatch(a);
            Dispatched(b) && b.policy == a.policy && b.current == a.ready[0] && b.ready == a.ready[1..]
  {
    hide Plus, Without;
    DispatchPlaces(a);
    WithoutAt(a.ready, 0);
  }

  lemma {:induction false} BehavePlaces<P>(b: Sched<P>, act: Act)
    requires Dispatched(b)
    ensures var t := Settle(Behave(b, act));
            t.policy == b.policy && t.current == b.current && b.ready <= t.ready
  {
    hide Plus, Without, Adopted;
    BehaveKeeps(b, act);
    if b.current != b.idle {
      assert b.current !in b.ready;
      WithoutAbsent(b.ready, b.current);
    }
  }

  function Rounds<P>(acts: seq<Act>): (es: seq<Event<P>>)
    ensures |es| == |acts|
  {
    if acts == [] then [] else Rounds(acts[..|acts| - 1]) + [Round(acts[|acts| - 1])]
  }

  lemma {:induction false} OneMoreRound<P>(s: Sched<P>, acts: seq<Act>)
    requires Settled(s) && acts != []
    ensures Run(s, Rounds(acts)) == Slice(Run(s, Rounds(acts[..|acts| - 1])), acts[|acts| - 1])
  {
    hide Slice;
    var es: seq<Event<P>> := Rounds(acts);
    assert es[..|es| - 1] == Rounds(acts[..|acts| - 1]);
  }

  lemma {:induction false} WaitsInLine<P>(s: Sched<P>, acts: seq<Act>, i: nat)
    requires Settled(s) && s.policy != PRIORITY && |acts| <= i < |s.ready|
    ensures var t := Run(s, Rounds(acts));
            t.policy == s.policy && i - |acts| < |t.ready| && t.ready[i - |acts|] == s.ready[i]
    decreases |acts|
  {
    hide Slice, Settled;
    if acts != [] {
      var m := |acts| - 1;
      WaitsInLine(s, acts[..m], i);
      OneMoreRound(s, acts);
      MovesUp(Run(s, Rounds(acts[..m])), acts[m], i - m);
    }
  }

  // Whatever the processes do, the one at position `i` of the ready list runs in round `i + 1`.
  lemma {:induction false} RoundRobinWaits<P>(s: Sched<P>, acts: seq<Act>, i: nat)
    requires Settled(s) && s.policy != PRIORITY && i < |s.ready| && |acts| == i + 1
    ensures Run(s, Rounds(acts)).current == s.ready[i]
  {
    hide Slice, Settled;
    WaitsInLine(s, acts[..i], i);
    OneMoreRound(s, acts);
    MovesUp(Run(s, Rounds(acts[..i])), acts[i], 0);
  }

  // ---------------------------------------------------------------- waking up in time

  lemma {:induction false} SleepsOn<P>(s: Sched<P>, act: Act, p: P)
    requires Settled(s) && p in s.sleeping && Plus(s.ticks, 1) < s.info[p].wakeTick
    ensures var t := Slice(s, act);
            p in t.sleeping && t.info[p].wakeTick == s.info[p].wakeTick && t.ticks == Plus(s.ticks, 1)
  {
    hide Tick, Dispatch, Behave, Settle, Settled;
    StillListed(s, p);
    SparesSleeper(Dispatch(Tick(s)), act, p);
  }

  lemma {:induction false} StillListed<P>(s: Sched<P>, p: P)
    requires Settled(s) && p in s.sleeping && Plus(s.ticks, 1) < s.info[p].wakeTick
    ensures Known(s) && Distinct(s.sleeping) && Known(Tick(s))
    ensures var d := Dispatch(Tick(s));
            && Dispatched(d) && p in d.sleeping && p != d.current && d.ticks == Plus(s.ticks, 1)
            && d.info[p].wakeTick == s.info[p].wakeTick
  {
    hide Dispatch, Due, NotDue, Distinct, Plus, KeepsOrder;
    TickMovesTheDue(s);
    DispatchPlaces(Tick(s));
    PassedOver(Tick(s), p);
  }

  lemma {:induction false} PassedOver<P>(a: Sched<P>, p: P)
    requires Settled(a) && p in a.sleeping
    ensures var d := Dispatch(a);
            p in d.sleeping && p != d.current && p in d.info && d.info[p] == a.info[p] && d.ticks == a.ticks
  {
    hide Without, Choice, Distinct;
  }

  lemma {:induction false} SparesSleeper<P>(d: Sched<P>, act: Act, p: P)
    requires Dispatched(d) && p in d.sleeping && p != d.current
    ensures var b := Behave(d, act); b.current in b.info && b.idle in b.info
    ensures var t := Settle(Behave(d, act)); p in t.sleeping && p in t.info && t.info[p].wakeTick == d.info[p].wakeTick
  {
    hide Without, Distinct;
  }

  // The tick counter `m` ticks on.
  function Clock(ticks: u64, m: nat): (r: u64) { (ticks + m) % TWO64 }

  lemma ClockTicks(ticks: u64, m: nat)
    ensures Clock(ticks, 0) == ticks && Plus(Clock(ticks, m), 1) == Clock(ticks, m + 1)
  {
    Wrap(ticks + m, 1);
  }

  // The ticks of a run: one to a round, and the bare ones.
  function Ticks<P>(es: seq<Event<P>>): (n: nat) {
    if es == [] then 0 else Ticks(es[..|es| - 1]) + if es[|es| - 1].Round? || es[|es| - 1].BareTick? then 1 else 0
  }

  // Nobody wakes `p` explicitly.
  ghost predicate Undisturbed<P>(es: seq<Event<P>>, p: P) {
    forall i :: 0 <= i < |es| ==> es[i] != WakeUp(p)
  }

  lemma {:induction false} TickPasses<P>(s: Sched<P>, p: P)
    requires Settled(s) && p in s.sleeping && Plus(s.ticks, 1) < s.info[p].wakeTick
    ensures var t := Tick(s);
            p in t.sleeping && t.ticks == Plus(s.ticks, 1) && p in t.info && t.info[p].wakeTick == s.info[p].wakeTick
  {
    hide Due, NotDue, Distinct, Plus, KeepsOrder;
    TickMovesTheDue(s);
  }

  lemma {:induction false} OthersWake<P>(s: Sched<P>, q: P, p: P)
    requires Settled(s) && p in s.sleeping && q != p
    ensures var t := Wake(s, q);
            p in t.sleeping && t.ticks == s.ticks && p in t.info && t.info[p] == s.info[p]
  {
    hide Without;
    WithoutKeeps(s.sleeping, q);
  }

  lemma OthersStart<P>(s: Sched<P>, q: P, priority: byte, p: P)
    requires Settled(s) && p in s.sleeping
    ensures var t := Create(s, q, priority);
            p in t.sleeping && t.ticks == s.ticks && p in t.info && t.info[p] == s.info[p]
  {
  }

  // Any single event but its own wake-up.
  lemma {:induction false} EventPasses<P>(s: Sched<P>, e: Event<P>, p: P)
    requires Settled(s) && p in s.sleeping && e != WakeUp(p)
    requires e.Round? || e.BareTick? ==> Plus(s.ticks, 1) < s.info[p].wakeTick
    ensures var t := Step(s, e);
            && p in t.sleeping && t.info[p].wakeTick == s.info[p].wakeTick
            && t.ticks == if e.Round? || e.BareTick? then Plus(s.ticks, 1) else s.ticks
  {
    hide Slice, Tick, Create, Wake, Plus;
    match e
    case Round(act) => SleepsOn(s, act, p);
    case BareTick => TickPasses(s, p);
    case NewProcess(q, priority) => OthersStart(s, q, priority, p);
    case WakeUp(q) => OthersWake(s, q, p);
  }

  // A sleeper that nobody wakes stays asleep while its time has not come, whatever happens.
  lemma {:induction false} Asleep<P>(s: Sched<P>, es: seq<Event<P>>, p: P)
    requires Settled(s) && p in s.sleeping && Undisturbed(es, p)
    requires forall m :: 0 < m <= Ticks(es) ==> Clock(s.ticks, m) < s.info[p].wakeTick
    ensures var t := Run(s, es);
            p in t.sleeping && t.ticks == Clock(s.ticks, Ticks(es)) && t.info[p].wakeTick == s.info[p].wakeTick
    decreases |es|
  {
    hide Step, Clock, Plus;
    if es == [] {
      ClockTicks(s.ticks, 0);
    } else {
      var m := |es| - 1;
      Asleep(s, es[..m], p);
      ClockTicks(s.ticks, Ticks(es[..m]));
      EventPasses(Run(s, es[..m]), es[m], p);
    }
  }

  lemma {:induction false} BecomesReady<P>(t: Sched<P>, p: P)
    requires Settled(t) && p in t.sleeping
    ensures p in Tick(t).ready <==> t.info[p].wakeTick <= Plus(t.ticks, 1)
  {
    hide Due, NotDue, Plus, KeepsOrder;
    TickMovesTheDue(t);
    DueSplits(t.info, Plus(t.ticks, 1), t.sleeping);
  }

  // A sleeper that nobody wakes stays asleep until its time has come, and the tick that brings it
  // there makes it ready.
  lemma {:induction false} WakesOnTime<P>(s: Sched<P>, es: seq<Event<P>>, p: P)
    requires Settled(s) && p in s.sleeping && s.ticks + Ticks(es) < s.info[p].wakeTick && Undisturbed(es, p)
    ensures var t := Run(s, es);
            && p in t.sleeping && t.ticks == s.ticks + Ticks(es) && t.info[p].wakeTick == s.info[p].wakeTick
            && (t.ticks + 1 == s.info[p].wakeTick ==> p in Tick(t).ready)
  {
    hide Tick, Run, Ticks;
    assert forall m :: 0 < m <= Ticks(es) ==> Clock(s.ticks, m) == s.ticks + m;
    Asleep(s, es, p);
    assert Clock(s.ticks, Ticks(es)) == s.ticks + Ticks(es);
    BecomesReady(Run(s, es), p);
  }

  // An explicit wake-up makes it ready at once.
  lemma {:induction false} WokenAtOnce<P>(s: Sched<P>, p: P)
    requires Settled(s) && p in s.sleeping
    ensures var t := Step(s, WakeUp(p)); p in t.ready && p !in t.sleeping
  {
    hide Without;
    WithoutKeeps(s.sleeping, p);
  }

  // Wherever in the run a tick is made next, it makes `p` ready exactly when it is the n-th.
  ghost predicate ReadyAtLast<P>(t: Sched<P>, p: P, es: seq<Event<P>>, n: nat)
    requires Settled(t)
  {
    forall m :: 0 <= m <= |es| ==> (p in Tick(Run(t, es[..m])).ready <==> Ticks(es[..m]) + 1 == n)
  }

  // A process that has just gone to sleep for `n` ticks.
  lemma {:induction false} SleepRound<P>(s: Sched<P>, n: u64)
    requires Settled(s) && s.ready != []
    ensures var t := Slice(s, Sleep(n));
            t.current != t.idle && t.current in t.sleeping && t.info[t.current].wakeTick == Plus(t.ticks, n)
  {
    hide Due, NotDue, Without, Choice, KeepsOrder, Plus, Distinct;
    TickMovesTheDue(s);
    TickKnown(s);
    DispatchPlaces(Tick(s));
  }

  // Sleeping for `n` ticks, `n > 0`, makes a process ready at the n-th tick and no earlier if and
  // only if its wake-up tick did not wrap around, or the counter itself wraps at the next tick.
  lemma {:induction false} SleepLasts<P>(t: Sched<P>, p: P, n: u64, es: seq<Event<P>>)
    requires Settled(t) && p in t.sleeping && t.info[p].wakeTick == Plus(t.ticks, n)
    requires 0 < n && Ticks(es) == n - 1 && Undisturbed(es, p)
    ensures ReadyAtLast(t, p, es, n) <==> t.ticks + n < TWO64 || t.ticks == TWO64 - 1
  {
    hide Tick, Run, Ticks;
    if t.ticks + n < TWO64 || t.ticks == TWO64 - 1 {
      forall m | 0 <= m <= |es|
        ensures p in Tick(Run(t, es[..m])).ready <==> Ticks(es[..m]) + 1 == n
      {
        FewerTicks(es, m);
        SleepsUntil(t, p, n, es[..m]);
      }
    } else {
      assert es[..0] == [];
      NothingHappens(t);
      BecomesReady(t, p);
    }
  }

  lemma {:induction false} FewerTicks<P>(es: seq<Event<P>>, m: nat)
    requires m <= |es|
    ensures Ticks(es[..m]) <= Ticks(es)
    decreases |es|
  {
    if m == |es| {
      assert es[..m] == es;
    } else {
      FewerTicks(es[..|es| - 1], m);
      assert es[..|es| - 1][..m] == es[..m];
    }
  }

  lemma NothingHappens<P>(t: Sched<P>)
    requires Settled(t)
    ensures Run(t, []) == t && Ticks<P>([]) == 0
  {
  }

  lemma WakeClock(ticks: u64, n: u64, m: nat)
    requires m < n && (ticks + n < TWO64 || ticks == TWO64 - 1)
    ensures m > 0 ==> Clock(ticks, m) < Plus(ticks, n)
    ensures Plus(ticks, n) <= Clock(ticks, m + 1) <==> m == n - 1
  {
  }

  lemma {:induction false} SleepsUntil<P>(t: Sched<P>, p: P, n: u64, es: seq<Event<P>>)
    requires Settled(t) && p in t.sleeping && t.info[p].wakeTick == Plus(t.ticks, n) && Undisturbed(es, p)
    requires Ticks(es) < n && (t.ticks + n < TWO64 || t.ticks == TWO64 - 1)
    ensures p in Tick(Run(t, es)).ready <==> Ticks(es) == n - 1
  {
    hide Tick, Run, Ticks, Clock, Plus;
    forall m | 0 < m <= Ticks(es)
      ensures Clock(t.ticks, m) < t.info[p].wakeTick
    {
      WakeClock(t.ticks, n, m);
    }
    Asleep(t, es, p);
    WakeClock(t.ticks, n, Ticks(es));
    ClockTicks(t.ticks, Ticks(es));
    BecomesReady(Run(t, es), p);
  }

  // What sleep(n) comes to, from the round in which it is called, whatever happens after it short
  // of an explicit wake-up.
  lemma {:induction false} SleepTakesItsTime<P>(s: Sched<P>, n: u64, es: seq<Event<P>>)
    requires Settled(s) && s.ready != [] && 0 < n && Ticks(es) == n - 1
    requires Undisturbed(es, Slice(s, Sleep(n)).current)
    ensures var t := Slice(s, Sleep(n));
            Settled(t) && (ReadyAtLast(t, t.current, es, n) <==> t.ticks + n < TWO64 || t.ticks == TWO64 - 1)
  {
    hide Slice, ReadyAtLast, Undisturbed;
    SliceSettles(s, Sleep(n));
    SleepRound(s, n);
    var t := Slice(s, Sleep(n));
    SleepLasts(t, t.current, n, es);
  }

  // One process, ready to run at tick 4.
  ghost function Early<P>(idle: P, p: P): (s: Sched<P>) {
    Tick(Tick(Tick(Tick(Create(Init(idle, 0), p, 1)))))
  }

  lemma {:induction false} EarlyIs<P>(idle: P, p: P)
    requires p != idle
    ensures var s := Early(idle, p);
            Settled(Init(idle, 0)) && Settled(s) && s.ready == [p] && s.sleeping == [] && s.ticks == 4 && s.idle == idle
  {
    hide Tick;
    var s := Create(Init(idle, 0), p, 1);
    InitSettled(idle, 0);
    CreateSettles(Init(idle, 0), p, 1);
    QuietTick(s);
    QuietTick(Tick(s));
    QuietTick(Tick(Tick(s)));
    QuietTick(Tick(Tick(Tick(s))));
  }

  // For instance, sleep(2^64 - 1) at tick 5 sets the wake-up tick to 4: ready at the next tick.
  lemma {:induction false} OverlongSleep<P>(idle: P, p: P)
    requires p != idle
    ensures Settled(Early(idle, p))
    ensures var t := Slice(Early(idle, p), Sleep(TWO64 - 1));
            t.current == p && t.ticks == 5 && t.info[p].wakeTick == 4 && p in Tick(t).ready
  {
    hide Early, Dispatch, Behave, Settle;
    EarlyIs(idle, p);
    var s := Early(idle, p);
    QuietTick(s);
    SleepRound(s, TWO64 - 1);
    SliceSettles(s, Sleep(TWO64 - 1));
    OnlyOne(s, Sleep(TWO64 - 1), p);
    BecomesReady(Slice(s, Sleep(TWO64 - 1)), p);
  }

  lemma {:induction false} OnlyOne<P>(s: Sched<P>, act: Act, p: P)
    requires Settled(s) && s.ready == [p] && s.sleeping == []
    ensures Slice(s, act).current == p && Slice(s, act).ticks == Plus(s.ticks, 1)
  {
    hide Tick, Behave, Settle, Plus;
    QuietTick(s);
  }

  // ---------------------------------------------------------------- by priority

  ghost predicate IsTop<P>(info: map<P, Info>, q: seq<P>, p: P)
    requires forall x :: x in q ==> x in info
  {
    p in q && forall x :: x in q ==> info[x].priority <= info[p].priority
  }

  // The processor times of the top-priority processes differ by at most one.
  ghost predicate Level<P>(info: map<P, Info>, q: seq<P>)
    requires forall x :: x in q ==> x in info
  {
    forall p, r :: p in q && r in q && IsTop(info, q, p) && IsTop(info, q, r) ==> info[p].cpuTime <= info[r].cpuTime + 1
  }

  function TotalTime<P(==)>(info: map<P, Info>, q: seq<P>): (n: nat)
    requires forall p :: p in q ==> p in info
  {
    if q == [] then 0 else TotalTime(info, q[..|q| - 1]) + info[q[|q| - 1]].cpuTime
  }

  lemma {:induction false} TimeOfOthers<P>(info: map<P, Info>, q: seq<P>, p: P, i: Info)
    requires (forall x :: x in q ==> x in info) && p !in q
    ensures TotalTime(info[p := i], q) == TotalTime(info, q)
    decreases |q|
  {
    if q != [] {
      TimeOfOthers(info, q[..|q| - 1], p, i);
    }
  }

  // Running one process of the list adds one to the total.
  lemma {:induction false} TimeGrows<P>(info: map<P, Info>, q: seq<P>, p: P)
    requires (forall x :: x in q ==> x in info) && Distinct(q) && p in q && info[p].cpuTime + 1 < TWO64
    ensures TotalTime(info[p := Ran(info[p])], q) == TotalTime(info, q) + 1
    decreases |q|
  {
    var m := |q| - 1;
    LastOfDistinct(q);
    if q[m] == p {
      TimeOfOthers(info, q[..m], p, Ran(info[p]));
    } else {
      TimeGrows(info, q[..m], p);
    }
  }

  // How a state `t` compares with an earlier `s`, `n` rounds of yielding later: `top` lists the
  // top-priority processes.
  ghost predicate Shared<P>(s: Sched<P>, top: seq<P>, t: Sched<P>, n: nat)
    requires Known(s) && forall p :: p in top ==> p in s.info
  {
    && Known(t) && t.policy == s.policy && t.sleeping == [] && t.info.Keys == s.info.Keys
    && (forall p :: p in t.ready ==> p in s.ready) && (forall p :: p in s.ready ==> p in t.ready)
    && (forall p :: p in s.info ==>
          t.info[p] == if p in top then s.info[p].(cpuTime := t.info[p].cpuTime) else s.info[p])
    && (forall p :: p in top ==> t.info[p].cpuTime <= s.info[p].cpuTime + n)
    && Level(t.info, t.ready)
    && TotalTime(t.info, top) == TotalTime(s.info, top) + n
  }

  // `top` lists each top-priority process once, and `n` more rounds wrap no counter.
  ghost predicate Tops<P>(s: Sched<P>, top: seq<P>, n: nat)
    requires Known(s)
  {
    && Distinct(top) && (forall p :: p in top ==> p in s.ready && IsTop(s.info, s.ready, p))
    && (forall p :: p in s.ready && IsTop(s.info, s.ready, p) ==> p in top)
    && (forall p :: p in top ==> s.info[p].cpuTime + n < TWO64)
  }

  lemma {:induction false} SameTops<P>(s: Sched<P>, top: seq<P>, t: Sched<P>, n: nat, p: P)
    requires Known(s) && Tops(s, top, n) && Shared(s, top, t, n)
    ensures IsTop(t.info, t.ready, p) <==> p in top
  {
    hide Level, TotalTime, Distinct;
    if p in s.ready {
      assert IsTop(t.info, t.ready, p) <==> IsTop(s.info, s.ready, p);
    }
  }

  lemma {:induction false} ChosenIsTop<P>(t: Sched<P>)
    requires Settled(t) && t.policy == PRIORITY && t.ready != []
    ensures var p := t.ready[PickIndex(t)];
            && IsTop(t.info, t.ready, p)
            && forall q :: q in t.ready && IsTop(t.info, t.ready, q) ==> t.info[p].cpuTime <= t.info[q].cpuTime
  {
    var k := PickIndex(t);
    assert IsChoice(t.info, t.ready, k);
    var p := t.ready[k];
    assert p in t.ready;
  }

  lemma {:induction false} StaysLevel<P>(info: map<P, Info>, q: seq<P>, r: seq<P>, p: P)
    requires (forall x :: x in q ==> x in info) && Level(info, q) && IsTop(info, q, p) && info[p].cpuTime + 1 < TWO64
    requires forall x :: x in q && IsTop(info, q, x) ==> info[p].cpuTime <= info[x].cpuTime
    requires (forall x :: x in r ==> x in q) && (forall x :: x in q ==> x in r)
    ensures Level(info[p := Ran(info[p])], r)
  {
    hide IsTop;
    TopMember(info, q, p);
    var after := info[p := Ran(info[p])];
    forall a, b | a in r && b in r && IsTop(after, r, a) && IsTop(after, r, b)
      ensures after[a].cpuTime <= after[b].cpuTime + 1
    {
      TopKept(info, q, r, p, a);
      TopKept(info, q, r, p, b);
    }
  }

  lemma TopMember<P>(info: map<P, Info>, q: seq<P>, p: P)
    requires (forall x :: x in q ==> x in info) && IsTop(info, q, p)
    ensures p in q
  {
  }

  lemma {:induction false} TopKept<P>(info: map<P, Info>, q: seq<P>, r: seq<P>, p: P, x: P)
    requires (forall y :: y in q ==> y in info) && p in q
    requires (forall y :: y in r ==> y in q) && (forall y :: y in q ==> y in r)
    requires IsTop(info[p := Ran(info[p])], r, x)
    ensures IsTop(info, q, x)
  {
    var after := info[p := Ran(info[p])];
    forall y | y in q
      ensures info[y].priority <= info[x].priority
    {
      assert y in r && after[y].priority == info[y].priority;
    }
  }

  lemma {:induction false} ShareOn<P>(s: Sched<P>, top: seq<P>, t: Sched<P>, n: nat)
    requires Settled(s) && s.policy == PRIORITY && s.ready != [] && Tops(s, top, n + 1)
    requires Settled(t) && Shared(s, top, t, n)
    ensures Shared(s, top, Slice(t, Yield), n + 1) && Slice(t, Yield).current in top
  {
    hide Slice, Level, TotalTime, Settled, Choice, IsTop, PickIndex;
    SettledLists(s);
    SettledLists(t);
    assert s.ready[0] in t.ready;
    var k := PickIndex(t);
    ChosenIsTop(t);
    assert Tops(s, top, n);
    SameTops(s, top, t, n, t.ready[k]);
    YieldRound(t);
    Reordered(t.ready, k);
    ShareStep(s, top, t, Slice(t, Yield), n, t.ready[k]);
  }

  lemma {:induction false} ShareStep<P>(s: Sched<P>, top: seq<P>, t: Sched<P>, u: Sched<P>, n: nat, p: P)
    requires Known(s) && Tops(s, top, n + 1) && Shared(s, top, t, n) && p in top && IsTop(t.info, t.ready, p)
    requires forall q :: q in t.ready && IsTop(t.info, t.ready, q) ==> t.info[p].cpuTime <= t.info[q].cpuTime
    requires u.info == t.info[p := Ran(t.info[p])] && u.policy == t.policy && u.sleeping == [] && u.current == p
    requires (forall x :: x in u.ready ==> x in t.ready) && (forall x :: x in t.ready ==> x in u.ready)
    requires u.idle in u.info
    ensures Shared(s, top, u, n + 1)
  {
    hide Level, TotalTime, IsTop, Distinct;
    TimeGrows(t.info, top, p);
    StaysLevel(t.info, t.ready, u.ready, p);
    assert u.info.Keys == t.info.Keys;
    var i := u.info[p];
    assert i.cpuTime == t.info[p].cpuTime + 1;
    forall x | x in s.info
      ensures u.info[x] == if x in top then s.info[x].(cpuTime := u.info[x].cpuTime) else s.info[x]
    {
      assert x in t.info;
    }
  }

  lemma {:induction false} Reordered<P>(q: seq<P>, k: nat)
    requires k < |q|
    ensures forall x :: x in q[..k] + q[k + 1..] + [q[k]] ==> x in q
    ensures forall x :: x in q ==> x in q[..k] + q[k + 1..] + [q[k]]
  {
    var r := q[..k] + q[k + 1..] + [q[k]];
    forall x | x in q
      ensures x in r
    {
      var i :| 0 <= i < |q| && q[i] == x;
      assert r[if i < k then i else if i == k then |q| - 1 else i - 1] == x;
    }
  }

  // Under the priority policy, with no sleepers and processes that always yield, only
  // top-priority processes ever run, and processor times within one of each other stay so.
  lemma {:induction false} PriorityShares<P>(s: Sched<P>, top: seq<P>, n: nat)
    requires Settled(s) && s.policy == PRIORITY && s.sleeping == [] && s.ready != []
    requires Tops(s, top, n) && Level(s.info, s.ready)
    ensures Shared(s, top, Run(s, Yields(n)), n)
    ensures n > 0 ==> Run(s, Yields(n)).current in top
  {
    hide Slice, Level, Settled, Run, Yields, Tops, Shared;
    SettledLists(s);
    if n > 0 {
      FewerRounds(s, top, n);
      PriorityShares(s, top, n - 1);
      ShareOn(s, top, Run(s, Yields(n - 1)), n - 1);
      OneMoreYield(s, n - 1);
    } else {
      NoYield(s, top);
    }
  }

  lemma FewerRounds<P>(s: Sched<P>, top: seq<P>, n: nat)
    requires Known(s) && n > 0 && Tops(s, top, n)
    ensures Tops(s, top, n - 1)
  {
  }

  lemma {:induction false} NoYield<P>(s: Sched<P>, top: seq<P>)
    requires Settled(s) && Known(s) && s.sleeping == [] && Level(s.info, s.ready) && Tops(s, top, 0)
    ensures forall p :: p in top ==> p in s.info
    ensures Run(s, Yields(0)) == s && Shared(s, top, s, 0)
  {
    hide Level, TotalTime, IsTop, Settled;
  }

  // ---------------------------------------------------------------- equal shares

  lemma {:induction false} TimeAtMost<P>(info: map<P, Info>, q: seq<P>, c: int)
    requires forall p :: p in q ==> p in info && info[p].cpuTime <= c
    ensures TotalTime(info, q) <= |q| * c
    decreases |q|
  {
    if q != [] {
      TimeAtMost(info, q[..|q| - 1], c);
      OneMoreTime(|q|, c);
    }
  }

  lemma {:induction false} TimeAtLeast<P>(info: map<P, Info>, q: seq<P>, c: int)
    requires forall p :: p in q ==> p in info && info[p].cpuTime >= c
    ensures TotalTime(info, q) >= |q| * c
    decreases |q|
  {
    if q != [] {
      TimeAtLeast(info, q[..|q| - 1], c);
      OneMoreTime(|q|, c);
    }
  }

  lemma OneMoreTime(n: int, c: int)
    ensures (n - 1) * c + c == n * c
  {
  }

  // A total of `c` each, within one of each other, means `c` each.
  lemma {:induction false} EvenShare<P>(info: map<P, Info>, q: seq<P>, c: nat, p: P)
    requires (forall x :: x in q ==> x in info) && Distinct(q) && p in q && TotalTime(info, q) == |q| * c
    requires forall x, y :: x in q && y in q ==> info[x].cpuTime <= info[y].cpuTime + 1
    ensures info[p].cpuTime == c
  {
    var i := info[p];
    if i.cpuTime > c {
      Lopsided(info, q, c, p, true);
    } else if i.cpuTime < c {
      Lopsided(info, q, c, p, false);
    }
  }

  lemma {:induction false} Lopsided<P>(info: map<P, Info>, q: seq<P>, c: nat, p: P, over: bool)
    requires (forall x :: x in q ==> x in info) && Distinct(q) && p in q
    requires over ==> info[p].cpuTime > c && forall x :: x in q ==> info[x].cpuTime >= c
    requires !over ==> info[p].cpuTime < c && forall x :: x in q ==> info[x].cpuTime <= c
    ensures if over then TotalTime(info, q) > |q| * c else TotalTime(info, q) < |q| * c
    decreases |q|
  {
    var m := |q| - 1;
    LastOfDistinct(q);
    OneMoreTime(|q|, c);
    if q[m] == p {
      if over {
        TimeAtLeast(info, q[..m], c);
      } else {
        TimeAtMost(info, q[..m], c);
      }
    } else {
      Lopsided(info, q[..m], c, p, over);
    }
  }

  lemma {:induction false} EqualIsLevel<P>(s: Sched<P>, top: seq<P>, n: nat, c: nat)
    requires Known(s) && Tops(s, top, n) && forall x :: x in top ==> s.info[x].cpuTime == c
    ensures Level(s.info, s.ready)
  {
    hide IsTop;
  }

  lemma {:induction false} LevelTops<P>(s: Sched<P>, top: seq<P>, t: Sched<P>, n: nat)
    requires Known(s) && Tops(s, top, n) && Shared(s, top, t, n)
    ensures forall x, y :: x in top && y in top ==> t.info[x].cpuTime <= t.info[y].cpuTime + 1
  {
    hide IsTop, TotalTime;
    forall x, y | x in top && y in top
      ensures t.info[x].cpuTime <= t.info[y].cpuTime + 1
    {
      SameTops(s, top, t, n, x);
      SameTops(s, top, t, n, y);
    }
  }

  // Starting level, `k` rounds for each of the top-priority processes run each exactly `k` times.
  lemma {:induction false} PriorityRounds<P>(s: Sched<P>, top: seq<P>, c: nat, k: nat, p: P)
    requires Settled(s) && s.policy == PRIORITY && s.sleeping == [] && s.ready != []
    requires Tops(s, top, k * |top|) && (forall x :: x in top ==> s.info[x].cpuTime == c) && p in top
    ensures p in Run(s, Yields(k * |top|)).info && Run(s, Yields(k * |top|)).info[p].cpuTime == c + k
  {
    hide Slice, TotalTime, Run, Yields, Choice, Level, IsTop;
    var n := k * |top|;
    EqualIsLevel(s, top, n, c);
    PriorityShares(s, top, n);
    var t := Run(s, Yields(n));
    TimeAtLeast(s.info, top, c);
    TimeAtMost(s.info, top, c);
    assert n >= 0 && |top| * c + n == |top| * (c + k);
    LevelTops(s, top, t, n);
    EvenShare(t.info, top, c + k, p);
  }
}

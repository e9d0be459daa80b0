/**
 The life of a process over every run of the scheduler: its number, when it first runs, whose child
 it is, and that it never runs again once it has finished.
 */
module SchedulingFamily {
  import opened Bytes
  import opened Common
  import opened Scheduling
  import opened SchedulingTheorems

  // ---------------------------------------------------------------- a round, stage by stage

  // Same processes with the same numbers and parents.
  ghost predicate SameFamily<P>(s: Sched<P>, t: Sched<P>) {
    && t.info.Keys == s.info.Keys && t.nextPid == s.nextPid && t.created == s.created && t.idle == s.idle
    && forall p :: p in s.info ==> t.info[p].pid == s.info[p].pid && t.info[p].ppid == s.info[p].ppid
  }

  // Who runs next.
  ghost function Chosen<P>(s: Sched<P>): (p: P)
    requires Settled(s)
    ensures p in s.info
  {
    TickFamily(s);
    DispatchFamily(Tick(s));
    Dispatch(Tick(s)).current
  }

  lemma {:induction false} TickFamily<P>(s: Sched<P>)
    requires Settled(s)
    ensures Settled(Tick(s)) && SameFamily(s, Tick(s))
    ensures forall p :: p in s.info ==>
              && Tick(s).info[p].cpuTime == s.info[p].cpuTime
              && (s.info[p].status == Zombie ==> Tick(s).info[p].status == Zombie)
  {
    hide Due, NotDue, KeepsOrder;
    TickMovesTheDue(s);
    DueSplits(s.info, Plus(s.ticks, 1), s.sleeping);
  }

  lemma {:induction false} DispatchFamily<P>(s: Sched<P>)
    requires Settled(s)
    ensures var d := Dispatch(s);
            && Dispatched(d) && SameFamily(s, d) && d.current in d.info
            && (d.current == d.idle <==> s.ready == []) && (d.current != d.idle ==> d.current in s.ready)
            && d.sleeping == s.sleeping && forall p :: p in s.info && p != d.current ==> d.info[p] == s.info[p]
  {
    hide Choice, Without;
    DispatchPlaces(s);
  }

  lemma {:induction false} BehaveFamily<P>(d: Sched<P>, act: Act)
    requires Dispatched(d)
    ensures var b := Behave(d, act);
            && Placed(b) && SameFamily(d, b) && b.current == d.current
            && (forall p :: p in d.info && p != d.current ==> b.info[p] == d.info[p])
            && (d.current != d.idle ==> (b.info[d.current].status == Running <==> act == Return))
            && (d.current != d.idle ==> b.info[d.current].status != Zombie)
            && b.sleeping == (if act.Sleep? && d.current != d.idle then [d.current] else []) + d.sleeping
  {
    hide Without;
    BehaveKeeps(d, act);
  }

  // What finishing does: the process is marked and its ready children get a new parent.
  lemma {:induction false} SettleFamily<P>(b: Sched<P>)
    requires Placed(b) && (b.current != b.idle ==> b.info[b.current].status != Zombie)
    ensures var t, ends := Settle(b), b.current != b.idle && b.info[b.current].status == Running;
            && t.info.Keys == b.info.Keys && t.nextPid == b.nextPid && t.created == b.created && t.idle == b.idle
            && t.current == b.current && t.sleeping == b.sleeping && t.ready == b.ready
            && (b.current != b.idle ==> (t.info[b.current].status == Zombie <==> ends))
            && forall p :: p in b.info ==>
                 && t.info[p].pid == b.info[p].pid && t.info[p].cpuTime == b.info[p].cpuTime
                 && (b.info[p].status == Zombie ==> t.info[p].status == Zombie)
                 && t.info[p].ppid == if ends && p in b.ready && b.info[p].ppid == b.info[b.current].pid
                                      then b.info[b.idle].pid else b.info[p].ppid
  {
    WithoutAbsentRunning(b);
  }

  lemma {:induction false} WithoutAbsentRunning<P>(b: Sched<P>)
    requires Placed(b)
    ensures b.current != b.idle && b.info[b.current].status == Running ==> Without(b.ready, b.current) == b.ready
  {
    if b.current != b.idle && b.info[b.current].status == Running {
      WithoutAbsent(b.ready, b.current);
    }
  }

  // The stages of a round.
  lemma {:induction false} RoundStages<P>(s: Sched<P>, act: Act)
    requires Settled(s)
    ensures var a := Tick(s);
            && Settled(a) && SameFamily(s, a)
            && var d := Dispatch(a);
            && Dispatched(d) && SameFamily(a, d) && d.current == Chosen(s)
            && var b := Behave(d, act);
            && Placed(b) && SameFamily(d, b) && b.current == d.current && Slice(s, act) == Settle(b)
  {
    hide Tick, Dispatch, Behave, Settle, SameFamily;
    TickFamily(s);
    DispatchFamily(Tick(s));
    BehaveFamily(Dispatch(Tick(s)), act);
  }

  // ---------------------------------------------------------------- creation

  // A new process goes to the end of the ready list, as a child of the current one, with its
  // priority and no processor time; nothing else about the others changes.
  lemma {:induction false} NewcomerIs<P>(s: Sched<P>, p: P, priority: byte)
    requires Settled(s) && p !in s.info
    ensures var t := Create(s, p, priority);
            && t.ready == s.ready + [p] && t.sleeping == s.sleeping && t.current == s.current && t.policy == s.policy
            && t.info == s.info[p := Info(s.nextPid, s.info[s.current].pid, Ready, priority, 0, 0)]
  {
    assert p !in s.ready;
  }

  // By priority, it is dispatched next if and only if every other ready process has a lower
  // priority, or the same one and has run before.
  lemma {:induction false} NewcomerRunsIff<P>(s: Sched<P>, p: P, priority: byte)
    requires Settled(s) && s.policy == PRIORITY && p !in s.info
    ensures Settled(Create(s, p, priority))
    ensures Dispatch(Create(s, p, priority)).current == p
            <==> forall q :: q in s.ready ==>
                   s.info[q].priority < priority || (s.info[q].priority == priority && s.info[q].cpuTime > 0)
  {
    hide Choice, Create, Settled;
    SettledMembers(s);
    var t, n := Create(s, p, priority), |s.ready|;
    CreateSettles(s, p, priority);
    NewcomerIs(s, p, priority);
    SettledMembers(t);
    var k := PickIndex(t);
    assert IsChoice(t.info, t.ready, k);
    assert t.ready[n] == p;
    assert forall j :: 0 <= j < n ==> t.ready[j] == s.ready[j] && t.info[t.ready[j]] == s.info[s.ready[j]];
    if forall q :: q in s.ready ==>
         s.info[q].priority < priority || (s.info[q].priority == priority && s.info[q].cpuTime > 0) {
      forall j | 0 <= j < n
        ensures t.info[t.ready[j]].priority < priority
                || (t.info[t.ready[j]].priority == priority && t.info[t.ready[j]].cpuTime > 0)
      {
        assert s.ready[j] in s.ready;
      }
      ChoiceIsUnique(t.info, t.ready, n);
    }
  }

  lemma SettledMembers<P>(s: Sched<P>)
    requires Settled(s)
    ensures s.idle in s.info && s.current in s.info && Distinct(s.ready) && forall p :: p in s.ready ==> p in s.info
  {
  }

  // ---------------------------------------------------------------- numbers

  // The processes in the order of their creation: the n-th has number n, counted modulo 2^64.
  ghost predicate Numbered<P>(s: Sched<P>, order: seq<P>) {
    && Distinct(order) && (forall p :: p in s.info ==> p in order)
    && (forall i :: 0 <= i < |order| ==> order[i] in s.info && s.info[order[i]].pid == i % TWO64)
    && s.nextPid == |order| % TWO64 && s.created == |order| % TWO64
  }

  lemma InitNumbered<P>(idle: P, policy: nat)
    ensures Numbered(Init(idle, policy), [idle])
  {
  }

  // No event renumbers a process.
  lemma {:induction false} StepKeepsNumbers<P>(s: Sched<P>, e: Event<P>)
    requires Settled(s) && !e.NewProcess?
    ensures var t := Step(s, e);
            && t.info.Keys == s.info.Keys && t.nextPid == s.nextPid && t.created == s.created
            && forall p :: p in s.info ==> t.info[p].pid == s.info[p].pid
  {
    match e {
      case Round(act) =>
        hide Tick, Dispatch, Behave, Settle, Slice;
        RoundStages(s, act);
        BehaveFamily(Dispatch(Tick(s)), act);
        SettleFamily(Behave(Dispatch(Tick(s)), act));
      case BareTick => TickFamily(s);
      case WakeUp(_) =>
    }
  }

  lemma {:induction false} RunNumbers<P>(s: Sched<P>, order: seq<P>, es: seq<Event<P>>) returns (all: seq<P>)
    requires Settled(s) && Numbered(s, order)
    ensures Numbered(Run(s, es), all) && order <= all
    decreases |es|
  {
    hide Settled, Step;
    all := order;
    if es != [] {
      var m := |es| - 1;
      all := RunNumbers(s, order, es[..m]);
      var t, e := Run(s, es[..m]), es[m];
      if e.NewProcess? && e.p !in t.info {
        NewNumber(t, all, e.p, e.priority);
        all := all + [e.p];
      } else if e.NewProcess? {
        NoNews(t, e.p, e.priority);
      } else {
        StepKeepsNumbers(t, e);
      }
    }
  }

  lemma NoNews<P>(s: Sched<P>, p: P, priority: byte)
    requires Settled(s) && p in s.info
    ensures Step(s, NewProcess(p, priority)) == s
  {
  }

  lemma {:induction false} NewNumber<P>(s: Sched<P>, order: seq<P>, p: P, priority: byte)
    requires Settled(s) && Numbered(s, order) && p !in s.info
    ensures Numbered(Step(s, NewProcess(p, priority)), order + [p])
  {
    hide Settled;
    SettledMembers(s);
    NewcomerIs(s, p, priority);
    var t, all := Create(s, p, priority), order + [p];
    DistinctGrows(order, [p]);
    forall i | 0 <= i < |all|
      ensures all[i] in t.info && t.info[all[i]].pid == i % TWO64
    {
      assert i < |order| ==> all[i] == order[i] && order[i] in order;
    }
    NextNumber(|order|);
  }

  lemma NextNumber(n: nat)
    ensures (n % TWO64 + 1) % TWO64 == (n + 1) % TWO64
  {
  }

  // In every run the numbers of all processes ever created are distinct if and only if there are
  // at most 2^64 of them, the idle process included.
  lemma {:induction false} NumbersDistinctIff<P>(idle: P, policy: nat, es: seq<Event<P>>)
    ensures Settled(Init(idle, policy))
    ensures var info := Run(Init(idle, policy), es).info;
            (forall p, q :: p in info && q in info && p != q ==> info[p].pid != info[q].pid) <==> |info| <= TWO64
  {
    hide Settled, Run;
    InitSettled(idle, policy);
    InitNumbered(idle, policy);
    var order := RunNumbers(Init(idle, policy), [idle], es);
    var info := Run(Init(idle, policy), es).info;
    OrderSize(order, info.Keys);
    assert |info| == |info.Keys|;
    DistinctIff(info, order);
  }

  lemma {:induction false} DistinctIff<P>(info: map<P, Info>, order: seq<P>)
    requires Distinct(order) && forall p :: p in info ==> p in order
    requires forall i :: 0 <= i < |order| ==> order[i] in info && info[order[i]].pid == i % TWO64
    ensures (forall p, q :: p in info && q in info && p != q ==> info[p].pid != info[q].pid) <==> |order| <= TWO64
  {
    if |order| <= TWO64 {
      forall p, q | p in info && q in info && p != q
        ensures info[p].pid != info[q].pid
      {
        var i :| 0 <= i < |order| && order[i] == p;
        var j :| 0 <= j < |order| && order[j] == q;
        assert i % TWO64 == i && j % TWO64 == j;
      }
    } else {
      assert order[0] != order[TWO64] && info[order[0]].pid == info[order[TWO64]].pid;
    }
  }

  lemma {:induction false} OrderSize<P>(order: seq<P>, s: set<P>)
    requires Distinct(order) && forall p :: p in order <==> p in s
    ensures |order| == |s|
    decreases |order|
  {
    if order == [] {
      assert s == {};
    } else {
      var m := |order| - 1;
      LastOfDistinct(order);
      OrderSize(order[..m], s - {order[m]});
    }
  }

  // ---------------------------------------------------------------- parents

  // A round changes the parent of a process only when that parent finishes in it: its ready
  // children go to the idle process; the others, asleep or finished, keep its number.
  lemma {:induction false} RoundKeepsParents<P>(s: Sched<P>, act: Act, p: P)
    requires Settled(s) && p in s.info && s.idle in s.info
    ensures var t, d := Slice(s, act), Chosen(s);
            && p in t.info
            && t.info[p].ppid == if act == Return && d != s.idle && p in t.ready && s.info[p].ppid == s.info[d].pid
                                 then s.info[s.idle].pid else s.info[p].ppid
  {
    hide Tick, Dispatch, Behave, Settle, Chosen;
    RoundStages(s, act);
    var d := Dispatch(Tick(s));
    BehaveFamily(d, act);
    SettleFamily(Behave(d, act));
  }

  // No other event changes a parent.
  lemma {:induction false} OthersKeepParents<P>(s: Sched<P>, e: Event<P>, p: P)
    requires Settled(s) && p in s.info && !e.Round?
    ensures p in Step(s, e).info && Step(s, e).info[p].ppid == s.info[p].ppid
  {
    hide Due, NotDue, Without, Distinct, Plus;
  }

  // ---------------------------------------------------------------- the end

  lemma {:induction false} StaysFinished<P>(s: Sched<P>, e: Event<P>, p: P)
    requires Settled(s) && p in s.info && p != s.idle && s.info[p].status == Zombie
    ensures var t := Step(s, e);
            && t.idle == s.idle && p in t.info && t.info[p].status == Zombie && t.info[p].cpuTime == s.info[p].cpuTime
            && (e.Round? ==> t.current != p)
  {
    match e {
      case Round(act) => RoundPassesFinished(s, act, p);
      case BareTick => TickFamily(s);
      case NewProcess(_, _) =>
      case WakeUp(_) =>
    }
  }

  lemma {:induction false} RoundPassesFinished<P>(s: Sched<P>, act: Act, p: P)
    requires Settled(s) && p in s.info && p != s.idle && s.info[p].status == Zombie
    ensures var t := Slice(s, act);
            && t.idle == s.idle && p in t.info && t.info[p].status == Zombie && t.info[p].cpuTime == s.info[p].cpuTime
            && t.current != p
  {
    hide Tick, Dispatch, Behave, Settle, Chosen;
    TickFamily(s);
    RoundStages(s, act);
    var d := Dispatch(Tick(s));
    DispatchFamily(Tick(s));
    BehaveFamily(d, act);
    SettleFamily(Behave(d, act));
  }

  // A process that returns from its slice is finished, and once finished it is never dispatched
  // again, whatever happens.
  lemma {:induction false} NeverRunsAgain<P>(s: Sched<P>, es: seq<Event<P>>, p: P)
    requires Settled(s) && p in s.info && p != s.idle && s.info[p].status == Zombie
    ensures var t := Run(s, es);
            t.idle == s.idle && p in t.info && t.info[p].status == Zombie && t.info[p].cpuTime == s.info[p].cpuTime
    decreases |es|
  {
    hide Settled, Step;
    if es != [] {
      NeverRunsAgain(s, es[..|es| - 1], p);
      StaysFinished(Run(s, es[..|es| - 1]), es[|es| - 1], p);
    }
  }

  lemma {:induction false} ReturnFinishes<P>(s: Sched<P>, act: Act)
    requires Settled(s) && Chosen(s) != s.idle
    ensures var t := Slice(s, act);
            t.current == Chosen(s) && t.current in t.info && (t.info[t.current].status == Zombie <==> act == Return)
  {
    hide Tick, Dispatch, Behave, Settle, Chosen;
    RoundStages(s, act);
    var d := Dispatch(Tick(s));
    BehaveFamily(d, act);
    SettleFamily(Behave(d, act));
  }

  // ---------------------------------------------------------------- sleep and wake-up order

  // A wake-up puts a sleeper behind the ready processes and does nothing to any other process.
  lemma {:induction false} WakesLast<P>(s: Sched<P>, p: P)
    requires Settled(s)
    ensures Wake(s, p).ready == if p in s.sleeping then s.ready + [p] else s.ready
    ensures p !in s.sleeping ==> Wake(s, p) == s || p == s.idle
  {
  }

  // The last to go to sleep stands first on the sleep list, so of those due at the same tick it
  // becomes ready first.
  lemma {:induction false} SleepsFirst<P>(s: Sched<P>, n: u64)
    requires Settled(s) && Chosen(s) != s.idle
    ensures Slice(s, Sleep(n)).sleeping == [Chosen(s)] + Tick(s).sleeping
  {
    hide Tick, Dispatch, Behave, Settle, Chosen;
    TickFamily(s);
    RoundStages(s, Sleep(n));
    var d := Dispatch(Tick(s));
    DispatchFamily(Tick(s));
    BehaveFamily(d, Sleep(n));
    SettleFamily(Behave(d, Sleep(n)));
  }
}

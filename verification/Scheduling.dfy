/**
 The hosted scheduler as values: which process is where after any run, and who gets the processor.
 Processes are names of an arbitrary type `P`.
 */
module Scheduling {
  import opened Bytes
  import opened Common

  const TWO64: nat := 0x1_0000_0000_0000_0000
  type u64 = x: int | 0 <= x < TWO64

  function Plus(a: u64, b: u64): (c: u64) { (a + b) % TWO64 }

  datatype Status = Ready | Running | Sleeping | Zombie

  datatype Info = Info(pid: u64, ppid: u64, status: Status, priority: byte, cpuTime: u64, wakeTick: u64)

  datatype Sched<P(==)> = Sched(
    idle: P, policy: nat, current: P, ready: seq<P>, sleeping: seq<P>, info: map<P, Info>, nextPid: u64,
    ticks: u64, switches: u64, idleTime: u64, work: u64, created: u64)

  const PRIORITY: nat := 1     // scheduling_policy: by priority; anything else is round robin

  // ---------------------------------------------------------------- lists

  function Without<P(==)>(q: seq<P>, p: P): (r: seq<P>) {
    if q == [] then [] else if q[0] == p then q[1..] else [q[0]] + Without(q[1..], p)
  }

  // Cutting out the one place where it is.
  lemma {:induction false} WithoutAt<P>(q: seq<P>, k: nat)
    requires k < |q| && forall i :: 0 <= i < k ==> q[i] != q[k]
    ensures Without(q, q[k]) == q[..k] + q[k + 1..]
    decreases |q|
  {
    if k > 0 {
      WithoutAt(q[1..], k - 1);
    }
  }

  lemma {:induction false} WithoutAbsent<P>(q: seq<P>, p: P)
    requires p !in q
    ensures Without(q, p) == q
    decreases |q|
  {
    if q != [] {
      WithoutAbsent(q[1..], p);
    }
  }

  lemma {:induction false} WithoutKeeps<P>(q: seq<P>, p: P)
    requires Distinct(q)
    ensures Distinct(Without(q, p))
    ensures forall x :: x in Without(q, p) ==> x in q && x != p
    ensures forall x :: x in q && x != p ==> x in Without(q, p)
    decreases |q|
  {
    if k :| 0 <= k < |q| && q[k] == p {
      WithoutAt(q, k);
      var r := Without(q, p);
      forall x | x in q && x != p
        ensures x in r
      {
        var i :| 0 <= i < |q| && q[i] == x;
        assert r[if i < k then i else i - 1] == x;
      }
    } else {
      WithoutAbsent(q, p);
    }
  }

  // The sleepers whose time has come, and the others, in list order.
  function Due<P(==)>(info: map<P, Info>, now: u64, q: seq<P>): (r: seq<P>)
    requires forall p :: p in q ==> p in info
  {
    if q == [] then [] else
    var rest := Due(info, now, q[..|q| - 1]);
    if info[q[|q| - 1]].wakeTick <= now then rest + [q[|q| - 1]] else rest
  }

  function NotDue<P(==)>(info: map<P, Info>, now: u64, q: seq<P>): (r: seq<P>)
    requires forall p :: p in q ==> p in info
  {
    if q == [] then [] else
    var rest := NotDue(info, now, q[..|q| - 1]);
    if info[q[|q| - 1]].wakeTick <= now then rest else rest + [q[|q| - 1]]
  }

  lemma {:induction false} LastOfDistinct<P>(q: seq<P>)
    requires q != [] && Distinct(q)
    ensures var m := |q| - 1; q == q[..m] + [q[m]] && q[m] !in q[..m] && Distinct(q[..m])
  {
  }

  lemma {:induction false} DueSplits<P>(info: map<P, Info>, now: u64, q: seq<P>)
    requires forall p :: p in q ==> p in info
    requires Distinct(q)
    ensures forall p :: p in Due(info, now, q) ==> p in q && info[p].wakeTick <= now
    ensures forall p :: p in NotDue(info, now, q) ==> p in q && info[p].wakeTick > now
    ensures forall p :: p in q ==> p in if info[p].wakeTick <= now then Due(info, now, q) else NotDue(info, now, q)
    ensures Distinct(Due(info, now, q)) && Distinct(NotDue(info, now, q))
    decreases |q|
  {
    if q != [] {
      var m := |q| - 1;
      DueSplits(info, now, q[..m]);
      LastOfDistinct(q);
    }
  }

  // In `q`, `x` stands before `y`.
  ghost predicate Precedes<P>(q: seq<P>, x: P, y: P) {
    exists i, j :: 0 <= i < j < |q| && q[i] == x && q[j] == y
  }

  // The members of `r` come in the order of `q`.
  ghost predicate KeepsOrder<P>(q: seq<P>, r: seq<P>) {
    forall a, b :: 0 <= a < b < |r| ==> Precedes(q, r[a], r[b])
  }

  lemma {:induction false} OrderGrows<P>(q: seq<P>, r: seq<P>, x: P)
    requires KeepsOrder(q, r) && forall p :: p in r ==> p in q
    ensures KeepsOrder(q + [x], r) && KeepsOrder(q + [x], r + [x])
  {
    var q2, r2 := q + [x], r + [x];
    forall a, b | 0 <= a < b < |r2|
      ensures Precedes(q2, r2[a], r2[b])
    {
      if b < |r| {
        assert Precedes(q, r[a], r[b]);
        var i, j :| 0 <= i < j < |q| && q[i] == r[a] && q[j] == r[b];
        assert q2[i] == r2[a] && q2[j] == r2[b];
      } else {
        assert r[a] in q;
        var i :| 0 <= i < |q| && q[i] == r[a];
        assert q2[i] == r2[a] && q2[|q|] == r2[b];
      }
    }
    forall a, b | 0 <= a < b < |r|
      ensures Precedes(q2, r[a], r[b])
    {
      assert Precedes(q2, r2[a], r2[b]);
    }
  }

  // Both the sleepers that are due and the others keep the order of the sleep list.
  lemma {:induction false} DueKeepsOrder<P>(info: map<P, Info>, now: u64, q: seq<P>)
    requires forall p :: p in q ==> p in info
    requires Distinct(q)
    ensures KeepsOrder(q, Due(info, now, q)) && KeepsOrder(q, NotDue(info, now, q))
    decreases |q|
  {
    hide KeepsOrder;
    if q == [] {
      NoOrder(q);
    } else {
      var m := |q| - 1;
      LastOfDistinct(q);
      DueKeepsOrder(info, now, q[..m]);
      DueSplits(info, now, q[..m]);
      OrderGrows(q[..m], Due(info, now, q[..m]), q[m]);
      OrderGrows(q[..m], NotDue(info, now, q[..m]), q[m]);
    }
  }

  lemma NoOrder<P>(q: seq<P>)
    ensures KeepsOrder(q, [])
  {
  }

  // ---------------------------------------------------------------- one operation at a time

  ghost predicate SameCounts<P>(s: Sched<P>, t: Sched<P>) {
    t.ticks == s.ticks && t.switches == s.switches && t.idleTime == s.idleTime
    && t.current == s.current && t.idle == s.idle
  }

  ghost predicate Known<P>(s: Sched<P>) {
    && s.idle in s.info && s.current in s.info
    && (forall p :: p in s.ready ==> p in s.info)
    && (forall p :: p in s.sleeping ==> p in s.info)
  }

  // scheduler_add_process
  function Add<P(==)>(s: Sched<P>, p: P): (r: Sched<P>)
    requires p in s.info
  {
    if p == s.idle || p in s.ready then s
    else s.(ready := s.ready + [p], info := s.info[p := s.info[p].(status := Ready)])
  }

  // scheduler_yield
  function YieldNow<P(==)>(s: Sched<P>): (r: Sched<P>)
    requires s.current in s.info
  {
    if s.current == s.idle then s
    else Add(s.(info := s.info[s.current := s.info[s.current].(status := Ready)]), s.current)
  }

  // scheduler_sleep
  function SleepNow<P(==)>(s: Sched<P>, n: u64): (r: Sched<P>)
    requires s.current in s.info
  {
    if s.current == s.idle then s
    else s.(ready := Without(s.ready, s.current), sleeping := [s.current] + s.sleeping,
            info := s.info[s.current := s.info[s.current].(status := Sleeping, wakeTick := Plus(s.ticks, n))])
  }

  // scheduler_wakeup
  function Wake<P(==)>(s: Sched<P>, p: P): (r: Sched<P>)
    ensures SameCounts(s, r) && r.work == s.work
  {
    if p !in s.info || s.info[p].status != Sleeping then s
    else Add(s.(sleeping := Without(s.sleeping, p)), p)
  }

  function Woken<P(==)>(info: map<P, Info>, q: seq<P>): (r: map<P, Info>)
    ensures r.Keys == info.Keys
  {
    map p | p in info :: if p in q then info[p].(status := Ready) else info[p]
  }

  // scheduler_tick: exactly the sleepers whose time has come move, in sleep-list order
  function Tick<P(==)>(s: Sched<P>): (r: Sched<P>)
    requires forall p :: p in s.sleeping ==> p in s.info
  {
    var now := Plus(s.ticks, 1);
    var due := Due(s.info, now, s.sleeping);
    s.(ticks := now, ready := s.ready + due, sleeping := NotDue(s.info, now, s.sleeping), info := Woken(s.info, due))
  }

  // The process pick_next settles on under the priority policy: the first, among those of the
  // highest priority, with the least processor time.
  ghost predicate IsChoice<P>(info: map<P, Info>, q: seq<P>, k: nat)
    requires forall p :: p in q ==> p in info
  {
    && k < |q|
    && (forall j :: 0 <= j < |q| ==> info[q[j]].priority <= info[q[k]].priority)
    && (forall j :: 0 <= j < |q| && info[q[j]].priority == info[q[k]].priority ==>
          info[q[k]].cpuTime <= info[q[j]].cpuTime)
    && (forall j :: 0 <= j < k && info[q[j]].priority == info[q[k]].priority ==>
          info[q[k]].cpuTime < info[q[j]].cpuTime)
  }

  function Choice<P(==)>(info: map<P, Info>, q: seq<P>): (k: nat)
    requires q != [] && forall p :: p in q ==> p in info
    ensures IsChoice(info, q, k)
  {
    if |q| == 1 then 0 else
    var m := |q| - 1;
    assert q == q[..m] + [q[m]];
    var k := Choice(info, q[..m]);
    if info[q[m]].priority > info[q[k]].priority
       || (info[q[m]].priority == info[q[k]].priority && info[q[m]].cpuTime < info[q[k]].cpuTime) then m else k
  }

  lemma {:induction false} ChoiceIsUnique<P>(info: map<P, Info>, q: seq<P>, k: nat)
    requires q != [] && forall p :: p in q ==> p in info
    requires IsChoice(info, q, k)
    ensures k == Choice(info, q)
  {
    var c := Choice(info, q);
    assert info[q[c]].priority <= info[q[k]].priority && info[q[k]].priority <= info[q[c]].priority;
  }

  function PickIndex<P(==)>(s: Sched<P>): (k: nat)
    requires s.ready != [] && forall p :: p in s.ready ==> p in s.info
    ensures k < |s.ready|
  {
    if s.policy == PRIORITY then Choice(s.info, s.ready) else 0
  }

  // pick_next, with the result as the new current process
  function Pick<P(==)>(s: Sched<P>): (r: Sched<P>)
    requires s.idle in s.info && forall p :: p in s.ready ==> p in s.info
    ensures r.current in r.info
  {
    if s.ready == [] then s.(idleTime := Plus(s.idleTime, 1), current := s.idle)
    else
      var p := s.ready[PickIndex(s)];
      s.(ready := Without(s.ready, p), switches := Plus(s.switches, 1), current := p)
  }

  // pick_next and the hand-over in scheduler_run
  function Dispatch<P(==)>(s: Sched<P>): (r: Sched<P>)
    requires s.idle in s.info && forall p :: p in s.ready ==> p in s.info
    ensures r.current in r.info
  {
    var t := Pick(s);
    var i := t.info[t.current];
    t.(info := t.info[t.current := i.(status := Running, cpuTime := Plus(i.cpuTime, 1))])
  }

  // Ready children of the process with number `pid` go to the idle process.
  function Adopted<P(==)>(info: map<P, Info>, q: seq<P>, pid: u64, idlePid: u64): (r: map<P, Info>)
    ensures r.Keys == info.Keys
  {
    map p | p in info :: if p in q && info[p].ppid == pid then info[p].(ppid := idlePid) else info[p]
  }

  // process_exit
  function Exit<P(==)>(s: Sched<P>, p: P): (r: Sched<P>)
    requires p in s.info && s.idle in s.info
  {
    if p == s.idle then s else
    var left := Without(s.ready, p);
    s.(ready := left,
       info := Adopted(s.info[p := s.info[p].(status := Zombie)], left, s.info[p].pid, s.info[s.idle].pid))
  }

  // What the entry point does in its slice.
  datatype Act = Return | Yield | Sleep(ticks: u64)

  function Behave<P(==)>(s: Sched<P>, act: Act): (r: Sched<P>)
    requires s.current in s.info
    ensures SameCounts(s, r) && r.work == s.work
  {
    match act
    case Return => s
    case Yield => YieldNow(s)
    case Sleep(n) => SleepNow(s, n)
  }

  // The end of a slice: work is counted, and a process that neither yielded nor slept is done.
  function Settle<P(==)>(s: Sched<P>): (r: Sched<P>)
    requires s.current in s.info && s.idle in s.info
    ensures SameCounts(s, r) && r.work == if s.current == s.idle then s.work else Plus(s.work, 1)
  {
    if s.current == s.idle then s else
    var t := s.(work := Plus(s.work, 1));
    if t.info[t.current].status == Running then Exit(t, t.current) else t
  }

  // One round of scheduler_run
  ghost function Slice<P>(s: Sched<P>, act: Act): (r: Sched<P>)
    requires Known(s) && Distinct(s.sleeping)
  {
    TickKnown(s);
    Settle(Behave(Dispatch(Tick(s)), act))
  }

  lemma {:induction false} TickKnown<P>(s: Sched<P>)
    requires Known(s) && Distinct(s.sleeping)
    ensures Known(Tick(s))
  {
    hide Due, NotDue;
    var t := Tick(s);
    var due := Due(s.info, t.ticks, s.sleeping);
    DueSplits(s.info, t.ticks, s.sleeping);
    forall p | p in t.ready
      ensures p in t.info
    {
      assert p in s.ready || p in due;
    }
    forall p | p in t.sleeping
      ensures p in t.info
    {
      assert p in s.sleeping;
    }
  }

  // create_process with a record that memory was found for
  function Create<P(==)>(s: Sched<P>, p: P, priority: byte): (r: Sched<P>)
    requires s.current in s.info
    ensures SameCounts(s, r) && r.work == s.work
  {
    if p in s.info then s
    else
      var i := Info(s.nextPid, s.info[s.current].pid, Ready, priority, 0, 0);
      Add(s.(info := s.info[p := i], nextPid := Plus(s.nextPid, 1)), p).(created := Plus(s.created, 1))
  }

  // scheduler_init
  function Init<P(==)>(idle: P, policy: nat): (s: Sched<P>) {
    Sched(idle, policy, idle, [], [], map[idle := Info(0, 0, Ready, 0, 0, 0)], 1, 0, 0, 0, 0, 1)
  }
}

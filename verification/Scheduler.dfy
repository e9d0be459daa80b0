/**
 The hosted scheduler's records: a circular doubly linked ready queue and a singly linked sleep
 list, rewritten in place. Every operation refines the one on values.
 */
module Scheduler {
  import opened Bytes
  import opened Common
  import opened Scheduling
  import opened SchedulingTheorems
  import opened SchedulingFairness

  class Process {
    const pid: u64
    var ppid: u64
    var status: Status
    const priority: byte
    var cpuTime: u64
    var wakeTick: u64
    var next: Process?
    var prev: Process?
    var sleepNext: Process?

    constructor (pid: u64, ppid: u64, priority: byte)
      ensures View() == Info(pid, ppid, Ready, priority, 0, 0)
      ensures next == null && prev == null && sleepNext == null
    {
      this.pid, this.ppid, this.priority := pid, ppid, priority;
      status, cpuTime, wakeTick := Ready, 0, 0;
      next, prev, sleepNext := null, null, null;
    }

    ghost function View(): (i: Info)
      reads this`ppid, this`status, this`cpuTime, this`wakeTick
    {
      Info(pid, ppid, status, priority, cpuTime, wakeTick)
    }
  }

  function After(n: nat, i: nat): (j: nat)
    requires i < n
    ensures j < n
  {
    if i + 1 < n then i + 1 else 0
  }

  function Before(n: nat, i: nat): (j: nat)
    requires i < n
    ensures j < n
  {
    if i > 0 then i - 1 else n - 1
  }

  // The links of a circular list.
  ghost predicate Ring(head: Process?, q: seq<Process>)
    reads q`next, q`prev
  {
    && Distinct(q)
    && (if q == [] then head == null else head == q[0])
    && (forall i {:trigger q[i].next} :: 0 <= i < |q| ==> q[i].next == q[After(|q|, i)])
    && (forall i {:trigger q[i].prev} :: 0 <= i < |q| ==> q[i].prev == q[Before(|q|, i)])
  }

  // The ring `q` with its element `k` cut out: its neighbours point at each other.
  ghost predicate Bridged(q: seq<Process>, k: nat)
    requires k < |q|
    reads q`next, q`prev
  {
    && (forall i {:trigger q[i].next} :: 0 <= i < |q| && i != k ==>
          q[i].next == q[if i == Before(|q|, k) then After(|q|, k) else After(|q|, i)])
    && (forall i {:trigger q[i].prev} :: 0 <= i < |q| && i != k ==>
          q[i].prev == q[if i == After(|q|, k) then Before(|q|, k) else Before(|q|, i)])
  }

  lemma {:induction false} BridgedIsRing(head: Process?, q: seq<Process>, k: nat)
    requires k < |q| && Distinct(q) && Bridged(q, k)
    requires if |q| == 1 then head == null else head == if k == 0 then q[1] else q[0]
    ensures Ring(head, q[..k] + q[k + 1..])
  {
    var r := q[..k] + q[k + 1..];
    forall i | 0 <= i < |r|
      ensures r[i].next == r[After(|r|, i)] && r[i].prev == r[Before(|r|, i)]
    {
      CutNeighbours(q, k, i);
    }
  }

  lemma {:induction false} CutNeighbours(q: seq<Process>, k: nat, i: nat)
    requires k < |q| && i + 1 < |q| && Bridged(q, k)
    ensures var r := q[..k] + q[k + 1..]; r[i].next == r[After(|r|, i)] && r[i].prev == r[Before(|r|, i)]
  {
    var r, n, a := q[..k] + q[k + 1..], |q|, if i < k then i else i + 1;
    assert r[i] == q[a];
    assert q[a].next == q[if a == Before(n, k) then After(n, k) else After(n, a)];
    assert q[a].prev == q[if a == After(n, k) then Before(n, k) else Before(n, a)];
    assert r[After(n - 1, i)] == q[if After(n - 1, i) < k then After(n - 1, i) else After(n - 1, i) + 1];
    assert r[Before(n - 1, i)] == q[if Before(n - 1, i) < k then Before(n - 1, i) else Before(n - 1, i) + 1];
  }

  // The ring `q` with `p` linked in at the end.
  ghost predicate Appended(q: seq<Process>, p: Process)
    reads q`next, q`prev, p`next, p`prev
  {
    var n := |q|;
    && p.next == (if n == 0 then p else q[0]) && p.prev == (if n == 0 then p else q[n - 1])
    && (forall i {:trigger q[i].next} :: 0 <= i < n ==> q[i].next == if i + 1 < n then q[i + 1] else p)
    && (forall i {:trigger q[i].prev} :: 0 <= i < n ==> q[i].prev == if i > 0 then q[i - 1] else p)
  }

  lemma {:induction false} AppendedIsRing(head: Process?, q: seq<Process>, p: Process)
    requires Distinct(q) && p !in q && Appended(q, p) && head == if q == [] then p else q[0]
    ensures Ring(head, q + [p])
  {
    var r := q + [p];
    forall i | 0 <= i < |r|
      ensures r[i].next == r[After(|r|, i)] && r[i].prev == r[Before(|r|, i)]
    {
      if i < |q| {
        assert q[i].next == if i + 1 < |q| then q[i + 1] else p;
        assert q[i].prev == if i > 0 then q[i - 1] else p;
      }
    }
  }

  // The links of the sleep list.
  ghost predicate Chain(head: Process?, q: seq<Process>)
    reads q`sleepNext
  {
    && Distinct(q)
    && (if q == [] then head == null else head == q[0])
    && forall i {:trigger q[i].sleepNext} :: 0 <= i < |q| ==> q[i].sleepNext == if i + 1 < |q| then q[i + 1] else null
  }

  lemma {:induction false} Pushed(head: Process?, q: seq<Process>, p: Process)
    requires Chain(head, q) && p !in q && p.sleepNext == head
    ensures Chain(p, [p] + q)
  {
    var r := [p] + q;
    forall i | 0 <= i < |r|
      ensures r[i].sleepNext == if i + 1 < |r| then r[i + 1] else null
    {
      if i > 0 {
        assert q[i - 1].sleepNext == if i < |q| then q[i] else null;
      }
    }
  }

  // The chain `q` with its element `k` skipped.
  ghost predicate Skipped(q: seq<Process>, k: nat)
    reads q`sleepNext
  {
    forall i {:trigger q[i].sleepNext} :: 0 <= i < |q| && i != k ==>
      q[i].sleepNext ==
        if i + 1 == k then (if k + 1 < |q| then q[k + 1] else null) else if i + 1 < |q| then q[i + 1] else null
  }

  lemma {:induction false} SkippedIsChain(head: Process?, q: seq<Process>, k: nat)
    requires k < |q| && Distinct(q) && Skipped(q, k)
    requires head == if k > 0 then q[0] else if |q| > 1 then q[1] else null
    ensures Chain(head, q[..k] + q[k + 1..])
  {
    var r := q[..k] + q[k + 1..];
    forall i | 0 <= i < |r|
      ensures r[i].sleepNext == if i + 1 < |r| then r[i + 1] else null
    {
      var a := if i < k then i else i + 1;
      assert r[i] == q[a];
      assert q[a].sleepNext ==
               if a + 1 == k then (if k + 1 < |q| then q[k + 1] else null) else if a + 1 < |q| then q[a + 1] else null;
    }
  }

  class Scheduler {
    const idle: Process
    var policy: nat
    var current: Process
    var readyQueue: Process?
    var sleepQueue: Process?
    var nextPid: u64
    var ticks: u64
    var switches: u64
    var idleTime: u64
    var work: u64
    var created: u64
    ghost var ready: seq<Process>
    ghost var sleeping: seq<Process>
    ghost var procs: set<Process>

    // scheduler_init
    constructor (policy: nat)
      ensures Valid() && State() == Init(idle, policy) && fresh(procs)
    {
      var p := new Process(0, 0, 0);
      idle, current, this.policy := p, p, policy;
      readyQueue, sleepQueue, nextPid := null, null, 1;
      ticks, switches, idleTime, work, created := 0, 0, 0, 0, 1;
      ready, sleeping, procs := [], [], {p};
    }

    ghost function Views(): (m: map<Process, Info>)
      reads this`procs, procs`ppid, procs`status, procs`cpuTime, procs`wakeTick
    {
      map p | p in procs :: p.View()
    }

    lemma InView(p: Process)
      requires p in procs
      ensures p in Views() && Views()[p] == p.View()
    {
    }

    // A change to one record is a change to one entry of the view.
    twostate lemma OneView(p: Process)
      requires procs == old(procs) && p in procs && forall q :: q in procs && q != p ==> q.View() == old(q.View())
      ensures Views() == old(Views())[p := p.View()]
    {
    }

    ghost function State(): (s: Sched<Process>)
      reads this, procs
    {
      Sched(idle, policy, current, ready, sleeping, Views(), nextPid, ticks, switches, idleTime, work, created)
    }

    ghost predicate Links()
      reads this`ready, this`sleeping, this`procs, this`readyQueue, this`sleepQueue
      reads procs`next, procs`prev, procs`sleepNext
    {
      && (forall p :: p in ready ==> p in procs) && (forall p :: p in sleeping ==> p in procs)
      && Ring(readyQueue, ready) && Chain(sleepQueue, sleeping)
    }

    ghost predicate Valid()
      reads this, procs
    {
      Links() && Settled(State())
    }

    // ready_insert_tail
    method InsertTail(p: Process)
      requires Ring(readyQueue, ready) && p !in ready
      modifies this`readyQueue, this`ready, ready`next, ready`prev, p`next, p`prev
      ensures Ring(readyQueue, ready) && ready == old(ready) + [p]
    {
      ghost var q := ready;
      ready := ready + [p];
      if readyQueue == null {
        p.next := p;
        p.prev := p;
        readyQueue := p;
        AppendedIsRing(readyQueue, q, p);
        return;
      }
      var tail := readyQueue.prev;
      p.next := readyQueue;
      p.prev := tail;
      tail.next := p;
      readyQueue.prev := p;
      assert Appended(q, p);
      AppendedIsRing(readyQueue, q, p);
    }

    // in_ready_queue
    method InReadyQueue(p: Process) returns (found: bool)
      requires Ring(readyQueue, ready)
      ensures found <==> p in ready
    {
      if readyQueue == null {
        return false;
      }
      var cursor: Process := readyQueue;
      ghost var i := 0;
      while true
        invariant 0 <= i < |ready| && cursor == ready[i] && p !in ready[..i]
        decreases |ready| - i
      {
        if cursor == p {
          return true;
        }
        assert ready[..i + 1] == ready[..i] + [ready[i]];
        cursor := cursor.next;
        if cursor == readyQueue {
          assert i + 1 == |ready|;
          assert ready[..i + 1] == ready;
          return false;
        }
        i := i + 1;
      }
    }

    // The relinking in ready_unlink, for the element at place `k`.
    method Detach(p: Process, ghost k: nat)
      requires Ring(readyQueue, ready) && k < |ready| && ready[k] == p
      modifies this`readyQueue, this`ready, ready`next, ready`prev
      ensures Ring(readyQueue, ready) && ready == old(ready)[..k] + old(ready)[k + 1..]
    {
      ghost var q := ready;
      assert p.next == q[After(|q|, k)] && p.prev == q[Before(|q|, k)];
      ready := ready[..k] + ready[k + 1..];
      if p.next == p {
        readyQueue := null;
      } else {
        Bypass(p, q, k);
        if readyQueue == p {
          readyQueue := p.next;
        }
      }
      p.next := null;
      p.prev := null;
      BridgedIsRing(readyQueue, q, k);
    }

    // Its neighbours link to each other.
    method Bypass(p: Process, ghost q: seq<Process>, ghost k: nat)
      requires 1 < |q| && Ring(q[0], q) && k < |q| && q[k] == p
      modifies q`next, q`prev
      ensures Bridged(q, k) && p.next == old(p.next) && p.prev == old(p.prev)
    {
      assert p.next == q[After(|q|, k)] && p.prev == q[Before(|q|, k)];
      p.prev.next := p.next;
      p.next.prev := p.prev;
    }

    // ready_unlink
    method Unlink(p: Process)
      requires Ring(readyQueue, ready)
      modifies this`readyQueue, this`ready, ready`next, ready`prev
      ensures Ring(readyQueue, ready) && ready == Without(old(ready), p)
    {
      var found := InReadyQueue(p);
      if !found {
        WithoutAbsent(ready, p);
        return;
      }
      ghost var k :| 0 <= k < |ready| && ready[k] == p;
      WithoutAt(ready, k);
      Detach(p, k);
    }

    method TakeOut(p: Process)
      requires Links()
      modifies this`readyQueue, this`ready, procs`next, procs`prev
      ensures Links() && Views() == old(Views()) && ready == Without(old(ready), p)
    {
      hide Chain;
      WithoutKeeps(ready, p);
      Unlink(p);
    }

    // scheduler_remove_process
    method Remove(p: Process)
      requires Links()
      modifies this`readyQueue, this`ready, procs`next, procs`prev
      ensures Links() && Views() == old(Views()) && ready == if p == idle then old(ready) else Without(old(ready), p)
    {
      if p != idle {
        TakeOut(p);
      }
    }

    // The end of scheduler_add_process: ready, and last in the queue.
    method Enqueue(p: Process)
      requires Links() && p in procs && p !in ready
      modifies this`readyQueue, this`ready, procs`next, procs`prev, p`status
      ensures Links() && ready == old(ready) + [p]
      ensures Views() == old(Views())[p := old(Views()[p]).(status := Ready)]
    {
      hide Ring, Chain;
      p.status := Ready;
      InsertTail(p);
      OneView(p);
    }

    // scheduler_add_process
    method AddProcess(p: Process)
      requires Links() && p in procs
      modifies this`readyQueue, this`ready, procs`next, procs`prev, p`status
      ensures Links() && State() == Add(old(State()), p)
    {
      hide Ring, Chain, Views;
      InView(p);
      var queued := InReadyQueue(p);
      if p != idle && !queued {
        Enqueue(p);
      }
    }

    // scheduler_yield
    method YieldCurrent()
      requires Links() && current in procs
      modifies this`readyQueue, this`ready, procs`next, procs`prev, current`status
      ensures Links() && State() == YieldNow(old(State()))
    {
      if current == idle {
        return;
      }
      current.status := Ready;
      OneView(current);
      AddProcess(current);
    }

    // The current process goes to the front of the sleep list.
    method Doze(n: u64)
      requires Links() && current in procs && current !in sleeping
      modifies this`sleepQueue, this`sleeping, current`status, current`wakeTick, current`sleepNext
      ensures Links() && sleeping == [current] + old(sleeping)
      ensures Views() == old(Views())[current := old(Views()[current]).(status := Sleeping, wakeTick := Plus(ticks, n))]
    {
      hide Ring, Chain, Plus;
      ghost var head := sleepQueue;
      current.status := Sleeping;
      current.wakeTick := Plus(ticks, n);
      current.sleepNext := sleepQueue;
      sleepQueue := current;
      Pushed(head, sleeping, current);
      sleeping := [current] + sleeping;
      OneView(current);
    }

    // scheduler_sleep
    method SleepCurrent(n: u64)
      requires Links() && current in procs && current !in sleeping
      modifies this`readyQueue, this`ready, this`sleepQueue, this`sleeping, procs`next, procs`prev
      modifies current`status, current`wakeTick, current`sleepNext
      ensures Links() && State() == SleepNow(old(State()), n)
    {
      hide Links, Plus, Without, Views;
      InView(current);
      if current != idle {
        Remove(current);
        Doze(n);
      }
    }

    // The walk along the sleep list in scheduler_wakeup; `pred` stands for the place the cursor
    // points into, null for the head of the list.
    method Unchain(p: Process)
      requires Chain(sleepQueue, sleeping)
      modifies this`sleepQueue, this`sleeping, sleeping`sleepNext
      ensures Chain(sleepQueue, sleeping) && sleeping == Without(old(sleeping), p)
    {
      var pred: Process?, at := null, sleepQueue;
      ghost var q, i := sleeping, 0;
      while at != null && at != p
        invariant 0 <= i <= |q| && at == (if i < |q| then q[i] else null)
        invariant pred == (if i > 0 then q[i - 1] else null) && p !in q[..i]
        decreases |q| - i
      {
        assert q[..i + 1] == q[..i] + [q[i]];
        pred, at := at, at.sleepNext;
        i := i + 1;
      }
      if at == p {
        WithoutAt(q, i);
        sleeping := q[..i] + q[i + 1..];
        if pred == null {
          sleepQueue := p.sleepNext;
        } else {
          pred.sleepNext := p.sleepNext;
        }
        SkippedIsChain(sleepQueue, q, i);
      } else {
        assert q[..i] == q;
        WithoutAbsent(q, p);
      }
    }

    // scheduler_wakeup
    method WakeProcess(p: Process)
      requires Links() && p in procs
      modifies this`readyQueue, this`ready, this`sleepQueue, this`sleeping, procs`next, procs`prev, procs`sleepNext,
               p`status
      ensures Links() && State() == Wake(old(State()), p)
    {
      hide Ring, Chain, Views, Without;
      InView(p);
      if p.status == Sleeping {
        Unlist(p);
        AddProcess(p);
      }
    }

    method Unlist(p: Process)
      requires Links() && p in procs
      modifies this`sleepQueue, this`sleeping, procs`sleepNext
      ensures Links() && sleeping == Without(old(sleeping), p)
    {
      hide Ring, Without;
      WithoutKeeps(sleeping, p);
      Unchain(p);
      assert forall q :: q in sleeping ==> q in procs && q != p;
      p.sleepNext := null;
    }

    // The sleeper after number `k`.
    lemma {:induction false} NextSleeper(s: Sched<Process>, k: nat)
      requires Links() && Consistent(s) && k < |s.sleeping| && State() == Sorted(s, k)
      ensures var p := s.sleeping[k];
              p in procs && p.sleepNext == (if k + 1 < |s.sleeping| then s.sleeping[k + 1] else null)
              && p.wakeTick == s.info[p].wakeTick
    {
      hide Ring, Due, NotDue;
      InSleepers(s, k);
      var rest := NotDue(s.info, s.ticks, s.sleeping[..k]);
      assert sleeping[|rest|] == s.sleeping[k];
      assert sleeping[|rest|].sleepNext == if |rest| + 1 < |sleeping| then sleeping[|rest| + 1] else null;
      InView(s.sleeping[k]);
    }

    lemma FirstSleeper()
      requires Links()
      ensures sleepQueue == if sleeping == [] then null else sleeping[0]
    {
    }

    // The walk along the sleep list in scheduler_tick.
    method WakeSleepers(ghost s: Sched<Process>)
      requires Links() && Consistent(s) && s == State()
      modifies this`readyQueue, this`ready, this`sleepQueue, this`sleeping
      modifies procs`next, procs`prev, procs`sleepNext, procs`status
      ensures Links() && State() == Sorted(s, |s.sleeping|)
    {
      hide Links, Sorted, Wake, Consistent, Views;
      SortedEnds(s);
      FirstSleeper();
      var sleep := sleepQueue;
      ghost var k := 0;
      while sleep != null
        invariant 0 <= k <= |s.sleeping| && sleep == (if k < |s.sleeping| then s.sleeping[k] else null)
        invariant Links() && State() == Sorted(s, k)
        decreases |s.sleeping| - k
      {
        NextSleeper(s, k);
        SortsOn(s, k);
        var next := sleep.sleepNext;
        if sleep.wakeTick <= ticks {
          WakeProcess(sleep);
        }
        sleep := next;
        k := k + 1;
      }
    }

    // scheduler_tick
    method TickNow()
      requires Links() && Consistent(State())
      modifies this`ticks, this`readyQueue, this`ready, this`sleepQueue, this`sleeping
      modifies procs`next, procs`prev, procs`sleepNext, procs`status
      ensures Links() && State() == Tick(old(State()))
    {
      hide Links, Plus, Due, NotDue, Sorted, Distinct;
      ticks := Plus(ticks, 1);
      ghost var s := State();
      SortedEnds(s);
      WakeSleepers(s);
    }

    // The first loop of pick_next: the highest priority in the ready queue.
    method BestPriority() returns (best: byte)
      requires Ring(readyQueue, ready) && ready != []
      ensures forall j :: 0 <= j < |ready| ==> ready[j].priority <= best
      ensures exists j :: 0 <= j < |ready| && ready[j].priority == best
    {
      best := 0;
      var cursor: Process := readyQueue;
      ghost var i := 0;
      while true
        invariant 0 <= i < |ready| && cursor == ready[i]
        invariant forall j :: 0 <= j < i ==> ready[j].priority <= best
        invariant best == 0 || exists j :: 0 <= j < i && ready[j].priority == best
        decreases |ready| - i
      {
        if cursor.priority > best {
          best := cursor.priority;
        }
        assert ready[i].priority <= best;
        cursor := cursor.next;
        if cursor == readyQueue {
          assert i + 1 == |ready|;
          assert best == 0 ==> ready[0].priority == best;
          return;
        }
        i := i + 1;
      }
    }

    // The second loop: the first of that priority with the least processor time.
    method LeastTime(best: byte) returns (selected: Process, ghost k: nat)
      requires Ring(readyQueue, ready) && ready != []
      requires exists j :: 0 <= j < |ready| && ready[j].priority == best
      ensures k < |ready| && selected == ready[k] && ready[k].priority == best
      ensures forall j :: 0 <= j < |ready| && ready[j].priority == best ==> ready[k].cpuTime <= ready[j].cpuTime
      ensures forall j :: 0 <= j < k && ready[j].priority == best ==> ready[k].cpuTime < ready[j].cpuTime
    {
      var found: Process? := null;
      var cursor: Process := readyQueue;
      ghost var i := 0;
      k := 0;
      while true
        invariant 0 <= i < |ready| && cursor == ready[i]
        invariant if found == null then forall j :: 0 <= j < i ==> ready[j].priority != best
                  else k < i && found == ready[k] && found.priority == best
        invariant found != null ==>
                    forall j :: 0 <= j < i && ready[j].priority == best ==> ready[k].cpuTime <= ready[j].cpuTime
        invariant found != null ==>
                    forall j :: 0 <= j < k && ready[j].priority == best ==> ready[k].cpuTime < ready[j].cpuTime
        decreases |ready| - i
      {
        if cursor.priority == best && (found == null || cursor.cpuTime < found.cpuTime) {
          found, k := cursor, i;
        }
        assert ready[i] == cursor;
        cursor := cursor.next;
        if cursor == readyQueue {
          assert i + 1 == |ready|;
          return found, k;
        }
        i := i + 1;
      }
    }

    // The choice in pick_next, by policy.
    method SelectNext() returns (p: Process)
      requires Links() && ready != []
      ensures p == ready[PickIndex(State())]
    {
      hide Chain, Choice;
      if policy == PRIORITY {
        var best := BestPriority();
        ghost var k;
        p, k := LeastTime(best);
        ChosenByPriority(best, k);
      } else {
        p := readyQueue;
      }
    }

    // pick_next
    method PickNext() returns (p: Process)
      requires Links() && idle in procs
      modifies this`readyQueue, this`ready, this`idleTime, this`switches, procs`next, procs`prev
      ensures Links() && p == Pick(old(State())).current && State() == Pick(old(State())).(current := current)
    {
      hide Links, Plus, Without, PickIndex;
      EmptyQueue();
      ReadyInView();
      if readyQueue == null {
        idleTime := Plus(idleTime, 1);
        p := idle;
      } else {
        p := TakeNext();
      }
    }

    // The end of pick_next: the choice leaves the ready queue.
    method TakeNext() returns (p: Process)
      requires Links() && ready != []
      modifies this`readyQueue, this`ready, this`switches, procs`next, procs`prev
      ensures Links() && Views() == old(Views()) && switches == Plus(old(switches), 1)
      ensures p == old(ready)[PickIndex(old(State()))] && ready == Without(old(ready), p)
    {
      hide Links, Plus, Without, PickIndex;
      p := SelectNext();
      TakeOut(p);
      switches := Plus(switches, 1);
    }

    lemma EmptyQueue()
      requires Links()
      ensures readyQueue == null <==> ready == []
    {
    }

    lemma {:induction false} ChosenByPriority(best: byte, k: nat)
      requires Links() && k < |ready| && ready[k].priority == best
      requires forall j :: 0 <= j < |ready| ==> ready[j].priority <= best
      requires forall j :: 0 <= j < |ready| && ready[j].priority == best ==> ready[k].cpuTime <= ready[j].cpuTime
      requires forall j :: 0 <= j < k && ready[j].priority == best ==> ready[k].cpuTime < ready[j].cpuTime
      ensures k == Choice(Views(), ready)
    {
      hide Ring, Chain, Choice;
      ChoiceIsUnique(Views(), ready, k);
    }

    // process_exit
    method ExitProcess(p: Process)
      requires Links() && p in procs && idle in procs
      modifies this`readyQueue, this`ready, procs`next, procs`prev, procs`ppid, p`status
      ensures Links() && State() == Exit(old(State()), p)
    {
      hide Links, Without, Adopted;
      InView(p);
      InView(idle);
      if p != idle {
        Remove(p);
        p.status := Zombie;
        OneView(p);
        Reparent(p.pid);
      }
    }

    // The loop in process_exit over the ready queue.
    method Reparent(pid: u64)
      requires Links() && idle in procs
      modifies procs`ppid
      ensures Links() && Views() == Adopted(old(Views()), ready, pid, idle.pid)
    {
      hide Chain, Adopted, Views;
      AdoptsNone(Views(), pid, idle.pid);
      if readyQueue == null {
        return;
      }
      var cursor: Process := readyQueue;
      ghost var i, v := 0, Views();
      assert ready[..0] == [];
      while true
        invariant 0 <= i < |ready| && cursor == ready[i]
        invariant Links() && Views() == Adopted(v, ready[..i], pid, idle.pid)
        decreases |ready| - i
      {
        InView(cursor);
        AdoptsOn(v, ready, i, pid, idle.pid);
        Adopt(cursor, pid);
        cursor := cursor.next;
        if cursor == readyQueue {
          assert i + 1 == |ready| && ready[..i + 1] == ready;
          return;
        }
        i := i + 1;
      }
    }

    method Adopt(p: Process, pid: u64)
      requires p in procs && idle in procs
      modifies p`ppid
      ensures Views() ==
                old(Views())[p := if old(p.ppid) == pid then old(p.View()).(ppid := idle.pid) else old(p.View())]
    {
      if p.ppid == pid {
        p.ppid := idle.pid;
      }
      OneView(p);
    }

    // The hand-over in scheduler_run.
    method DispatchNext()
      requires Links() && idle in procs
      modifies this`current, this`readyQueue, this`ready, this`idleTime, this`switches
      modifies procs`next, procs`prev, procs`status, procs`cpuTime
      ensures Links() && State() == Dispatch(old(State())) && current in procs
    {
      hide Links, Plus, Without, Choice, PickIndex;
      ReadyInView();
      var p := PickNext();
      current := p;
      StartCurrent();
    }

    lemma ReadyInView()
      requires Links()
      ensures forall p :: p in ready ==> p in Views()
    {
    }

    method StartCurrent()
      requires current in procs
      modifies current`status, current`cpuTime
      ensures Views() ==
                old(Views())[current := old(current.View()).(status := Running,
                                                             cpuTime := Plus(old(current.cpuTime), 1))]
    {
      hide Plus;
      current.status := Running;
      current.cpuTime := Plus(current.cpuTime, 1);
      OneView(current);
    }

    // What the entry point calls.
    method BehaveAs(act: Act)
      requires Links() && current in procs && current !in sleeping
      modifies this`readyQueue, this`ready, this`sleepQueue, this`sleeping, procs`next, procs`prev
      modifies current`status, current`wakeTick, current`sleepNext
      ensures Links() && State() == Behave(old(State()), act)
    {
      hide Links, YieldNow, SleepNow;
      InView(current);
      match act {
        case Return =>
        case Yield => YieldCurrent();
        case Sleep(n) => SleepCurrent(n);
      }
    }

    // The end of a round of scheduler_run.
    method SettleCurrent()
      requires Links() && current in procs && idle in procs
      modifies this`work, this`readyQueue, this`ready, procs`next, procs`prev, procs`ppid, current`status
      ensures Links() && State() == Settle(old(State()))
    {
      hide Links, Exit, Plus;
      InView(current);
      InView(idle);
      if current != idle {
        work := Plus(work, 1);
        if current.status == Running {
          ExitProcess(current);
        }
      }
    }

    // One round of scheduler_run
    method RunRound(act: Act)
      requires Valid()
      modifies this, procs
      ensures Valid() && procs == old(procs) && State() == Slice(old(State()), act)
    {
      hide Links, Tick, Dispatch, Behave, Settle, Settled, Consistent, Known, Views, Slice;
      ghost var s := State();
      RoundFacts(s, act);
      IdleIsOurs();
      TickNow();
      DispatchNext();
      BehaveAs(act);
      SettleCurrent();
    }

    lemma IdleIsOurs()
      requires Settled(State())
      ensures idle in procs && current in procs
    {
    }

    // scheduler_run, with what the entry point does in each round
    method RunTicks(acts: seq<Act>)
      requires Valid()
      modifies this, procs
      ensures Valid() && procs == old(procs) && State() == Run(old(State()), Rounds(acts))
    {
      hide Links, Settled, Slice, Run, Rounds;
      ghost var s := State();
      NoRounds(s);
      assert acts[..0] == [];
      for i := 0 to |acts|
        invariant Valid() && procs == old(procs) && State() == Run(s, Rounds(acts[..i]))
      {
        RunRound(acts[i]);
        assert acts[..i + 1][..i] == acts[..i];
        OneMoreRound(s, acts[..i + 1]);
      }
      assert acts[..|acts|] == acts;
    }

    // A new record with the next number, a child of the current process.
    method Register(priority: byte) returns (p: Process)
      requires Links() && current in procs
      modifies this`nextPid, this`procs
      ensures fresh(p) && procs == old(procs) + {p} && Links() && nextPid == Plus(old(nextPid), 1)
      ensures p !in old(Views())
      ensures Views() == old(Views())[p := Info(old(nextPid), current.pid, Ready, priority, 0, 0)]
    {
      hide Ring, Chain, Plus;
      p := new Process(nextPid, current.pid, priority);
      nextPid := Plus(nextPid, 1);
      procs := procs + {p};
    }

    // create_process; without memory for the record (or its stack) nothing changes
    method CreateProcess(priority: byte, memory: bool) returns (p: Process?)
      requires Valid()
      modifies this, procs
      ensures Valid() && (p == null <==> !memory)
      ensures p == null ==> State() == old(State()) && procs == old(procs)
      ensures p != null ==> fresh(p) && procs == old(procs) + {p} && State() == Create(old(State()), p, priority)
    {
      hide Links, Settled, Plus, Add, Views;
      p := null;
      if memory {
        ghost var s := State();
        IdleIsOurs();
        InView(current);
        var q := Register(priority);
        CreateSettles(s, q, priority);
        AddProcess(q);
        created := Plus(created, 1);
        p := q;
      }
    }
  }

  lemma {:induction false} RoundFacts<P>(s: Sched<P>, act: Act)
    requires Settled(s)
    ensures Consistent(s) && Known(Tick(s)) && Settled(Slice(s, act))
    ensures var d := Dispatch(Tick(s));
            d.current !in d.sleeping && d.idle in d.info && Slice(s, act) == Settle(Behave(d, act))
  {
    hide Tick, Dispatch, Behave, Settle, Distinct;
    SliceSettles(s, act);
    TickMovesTheDue(s);
    DispatchPlaces(Tick(s));
  }

  lemma NoRounds<P>(s: Sched<P>)
    requires Settled(s)
    ensures Run(s, Rounds([])) == s
  {
  }

  lemma AdoptsNone<P>(info: map<P, Info>, pid: u64, idlePid: u64)
    ensures Adopted(info, [], pid, idlePid) == info
  {
  }

  lemma {:induction false} AdoptsOn<P>(info: map<P, Info>, q: seq<P>, k: nat, pid: u64, idlePid: u64)
    requires k < |q| && q[k] in info && Distinct(q)
    ensures var w := Adopted(info, q[..k], pid, idlePid);
            var i := if w[q[k]].ppid == pid then w[q[k]].(ppid := idlePid) else w[q[k]];
            Adopted(info, q[..k + 1], pid, idlePid) == w[q[k] := i]
  {
    PrefixDistinct(q, k);
    assert q[..k + 1] == q[..k] + [q[k]];
  }

  // The state when scheduler_tick has seen `k` sleepers: those due are at the end of the ready
  // queue, the others still in the sleep list.
  ghost function Sorted(s: Sched<Process>, k: nat): (r: Sched<Process>)
    requires Consistent(s) && k <= |s.sleeping|
    ensures r.ticks == s.ticks
  {
    InSleepers(s, k);
    var due := Due(s.info, s.ticks, s.sleeping[..k]);
    s.(ready := s.ready + due, sleeping := NotDue(s.info, s.ticks, s.sleeping[..k]) + s.sleeping[k..],
       info := Woken(s.info, due))
  }

  lemma InSleepers(s: Sched<Process>, k: nat)
    requires Consistent(s) && k <= |s.sleeping|
    ensures forall p :: p in s.sleeping[..k] ==> p in s.info
  {
  }

  lemma {:induction false} SortedEnds(s: Sched<Process>)
    requires Consistent(s)
    ensures Sorted(s, 0) == s
    ensures var due := Due(s.info, s.ticks, s.sleeping);
            Sorted(s, |s.sleeping|) ==
            s.(ready := s.ready + due, sleeping := NotDue(s.info, s.ticks, s.sleeping), info := Woken(s.info, due))
  {
    assert s.sleeping[..0] == [] && s.sleeping[0..] == s.sleeping && s.ready + [] == s.ready;
    assert Woken(s.info, []) == s.info;
    assert s.sleeping[..|s.sleeping|] == s.sleeping && s.sleeping[|s.sleeping|..] == [];
  }

  // One more sleeper sorted.
  lemma {:induction false} SortsOn(s: Sched<Process>, k: nat)
    requires Consistent(s) && k < |s.sleeping|
    ensures var p := s.sleeping[k];
            Sorted(s, k + 1) == if s.info[p].wakeTick <= s.ticks then Wake(Sorted(s, k), p) else Sorted(s, k)
  {
    hide Without, Distinct, Plus;
    var p, q := s.sleeping[k], s.sleeping[..k];
    InSleepers(s, k);
    InSleepers(s, k + 1);
    var due, rest := Due(s.info, s.ticks, q), NotDue(s.info, s.ticks, q);
    assert s.sleeping[..k + 1] == q + [p] && (q + [p])[..k] == q;
    PrefixDistinct(s.sleeping, k);
    DueSplits(s.info, s.ticks, q);
    if s.info[p].wakeTick <= s.ticks {
      SleeperAt(rest, s.sleeping, k);
      assert Due(s.info, s.ticks, q + [p]) == due + [p] && NotDue(s.info, s.ticks, q + [p]) == rest;
      assert p !in s.ready + due;
      assert (s.ready + due) + [p] == s.ready + (due + [p]);
      WokenOn(s.info, due, p);
    } else {
      assert rest + s.sleeping[k..] == (rest + [p]) + s.sleeping[k + 1..];
    }
  }

  lemma {:induction false} PrefixDistinct<P>(q: seq<P>, k: nat)
    requires k < |q| && Distinct(q)
    ensures Distinct(q[..k]) && q[k] !in q[..k]
  {
  }

  lemma {:induction false} SleeperAt<P>(rest: seq<P>, q: seq<P>, k: nat)
    requires k < |q| && q[k] !in rest
    ensures Without(rest + q[k..], q[k]) == rest + q[k + 1..]
  {
    var list := rest + q[k..];
    assert list[|rest|] == q[k];
    WithoutAt(list, |rest|);
    assert list[..|rest|] + list[|rest| + 1..] == rest + q[k + 1..];
  }

  lemma {:induction false} WokenOn<P>(info: map<P, Info>, due: seq<P>, p: P)
    requires p in info
    ensures Woken(info, due + [p]) == Woken(info, due)[p := Woken(info, due)[p].(status := Ready)]
  {
  }
}

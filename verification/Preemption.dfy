/**
 The preemptive switcher: timer and device interrupts, process creation and preemption toggles in
 any order, and which saved context each switch resumes.
 */
module Preemption {
  import opened Bytes

  const TIME_SLICE: nat := 10
  const MAX_PROCS: nat := 4
  const STACK_SIZE: nat := 4096
  const FRAME_SIZE: nat := 68

  // ---------------------------------------------------------------- the switcher as a value

  datatype Proc = Proc(esp: u32, entry: u32, hasFrame: bool)

  datatype Switcher = Switcher(procs: seq<Proc>, current: nat, slice: nat, need: bool, preempt: bool,
                               ticks: u32, switches: u32)

  // The stacks lie one after the other from this address on.
  predicate StacksFit(stacks: u32) {
    0 < stacks && stacks + MAX_PROCS * STACK_SIZE < TWO32
  }

  // Where setup_frame puts the first frame of process `i`.
  function FirstEsp(stacks: u32, i: nat): (esp: u32)
    requires StacksFit(stacks) && i < MAX_PROCS
    ensures stacks + STACK_SIZE * i <= esp && esp + FRAME_SIZE <= stacks + STACK_SIZE * (i + 1)
    ensures esp > 0
  {
    (stacks + STACK_SIZE * (i + 1)) / 16 * 16 - FRAME_SIZE
  }

  // create_process_fs
  function Create(s: Switcher, stacks: u32, entry: u32, bootstrap: bool): (r: Switcher)
    requires StacksFit(stacks)
  {
    if |s.procs| >= MAX_PROCS then s
    else s.(procs := s.procs + [Proc(if bootstrap then 0 else FirstEsp(stacks, |s.procs|), entry, !bootstrap)])
  }

  // sched_fs_init
  function Init(stacks: u32): (s: Switcher)
    requires StacksFit(stacks)
  {
    Create(Switcher([], 0, TIME_SLICE, false, true, 0, 0), stacks, 0, true)
  }

  // sched_fs_on_tick
  function OnTick(s: Switcher): (r: Switcher) {
    var left := if s.slice > 0 then s.slice - 1 else s.slice;
    var t := s.(ticks := (s.ticks + 1) % TWO32, slice := left);
    if left == 0 && |s.procs| > 1 then t.(slice := TIME_SLICE, need := true) else t
  }

  predicate Switches(s: Switcher) {
    s.need && |s.procs| >= 2 && s.preempt
  }

  function Next(s: Switcher): (i: nat)
    requires s.procs != []
    ensures i < |s.procs|
  {
    (s.current + 1) % |s.procs|
  }

  // sched_fs_maybe_switch: the state and the stack pointer to continue on, 0 for the same one
  function MaybeSwitch(s: Switcher, esp: u32): (r: (Switcher, u32))
    requires s.current < |s.procs|
  {
    if !Switches(s) then (s, 0)
    else
      var procs := s.procs[s.current := s.procs[s.current].(esp := esp, hasFrame := true)];
      var t := s.(procs := procs, need := false, current := Next(s), switches := (s.switches + 1) % TWO32);
      (t, procs[Next(s)].esp)
  }

  // sched_fs_preempt_enable
  function PreemptEnable(s: Switcher, enable: bool): (r: Switcher) {
    if enable then s.(slice := TIME_SLICE, need := false, preempt := true) else s.(preempt := false)
  }

  // ---------------------------------------------------------------- runs

  // An interrupt arrives on the current context's stack pointer; a timer interrupt also ticks.
  datatype Event = Irq(timer: bool, esp: u32) | NewProcess(entry: u32) | Preempt(enable: bool)

  // What the processor does with contexts: a process is born with a first frame, suspended at a
  // stack pointer, resumed at one.
  datatype Move = Born(p: nat, esp: u32) | Suspended(p: nat, esp: u32) | Resumed(p: nat, esp: u32)

  datatype System = System(sw: Switcher, log: seq<Move>)

  function Interrupt(y: System, timer: bool, esp: u32): (r: System)
    requires y.sw.current < |y.sw.procs|
  {
    var s := if timer then OnTick(y.sw) else y.sw;
    var (t, continueAt) := MaybeSwitch(s, esp);
    if continueAt == 0 then System(t, y.log)
    else System(t, y.log + [Suspended(s.current, esp), Resumed(t.current, continueAt)])
  }

  function Step(stacks: u32, y: System, e: Event): (r: System)
    requires StacksFit(stacks) && y.sw.current < |y.sw.procs|
    ensures r.sw.current < |r.sw.procs|
  {
    match e
    case Irq(timer, esp) => Interrupt(y, timer, esp)
    case NewProcess(entry) =>
      var n := |y.sw.procs|;
      System(Create(y.sw, stacks, entry, false),
             if n >= MAX_PROCS then y.log else y.log + [Born(n, FirstEsp(stacks, n))])
    case Preempt(enable) => y.(sw := PreemptEnable(y.sw, enable))
  }

  function Run(stacks: u32, y: System, es: seq<Event>): (r: System)
    requires StacksFit(stacks) && y.sw.current < |y.sw.procs|
    ensures r.sw.current < |r.sw.procs|
  {
    if es == [] then y else Step(stacks, Run(stacks, y, es[..|es| - 1]), es[|es| - 1])
  }

  // Stack pointers at interrupts are real addresses.
  predicate Sane(es: seq<Event>) {
    forall i :: 0 <= i < |es| && es[i].Irq? ==> es[i].esp > 0
  }

  // ---------------------------------------------------------------- context integrity

  // The stack pointer process `p` was last left at: born or suspended there and not resumed since.
  function Parked(log: seq<Move>, p: nat): (esp: u32) {
    if log == [] then 0 else
    var m := log[|log| - 1];
    if m.p != p then Parked(log[..|log| - 1], p)
    else if m.Resumed? then 0 else m.esp
  }

  // Every resumption continues exactly where the process was last left.
  ghost predicate Faithful(log: seq<Move>) {
    forall k :: 0 <= k < |log| && log[k].Resumed? ==> log[k].esp > 0 && log[k].esp == Parked(log[..k], log[k].p)
  }

  // The records of all processes but the current one hold where they were left; a switch is
  // pending only while preemption is off.
  ghost predicate Kept(y: System) {
    && 1 <= |y.sw.procs| <= MAX_PROCS && y.sw.current < |y.sw.procs|
    && (forall p :: 0 <= p < |y.sw.procs| && p != y.sw.current ==>
          y.sw.procs[p].esp > 0 && y.sw.procs[p].hasFrame && y.sw.procs[p].esp == Parked(y.log, p))
    && Parked(y.log, y.sw.current) == 0
    && (forall p :: |y.sw.procs| <= p ==> Parked(y.log, p) == 0)
    && y.sw.slice <= TIME_SLICE && (y.sw.preempt ==> !y.sw.need)
    && Faithful(y.log)
  }

  lemma {:induction false} ParkedGrows(log: seq<Move>, m: Move, p: nat)
    ensures Parked(log + [m], p) == if m.p != p then Parked(log, p) else if m.Resumed? then 0 else m.esp
  {
    assert (log + [m])[..|log|] == log;
  }

  lemma {:induction false} FaithfulGrows(log: seq<Move>, m: Move)
    requires Faithful(log) && (m.Resumed? ==> m.esp > 0 && m.esp == Parked(log, m.p))
    ensures Faithful(log + [m])
  {
    var all := log + [m];
    forall k | 0 <= k < |all| && all[k].Resumed?
      ensures all[k].esp > 0 && all[k].esp == Parked(all[..k], all[k].p)
    {
      assert all[..k] == log[..k];
      if k == |log| { assert log[..k] == log; }
    }
  }

  lemma {:induction false} InterruptKeeps(y: System, timer: bool, esp: u32)
    requires Kept(y) && esp > 0
    ensures Kept(Interrupt(y, timer, esp))
  {
    hide Faithful, Parked;
    var s := if timer then OnTick(y.sw) else y.sw;
    if Switches(s) {
      var a, b := Suspended(s.current, esp), Resumed(Next(s), s.procs[Next(s)].esp);
      assert Next(s) != s.current;
      assert y.log + [a, b] == (y.log + [a]) + [b];
      forall p: nat
        ensures Parked(y.log + [a, b], p) ==
                  if p == Next(s) then 0 else if p == s.current then esp else Parked(y.log, p)
      {
        ParkedGrows(y.log, a, p);
        ParkedGrows(y.log + [a], b, p);
      }
      ParkedGrows(y.log, a, Next(s));
      FaithfulGrows(y.log, a);
      FaithfulGrows(y.log + [a], b);
    }
  }

  lemma {:induction false} CreateKeeps(stacks: u32, y: System, entry: u32)
    requires StacksFit(stacks) && Kept(y)
    ensures Kept(Step(stacks, y, NewProcess(entry)))
  {
    hide Faithful, Parked, FirstEsp;
    var n := |y.sw.procs|;
    if n < MAX_PROCS {
      var m := Born(n, FirstEsp(stacks, n));
      forall p: nat
        ensures Parked(y.log + [m], p) == if p == n then m.esp else Parked(y.log, p)
      {
        ParkedGrows(y.log, m, p);
      }
      FaithfulGrows(y.log, m);
    }
  }

  // Over any events, every switch resumes the next process in index order exactly where it was
  // last suspended, or at its first frame.
  lemma {:induction false} ContextIntegrity(stacks: u32, es: seq<Event>)
    requires StacksFit(stacks) && Sane(es)
    ensures Kept(Run(stacks, System(Init(stacks), []), es))
    decreases |es|
  {
    hide Interrupt, Kept, Create;
    var start := System(Init(stacks), []);
    StartKept(stacks);
    if es != [] {
      var m := |es| - 1;
      ContextIntegrity(stacks, es[..m]);
      var y := Run(stacks, start, es[..m]);
      match es[m] {
        case Irq(timer, esp) => InterruptKeeps(y, timer, esp);
        case NewProcess(entry) => CreateKeeps(stacks, y, entry);
        case Preempt(enable) => PreemptKeeps(y, enable);
      }
    }
  }

  lemma StartKept(stacks: u32)
    requires StacksFit(stacks)
    ensures Init(stacks).current < |Init(stacks).procs| && Kept(System(Init(stacks), []))
  {
  }

  lemma PreemptKeeps(y: System, enable: bool)
    requires Kept(y)
    ensures Kept(y.(sw := PreemptEnable(y.sw, enable)))
  {
  }

  // An interrupt switches exactly when one is due and preemption is on; then the process that
  // goes on is the next in index order, at the place on record.
  lemma {:induction false} SwitchesInOrder(y: System, timer: bool, esp: u32)
    requires Kept(y) && esp > 0
    ensures var s, r := if timer then OnTick(y.sw) else y.sw, Interrupt(y, timer, esp);
            if Switches(s) then
              && r.sw.current == (if y.sw.current + 1 == |y.sw.procs| then 0 else y.sw.current + 1)
              && r.log == y.log + [Suspended(y.sw.current, esp), Resumed(r.sw.current, Parked(y.log, r.sw.current))]
            else r.sw == s && r.log == y.log
    ensures !y.sw.preempt ==>
              Interrupt(y, timer, esp).sw.current == y.sw.current && Interrupt(y, timer, esp).log == y.log
  {
    hide Faithful, Parked;
    var s := if timer then OnTick(y.sw) else y.sw;
    if Switches(s) {
      var n, c := |y.sw.procs|, y.sw.current;
      assert (c + 1) % n == if c + 1 == n then 0 else c + 1;
    }
  }

  // ---------------------------------------------------------------- time sharing

  function Timers(es: seq<Event>): (n: nat) {
    if es == [] then 0 else Timers(es[..|es| - 1]) + if es[|es| - 1].Irq? && es[|es| - 1].timer then 1 else 0
  }

  lemma {:induction false} OneOn(c: nat, q: nat, n: nat)
    requires 2 <= n <= MAX_PROCS
    ensures ((c + q) % n + 1) % n == (c + (q + 1)) % n
  {
    var a, b := (c + q) / n, (c + q) % n;
    if n == 2 {
      assert c + q == 2 * a + b;
    } else if n == 3 {
      assert c + q == 3 * a + b;
    } else {
      assert n == 4 && c + q == 4 * a + b;
    }
  }

  // Ticks the running process still has: what is left of its slice, or one when that ran out
  // while it was alone.
  function FirstTurn(y: System): (n: nat) {
    if y.sw.slice == 0 then 1 else y.sw.slice
  }

  // Turns that have ended after `t` ticks.
  function Turns(first: nat, t: nat): (n: nat) {
    if t < first then 0 else 1 + (t - first) / TIME_SLICE
  }

  ghost predicate OnSchedule(y: System, r: System, t: nat) {
    var first := FirstTurn(y);
    && Kept(r) && |r.sw.procs| == |y.sw.procs| >= 2 && r.sw.preempt && !r.sw.need
    && r.sw.current == (y.sw.current + Turns(first, t)) % |y.sw.procs|
    && r.sw.slice == (if t == 0 then y.sw.slice
                      else if t < first then first - t else TIME_SLICE - (t - first) % TIME_SLICE)
    && r.sw.switches == (y.sw.switches + Turns(first, t)) % TWO32
  }

  lemma StartsOnSchedule(y: System)
    requires Kept(y) && |y.sw.procs| >= 2 && y.sw.preempt
    ensures OnSchedule(y, y, 0)
  {
  }

  lemma {:induction false} TurnTaken(y: System, r: System, timer: bool, esp: u32, t: nat)
    requires OnSchedule(y, r, t) && esp > 0
    ensures OnSchedule(y, Interrupt(r, timer, esp), if timer then t + 1 else t)
  {
    hide Kept;
    InterruptKeeps(r, timer, esp);
    KeptBounds(r);
    if timer {
      var first := FirstTurn(y);
      TurnsStep(first, t);
      OneOn(y.sw.current, Turns(first, t), |r.sw.procs|);
      WrapOne(y.sw.switches, Turns(first, t));
    }
  }

  // A turn ends when the slice that is left comes to its last tick.
  lemma TurnsStep(first: nat, t: nat)
    requires 0 < first
    ensures var last := if t < first then t + 1 == first else (t - first) % TIME_SLICE == 9;
            Turns(first, t + 1) == Turns(first, t) + if last then 1 else 0
  {
  }

  lemma KeptBounds(y: System)
    requires Kept(y)
    ensures 1 <= |y.sw.procs| <= MAX_PROCS && y.sw.current < |y.sw.procs|
    ensures |y.sw.procs| >= 2 ==> y.sw.procs[Next(y.sw)].esp > 0
  {
  }

  lemma WrapOne(w: int, q: int)
    ensures ((w + q) % TWO32 + 1) % TWO32 == (w + (q + 1)) % TWO32
  {
  }

  // From every state with two or more processes and preemption on, whatever other interrupts
  // come in between: the running process ends its turn, then each runs 10 ticks at a time in index
  // order, and every one comes round again after 10 ticks for each process.
  lemma {:induction false} TimeSharing(stacks: u32, y: System, es: seq<Event>)
    requires StacksFit(stacks) && Kept(y) && |y.sw.procs| >= 2 && y.sw.preempt
    requires Sane(es) && forall i :: 0 <= i < |es| ==> es[i].Irq?
    ensures OnSchedule(y, Run(stacks, y, es), Timers(es))
    decreases |es|
  {
    hide Kept, OnSchedule, Interrupt;
    KeptBounds(y);
    if es == [] {
      StartsOnSchedule(y);
    } else {
      var m := |es| - 1;
      TimeSharing(stacks, y, es[..m]);
      TurnTaken(y, Run(stacks, y, es[..m]), es[m].timer, es[m].esp, Timers(es[..m]));
    }
  }

  // Switching on starts a whole slice, whatever was left or pending: from then on, with two or more
  // processes, the turn passes at every tenth tick and at no other.
  lemma {:induction false} WholeSlices(stacks: u32, y: System, es: seq<Event>)
    requires StacksFit(stacks) && Kept(y) && |y.sw.procs| >= 2
    requires Sane(es) && forall i :: 0 <= i < |es| ==> es[i].Irq?
    ensures var r := Run(stacks, Step(stacks, y, Preempt(true)), es);
            && r.sw.current == (y.sw.current + Timers(es) / 10) % |y.sw.procs|
            && r.sw.switches == (y.sw.switches + Timers(es) / 10) % TWO32
  {
    hide Kept, Run, Turns;
    KeptBounds(y);
    PreemptKeeps(y, true);
    var z := Step(stacks, y, Preempt(true));
    TimeSharing(stacks, z, es);
    TenthTicks(Timers(es));
    assert FirstTurn(z) == 10;
  }

  lemma TenthTicks(t: nat)
    ensures Turns(10, t) == t / 10
  {
  }

  // ---------------------------------------------------------------- preemption off

  // Nothing but births is logged behind `log`.
  ghost predicate OnlyBirths(log: seq<Move>, more: seq<Move>) {
    log <= more && forall k :: |log| <= k < |more| ==> more[k].Born?
  }

  // Between switching preemption off and on again no run switches, however many ticks go by.
  lemma {:induction false} NoSwitchWhileOff(stacks: u32, y: System, es: seq<Event>)
    requires StacksFit(stacks) && Kept(y)
    requires forall i :: 0 <= i < |es| ==> es[i] != Preempt(true)
    ensures var r := Run(stacks, Step(stacks, y, Preempt(false)), es);
            !r.sw.preempt && r.sw.current == y.sw.current && OnlyBirths(y.log, r.log)
    decreases |es|
  {
    hide Kept, FirstEsp;
    KeptBounds(y);
    if es != [] {
      NoSwitchWhileOff(stacks, y, es[..|es| - 1]);
    }
  }

  // ---------------------------------------------------------------- entry points

  // The bootstrap process, and the processes in the order they were asked for.
  function Asked(es: seq<Event>): (r: seq<u32>) {
    if es == [] then [0]
    else Asked(es[..|es| - 1]) + if es[|es| - 1].NewProcess? then [es[|es| - 1].entry] else []
  }

  // The first four exist, each with its own entry point, whatever else happens.
  lemma {:induction false} EntriesKept(stacks: u32, es: seq<Event>)
    requires StacksFit(stacks)
    ensures var s := Run(stacks, System(Init(stacks), []), es).sw;
            && |s.procs| == (if |Asked(es)| < 4 then |Asked(es)| else 4)
            && forall p :: 0 <= p < |s.procs| ==> s.procs[p].entry == Asked(es)[p]
    decreases |es|
  {
    hide Interrupt, Create, Asked;
    FirstAsked(stacks);
    if es != [] {
      var m := |es| - 1;
      var y, e := Run(stacks, System(Init(stacks), []), es[..m]), es[m];
      EntriesKept(stacks, es[..m]);
      NextAsked(es);
      match e {
        case Irq(timer, esp) => InterruptKeepsEntries(y, timer, esp);
        case NewProcess(entry) => CreateKeepsEntries(y.sw, stacks, entry);
        case Preempt(_) =>
      }
    }
  }

  lemma FirstAsked(stacks: u32)
    requires StacksFit(stacks)
    ensures Init(stacks).current < |Init(stacks).procs| == 1 && Init(stacks).procs[0].entry == 0 && Asked([]) == [0]
  {
  }

  lemma NextAsked(es: seq<Event>)
    requires es != []
    ensures var m := |es| - 1;
            Asked(es) == Asked(es[..m]) + if es[m].NewProcess? then [es[m].entry] else []
  {
  }

  lemma InterruptKeepsEntries(y: System, timer: bool, esp: u32)
    requires y.sw.current < |y.sw.procs|
    ensures var r := Interrupt(y, timer, esp).sw;
            && |r.procs| == |y.sw.procs|
            && forall p :: 0 <= p < |r.procs| ==> r.procs[p].entry == y.sw.procs[p].entry
  {
  }

  lemma CreateKeepsEntries(s: Switcher, stacks: u32, entry: u32)
    requires StacksFit(stacks)
    ensures var r := Create(s, stacks, entry, false);
            && |r.procs| == (if |s.procs| >= 4 then |s.procs| else |s.procs| + 1)
            && (forall p :: 0 <= p < |s.procs| ==> r.procs[p] == s.procs[p])
            && (|s.procs| < 4 ==> r.procs[|s.procs|].entry == entry)
  {
    hide FirstEsp;
  }

  // ---------------------------------------------------------------- counters

  function Resumptions(log: seq<Move>): (n: nat) {
    if log == [] then 0 else Resumptions(log[..|log| - 1]) + if log[|log| - 1].Resumed? then 1 else 0
  }

  // The tick counter counts the timer interrupts, the switch counter the resumptions.
  lemma {:induction false} CountersCount(stacks: u32, es: seq<Event>)
    requires StacksFit(stacks) && Sane(es)
    ensures var r := Run(stacks, System(Init(stacks), []), es);
            r.sw.ticks == Timers(es) % TWO32 && r.sw.switches == Resumptions(r.log) % TWO32
    decreases |es|
  {
    hide Kept, Interrupt, Create, Resumptions;
    var start := System(Init(stacks), []);
    StartCounts(stacks);
    if es != [] {
      var m := |es| - 1;
      CountersCount(stacks, es[..m]);
      ContextIntegrity(stacks, es[..m]);
      var y := Run(stacks, start, es[..m]);
      KeptBounds(y);
      match es[m] {
        case Irq(timer, esp) => InterruptCounts(y, timer, esp, Timers(es[..m]));
        case NewProcess(entry) => CreateCounts(stacks, y, entry);
        case Preempt(_) =>
      }
    }
  }

  lemma StartCounts(stacks: u32)
    requires StacksFit(stacks)
    ensures Init(stacks).current < |Init(stacks).procs|
    ensures Init(stacks).ticks == 0 && Init(stacks).switches == 0 && Resumptions([]) == 0
  {
  }

  lemma {:induction false} CreateCounts(stacks: u32, y: System, entry: u32)
    requires StacksFit(stacks) && y.sw.current < |y.sw.procs|
    ensures var r := Step(stacks, y, NewProcess(entry));
            && r.sw.ticks == y.sw.ticks && r.sw.switches == y.sw.switches
            && Resumptions(r.log) == Resumptions(y.log)
  {
    hide FirstEsp;
    var n := |y.sw.procs|;
    if n < MAX_PROCS {
      ResumptionsGrow(y.log, Born(n, FirstEsp(stacks, n)));
    }
  }

  lemma ResumptionsGrow(log: seq<Move>, m: Move)
    ensures Resumptions(log + [m]) == Resumptions(log) + if m.Resumed? then 1 else 0
  {
    assert (log + [m])[..|log|] == log;
  }

  lemma {:induction false} InterruptCounts(y: System, timer: bool, esp: u32, t: nat)
    requires y.sw.current < |y.sw.procs| && (|y.sw.procs| >= 2 ==> y.sw.procs[Next(y.sw)].esp > 0)
    requires |y.sw.procs| <= MAX_PROCS
    requires y.sw.ticks == t % TWO32 && y.sw.switches == Resumptions(y.log) % TWO32
    ensures var r := Interrupt(y, timer, esp);
            && r.sw.ticks == (if timer then t + 1 else t) % TWO32
            && r.sw.switches == Resumptions(r.log) % TWO32
  {
    hide Resumptions;
    var s := if timer then OnTick(y.sw) else y.sw;
    WrapOne(0, t);
    WrapOne(0, Resumptions(y.log));
    if Switches(s) {
      var a, b := Suspended(s.current, esp), Resumed(Next(s), s.procs[Next(s)].esp);
      assert Next(s) != s.current;
      assert y.log + [a, b] == (y.log + [a]) + [b];
      ResumptionsGrow(y.log, a);
      ResumptionsGrow(y.log + [a], b);
    }
  }

  // ---------------------------------------------------------------- in place

  class Driver {
    const stacks: u32              // address of g_stacks
    const procs: array<Proc>       // g_procs
    var nprocs: nat
    var current: nat               // index of g_current
    var slice: nat
    var need: bool
    var preempt: bool
    var ticks: u32
    var switches: u32

    ghost predicate Valid()
      reads this
    {
      StacksFit(stacks) && procs.Length == MAX_PROCS && current < nprocs <= MAX_PROCS
    }

    ghost function State(): (s: Switcher)
      requires nprocs <= procs.Length
      reads this, procs
    {
      Switcher(procs[..nprocs], current, slice, need, preempt, ticks, switches)
    }

    // sched_fs_init
    constructor (stacks: u32)
      requires StacksFit(stacks)
      ensures Valid() && this.stacks == stacks && State() == Init(stacks) && fresh(procs)
    {
      this.stacks := stacks;
      nprocs, current, slice, need, preempt, ticks, switches := 1, 0, TIME_SLICE, false, true, 0, 0;
      procs := new Proc[MAX_PROCS](_ => Proc(0, 0, false));
    }

    // sched_fs_create_process: without a free record nothing changes
    method CreateProcess(entry: u32) returns (ok: bool)
      requires Valid()
      modifies this`nprocs, procs
      ensures Valid() && (ok <==> old(nprocs) < MAX_PROCS) && State() == Create(old(State()), stacks, entry, false)
    {
      if nprocs >= MAX_PROCS {
        return false;
      }
      var top := stacks + STACK_SIZE * (nprocs + 1);
      procs[nprocs] := Proc(top / 16 * 16 - FRAME_SIZE, entry, true);
      nprocs := nprocs + 1;
      return true;
    }

    // sched_fs_on_tick
    method Tick()
      requires Valid()
      modifies this`ticks, this`slice, this`need
      ensures Valid() && State() == OnTick(old(State()))
    {
      ticks := (ticks + 1) % TWO32;
      if slice > 0 {
        slice := slice - 1;
      }
      if slice == 0 && nprocs > 1 {
        slice := TIME_SLICE;
        need := true;
      }
    }

    // sched_fs_maybe_switch
    method Switch(esp: u32) returns (continueAt: u32)
      requires Valid()
      modifies this`need, this`current, this`switches, procs
      ensures Valid() && (State(), continueAt) == MaybeSwitch(old(State()), esp)
    {
      if !need || nprocs < 2 || !preempt {
        return 0;
      }
      need := false;
      procs[current] := procs[current].(esp := esp, hasFrame := true);
      current := (current + 1) % nprocs;
      switches := (switches + 1) % TWO32;
      return procs[current].esp;
    }

    // sched_fs_preempt_enable
    method SetPreempt(enable: bool)
      requires Valid()
      modifies this`slice, this`need, this`preempt
      ensures Valid() && State() == PreemptEnable(old(State()), enable)
    {
      if enable {
        slice := TIME_SLICE;
        need := false;
      }
      preempt := enable;
    }

    // The interrupt path: dispatch, then a possible switch; `log` is what the processor did.
    method Handle(timer: bool, esp: u32, ghost log: seq<Move>) returns (continueAt: u32, ghost log2: seq<Move>)
      requires Valid()
      modifies this`ticks, this`slice, this`need, this`current, this`switches, procs
      ensures Valid() && System(State(), log2) == Interrupt(System(old(State()), log), timer, esp)
    {
      if timer {
        Tick();
      }
      ghost var before := current;
      continueAt := Switch(esp);
      log2 := if continueAt == 0 then log else log + [Suspended(before, esp), Resumed(current, continueAt)];
    }
  }

  // ---------------------------------------------------------------- the first frame

  // gs, fs, es, ds; edi, esi, ebp, esp, ebx, edx, ecx, eax; int_no, err_code; eip, cs, eflags
  function FrameWords(entry: u32): (w: seq<u32>)
    ensures |w| == 17
  {
    [0x10, 0x10, 0x10, 0x10, 0, 0, 0, 0, 0, 0, 0, 0, 32, 0, entry, 0x08, 0x202]
  }

  // What the interrupt exit pops at `esp`: data segments, and where and how execution goes on.
  datatype Context = Context(gs: u32, fs: u32, es: u32, ds: u32, eip: u32, cs: u32, eflags: u32, after: nat)

  function Restored(mem: seq<byte>, esp: nat): (c: Context)
    requires esp + FRAME_SIZE <= |mem|
  {
    Context(Le32(mem, esp), Le32(mem, esp + 4), Le32(mem, esp + 8), Le32(mem, esp + 12),
            Le32(mem, esp + 56), Le32(mem, esp + 60), Le32(mem, esp + 64), esp + FRAME_SIZE)
  }

  // setup_frame for process `i`, on memory that starts at the stacks: the frame lies inside the
  // process's own stack and starts it at its entry point with interrupts enabled.
  method SetupFrame(mem: array<byte>, stacks: u32, i: nat, entry: u32) returns (esp: u32)
    requires StacksFit(stacks) && i < MAX_PROCS && mem.Length == MAX_PROCS * STACK_SIZE
    modifies mem
    ensures esp == FirstEsp(stacks, i) && esp >= stacks && esp - stacks + FRAME_SIZE <= mem.Length
    ensures Restored(mem[..], esp - stacks)
            == Context(0x10, 0x10, 0x10, 0x10, entry, 0x08, 0x202, esp - stacks + FRAME_SIZE)
    ensures (esp + FRAME_SIZE) % 16 == 0 && stacks + STACK_SIZE * (i + 1) - (esp + FRAME_SIZE) < 16
    ensures forall j :: 4 <= j < 12 ==> Le32(mem[..], esp - stacks + 4 * j) == 0
    ensures forall x :: 0 <= x < mem.Length && !(STACK_SIZE * i <= x < STACK_SIZE * (i + 1)) ==> mem[x] == old(mem[x])
  {
    hide Le32, FrameWords;
    var top := stacks + STACK_SIZE * (i + 1);
    esp := top / 16 * 16 - FRAME_SIZE;
    assert esp == FirstEsp(stacks, i);
    var words, o := FrameWords(entry), esp - stacks;
    for k := 0 to 17
      invariant forall x :: 0 <= x < mem.Length && !(o <= x < o + 4 * k) ==> mem[x] == old(mem[x])
      invariant forall j :: 0 <= j < k ==> Le32(mem[..], o + 4 * j) == words[j]
    {
      ghost var before := mem[..];
      StoreLe32(mem, o + 4 * k, words[k]);
      forall j | 0 <= j < k
        ensures Le32(mem[..], o + 4 * j) == words[j]
      {
        Le32Kept(before, mem[..], o + 4 * j);
      }
    }
    var got := mem[..];
    assert Le32(got, o + 4 * 0) == words[0] && Le32(got, o + 4 * 1) == words[1];
    assert Le32(got, o + 4 * 2) == words[2];
    assert Le32(got, o + 4 * 3) == words[3] && Le32(got, o + 4 * 14) == words[14];
    assert Le32(got, o + 4 * 15) == words[15] && Le32(got, o + 4 * 16) == words[16];
    FrameFields(entry);
    forall j | 4 <= j < 12
      ensures Le32(got, o + 4 * j) == 0
    {
      assert Le32(got, o + 4 * j) == words[j];
    }
  }

  lemma FrameFields(entry: u32)
    ensures var w := FrameWords(entry);
            && w[0] == w[1] == w[2] == w[3] == 0x10 && w[14] == entry && w[15] == 0x08 && w[16] == 0x202
            && forall j :: 4 <= j < 12 ==> w[j] == 0
  {
  }

  lemma Le32Kept(a: seq<byte>, b: seq<byte>, o: nat)
    requires |a| == |b| && o + 4 <= |a| && forall x :: o <= x < o + 4 ==> b[x] == a[x]
    ensures Le32(b, o) == Le32(a, o)
  {
  }

  method StoreLe32(mem: array<byte>, o: nat, w: u32)
    requires o + 4 <= mem.Length
    modifies mem
    ensures Le32(mem[..], o) == w
    ensures forall x :: 0 <= x < mem.Length && !(o <= x < o + 4) ==> mem[x] == old(mem[x])
  {
    hide Le32Bytes;
    var b := Le32Bytes(w);
    mem[o], mem[o + 1], mem[o + 2], mem[o + 3] := b[0], b[1], b[2], b[3];
  }
}

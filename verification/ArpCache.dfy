/**
 The ARP cache: eight slots with ages, refining a list in order of last use.
 */
module ArpCache {
  import opened Bytes
  import opened Common

  const SIZE: nat := 8

  type Mac = m: seq<byte> | |m| == 6 witness NO_MAC
  const NO_MAC: seq<byte> := [0, 0, 0, 0, 0, 0]

  // ---------------------------------------------------------------- the reference: a list, least recently used first

  datatype Known = Known(ip: u32, mac: Mac)

  function Find(l: seq<Known>, ip: u32): (i: nat)
    ensures i <= |l| && (i < |l| ==> l[i].ip == ip) && forall j :: 0 <= j < i ==> l[j].ip != ip
  {
    if l == [] then 0 else if l[0].ip == ip then 0 else 1 + Find(l[1..], ip)
  }

  function ToEnd(l: seq<Known>, i: nat, k: Known): (r: seq<Known>)
    requires i < |l|
  {
    l[..i] + l[i + 1..] + [k]
  }

  function LruLookup(l: seq<Known>, ip: u32): (r: seq<Known>) {
    var i := Find(l, ip);
    if i < |l| then ToEnd(l, i, l[i]) else l
  }

  function LruAdd(l: seq<Known>, ip: u32, mac: Mac): (r: seq<Known>) {
    var i := Find(l, ip);
    if i < |l| then ToEnd(l, i, Known(ip, mac))
    else if |l| < SIZE then l + [Known(ip, mac)]
    else l[1..] + [Known(ip, mac)]
  }

  ghost predicate DistinctIps(l: seq<Known>) {
    forall i, j :: 0 <= i < j < |l| ==> l[i].ip != l[j].ip
  }

  // ---------------------------------------------------------------- slots and ages

  datatype Entry = Entry(valid: bool, ip: u32, mac: Mac)

  datatype Cache = Cache(entries: seq<Entry>, ages: seq<u32>, counter: u32) {
    ghost predicate Formed() { |entries| == SIZE && |ages| == SIZE }
  }

  predicate Holds(c: Cache, i: nat, ip: u32)
    requires i < |c.entries|
  {
    c.entries[i].valid && c.entries[i].ip == ip
  }

  // The first slot from `i` on that holds `ip`, or `SIZE`.
  function SlotOf(c: Cache, ip: u32, i: nat): (s: nat)
    requires c.Formed() && i <= SIZE
    ensures i <= s <= SIZE && (s < SIZE ==> Holds(c, s, ip)) && forall j :: i <= j < s ==> !Holds(c, j, ip)
    decreases SIZE - i
  {
    if i == SIZE || Holds(c, i, ip) then i else SlotOf(c, ip, i + 1)
  }

  function FreeSlot(c: Cache, i: nat): (s: nat)
    requires c.Formed() && i <= SIZE
    ensures i <= s <= SIZE && (s < SIZE ==> !c.entries[s].valid) && forall j :: i <= j < s ==> c.entries[j].valid
    decreases SIZE - i
  {
    if i == SIZE || !c.entries[i].valid then i else FreeSlot(c, i + 1)
  }

  // The first slot of the least age among those before `n`.
  function Oldest(c: Cache, n: nat): (s: nat)
    requires c.Formed() && 0 < n <= SIZE
    ensures s < n && (forall j :: 0 <= j < n ==> c.ages[s] <= c.ages[j])
    ensures forall j :: 0 <= j < s ==> c.ages[s] < c.ages[j]
  {
    if n == 1 then 0 else
    var s := Oldest(c, n - 1);
    if c.ages[n - 1] < c.ages[s] then n - 1 else s
  }

  function Touch(c: Cache, s: nat): (r: Cache)
    requires c.Formed() && s < SIZE
    ensures r.Formed()
  {
    var age := (c.counter + 1) % TWO32;
    c.(ages := c.ages[s := age], counter := age)
  }

  // arp_cache_lookup
  function Lookup(c: Cache, ip: u32): (r: (Cache, Option<Mac>))
    requires c.Formed()
    ensures r.0.Formed()
  {
    var s := SlotOf(c, ip, 0);
    if s == SIZE then (c, None) else (Touch(c, s), Some(c.entries[s].mac))
  }

  // The slot arp_cache_add uses: the address's own, else a free one, else the least recently used
  function Target(c: Cache, ip: u32): (s: nat)
    requires c.Formed()
    ensures s < SIZE
  {
    var own, free := SlotOf(c, ip, 0), FreeSlot(c, 0);
    if own < SIZE then own else if free < SIZE then free else Oldest(c, SIZE)
  }

  // arp_cache_add
  function Add(c: Cache, ip: u32, mac: Mac): (r: Cache)
    requires c.Formed()
    ensures r.Formed()
  {
    var s := Target(c, ip);
    Touch(c.(entries := c.entries[s := Entry(true, ip, mac)]), s)
  }

  // arp_init
  function Empty(): (c: Cache)
    ensures c.Formed()
  {
    Cache(seq(SIZE, _ => Entry(false, 0, NO_MAC)), seq(SIZE, _ => 0), 0)
  }

  // ---------------------------------------------------------------- refinement

  // The addresses in these slots.
  ghost function Names(c: Cache, order: seq<nat>): (l: seq<Known>)
    requires c.Formed() && forall i :: 0 <= i < |order| ==> order[i] < SIZE
    ensures |l| == |order|
    ensures forall i :: 0 <= i < |order| ==> l[i] == Known(c.entries[order[i]].ip, c.entries[order[i]].mac)
  {
    seq(|order|, i requires 0 <= i < |order| => Known(c.entries[order[i]].ip, c.entries[order[i]].mac))
  }

  // `order` lists used slots from the least to the most recently used, none of them `but`.
  ghost predicate Aged(c: Cache, order: seq<nat>, but: nat) {
    && c.Formed()
    && (forall i :: 0 <= i < |order| ==> order[i] < SIZE && order[i] != but && c.entries[order[i]].valid)
    && (forall i, j :: 0 <= i < j < |order| ==> c.ages[order[i]] < c.ages[order[j]])
    && (forall i :: 0 <= i < |order| ==> c.ages[order[i]] <= c.counter)
  }

  // ... and all of them but that one.
  ghost predicate Ordered(c: Cache, order: seq<nat>, but: nat) {
    Aged(c, order, but) && forall s :: 0 <= s < SIZE && s != but && c.entries[s].valid ==> s in order
  }

  // The cache holds exactly this list.
  ghost predicate Represents(c: Cache, l: seq<Known>) {
    DistinctIps(l) && exists order :: Listed(c, order, l)
  }

  ghost predicate Listed(c: Cache, order: seq<nat>, l: seq<Known>) {
    Ordered(c, order, SIZE) && Names(c, order) == l
  }

  // Writing and touching a slot puts it last.
  lemma {:induction false} SlotUsed(c: Cache, rest: seq<nat>, s: nat, e: Entry)
    requires s < SIZE && Ordered(c, rest, s) && e.valid && (c.counter + 1 < TWO32 || rest == [])
    ensures var t := Touch(c.(entries := c.entries[s := e]), s);
            Ordered(t, rest + [s], SIZE) && Names(t, rest + [s]) == Names(c, rest) + [Known(e.ip, e.mac)]
  {
    var t, o := Touch(c.(entries := c.entries[s := e]), s), rest + [s];
    assert t.ages == c.ages[s := t.counter] && t.entries == c.entries[s := e];
    assert rest != [] ==> t.counter == c.counter + 1;
    forall i | 0 <= i < |o|
      ensures o[i] < SIZE && t.entries[o[i]].valid && t.ages[o[i]] <= t.counter
      ensures i < |rest| ==> t.ages[o[i]] == c.ages[rest[i]] && t.entries[o[i]] == c.entries[rest[i]]
    {
    }
    forall x | 0 <= x < SIZE && t.entries[x].valid
      ensures x in o
    {
      if x == s { assert o[|rest|] == s; }
    }
  }

  // The order without the slot at place `i`.
  lemma {:induction false} SlotLeft(c: Cache, order: seq<nat>, i: nat)
    requires Ordered(c, order, SIZE) && i < |order|
    ensures var rest := order[..i] + order[i + 1..];
            && Ordered(c, rest, order[i])
            && Names(c, rest) == Names(c, order)[..i] + Names(c, order)[i + 1..]
  {
    var rest := order[..i] + order[i + 1..];
    DroppedAt(order, i);
    assert Aged(c, rest, order[i]) by {
      forall k | 0 <= k < |rest|
        ensures rest[k] < SIZE && rest[k] != order[i] && c.entries[rest[k]].valid && c.ages[rest[k]] <= c.counter
      {
        assert c.ages[order[k]] != c.ages[order[i]] || k >= i;
      }
      AgesLeft(c, order, i);
    }
    NamesLeft(c, order, i);
  }

  lemma {:induction false} DroppedAt<T>(q: seq<T>, i: nat)
    requires i < |q|
    ensures var rest := q[..i] + q[i + 1..];
            && |rest| == |q| - 1
            && (forall k :: 0 <= k < |rest| ==> rest[k] == q[if k < i then k else k + 1])
            && (forall x :: x in q && x != q[i] ==> x in rest)
  {
    var rest := q[..i] + q[i + 1..];
    forall x | x in q && x != q[i]
      ensures x in rest
    {
      var k :| 0 <= k < |q| && q[k] == x;
      assert rest[if k < i then k else k - 1] == x;
    }
  }

  lemma {:induction false} AgesLeft(c: Cache, order: seq<nat>, i: nat)
    requires Ordered(c, order, SIZE) && i < |order|
    ensures var rest := order[..i] + order[i + 1..];
            forall k, j :: 0 <= k < j < |rest| ==> rest[k] < SIZE && rest[j] < SIZE && c.ages[rest[k]] < c.ages[rest[j]]
  {
    DroppedAt(order, i);
  }

  lemma {:induction false} NamesLeft(c: Cache, order: seq<nat>, i: nat)
    requires Ordered(c, order, SIZE) && i < |order|
    ensures var rest := order[..i] + order[i + 1..];
            && (forall k :: 0 <= k < |rest| ==> rest[k] < SIZE)
            && Names(c, rest) == Names(c, order)[..i] + Names(c, order)[i + 1..]
  {
    DroppedAt(order, i);
    DroppedAt(Names(c, order), i);
    var rest := order[..i] + order[i + 1..];
    forall k | 0 <= k < |rest|
      ensures rest[k] < SIZE && Names(c, rest)[k] == (Names(c, order)[..i] + Names(c, order)[i + 1..])[k]
    {
    }
  }

  // The slot of an address is the one at its place in the order.
  lemma {:induction false} SlotFound(c: Cache, order: seq<nat>, ip: u32)
    requires Ordered(c, order, SIZE) && DistinctIps(Names(c, order))
    ensures var s, i := SlotOf(c, ip, 0), Find(Names(c, order), ip);
            if s < SIZE then i < |order| && order[i] == s else i == |order|
  {
    var l := Names(c, order);
    var s, i := SlotOf(c, ip, 0), Find(l, ip);
    if s < SIZE {
      assert s in order;
      var j :| 0 <= j < |order| && order[j] == s;
      assert l[j].ip == ip;
      assert i == j;
    } else if i < |order| {
      assert l[i].ip == ip && Holds(c, order[i], ip);
    }
  }

  // A full cache lists all slots, the oldest first; otherwise some slot is free.
  lemma {:induction false} FullOrNot(c: Cache, order: seq<nat>)
    requires Ordered(c, order, SIZE)
    ensures FreeSlot(c, 0) < SIZE <==> |order| < SIZE
    ensures |order| <= SIZE && (FreeSlot(c, 0) == SIZE ==> order[0] == Oldest(c, SIZE))
  {
    SlotsDistinct(c, order);
    TooMany(order, SIZE);
    if FreeSlot(c, 0) < SIZE {
      OneMissing(order, SIZE, FreeSlot(c, 0));
    } else {
      AllThere(order, SIZE);
      OldestFirst(c, order);
    }
  }

  lemma {:induction false} OldestFirst(c: Cache, order: seq<nat>)
    requires Ordered(c, order, SIZE) && |order| > 0 && Oldest(c, SIZE) in order
    ensures order[0] == Oldest(c, SIZE)
  {
    var k :| 0 <= k < |order| && order[k] == Oldest(c, SIZE);
    assert c.ages[order[k]] <= c.ages[order[0]];
  }

  lemma {:induction false} SlotsDistinct(c: Cache, order: seq<nat>)
    requires Ordered(c, order, SIZE)
    ensures Distinct(order)
  {
  }

  // ---------------------------------------------------------------- one operation

  lemma {:induction false} ToEndDistinct(l: seq<Known>, i: nat, k: Known)
    requires DistinctIps(l) && i < |l| && k.ip == l[i].ip
    ensures DistinctIps(ToEnd(l, i, k))
  {
    var r := ToEnd(l, i, k);
    forall a | 0 <= a < |r|
      ensures r[a].ip == l[if a < i then a else if a + 1 < |l| then a + 1 else i].ip
    {
    }
  }

  // The age counter does not wrap, or there is nothing to compare ages with.
  predicate AgesHold(c: Cache, after: seq<Known>) {
    c.counter + 1 < TWO32 || |after| <= 1
  }

  // A lookup is the reference's lookup, answer included.
  lemma {:induction false} LookupRefines(c: Cache, l: seq<Known>, ip: u32)
    requires c.Formed() && Represents(c, l) && (AgesHold(c, LruLookup(l, ip)) || Find(l, ip) == |l|)
    ensures Represents(Lookup(c, ip).0, LruLookup(l, ip))
    ensures var i := Find(l, ip); Lookup(c, ip).1 == if i < |l| then Some(l[i].mac) else None
  {
    hide Listed, SlotOf, Find, Touch, DistinctIps;
    var order :| Listed(c, order, l);
    SlotOfListed(c, order, l, ip);
    var s, i := SlotOf(c, ip, 0), Find(l, ip);
    if s < SIZE {
      ReusesSlot(c, order, l, i, c.entries[s]);
      assert c.entries[s := c.entries[s]] == c.entries;
      ToEndDistinct(l, i, l[i]);
      assert Listed(Lookup(c, ip).0, order[..i] + order[i + 1..] + [s], LruLookup(l, ip));
    }
  }

  lemma {:induction false} SlotOfListed(c: Cache, order: seq<nat>, l: seq<Known>, ip: u32)
    requires Listed(c, order, l) && DistinctIps(l)
    ensures c.Formed() && |order| == |l| <= SIZE
    ensures var s, i := SlotOf(c, ip, 0), Find(l, ip);
            if s < SIZE then i < |l| && order[i] == s && l[i] == Known(c.entries[s].ip, c.entries[s].mac) else i == |l|
    ensures FreeSlot(c, 0) < SIZE <==> |l| < SIZE
    ensures |l| == SIZE ==> order[0] == Oldest(c, SIZE)
  {
    hide SlotOf, Find, FreeSlot, Oldest;
    SlotFound(c, order, ip);
    FullOrNot(c, order);
  }

  // The slot at place `i`, written anew, comes last.
  lemma {:induction false} ReusesSlot(c: Cache, order: seq<nat>, l: seq<Known>, i: nat, e: Entry)
    requires Listed(c, order, l) && i < |l| && e.valid && (c.counter + 1 < TWO32 || |l| == 1)
    ensures |order| == |l| && c.Formed() && order[i] < SIZE
    ensures var s := order[i];
            Listed(Touch(c.(entries := c.entries[s := e]), s), order[..i] + order[i + 1..] + [s],
                   l[..i] + l[i + 1..] + [Known(e.ip, e.mac)])
  {
    hide Touch;
    SlotLeft(c, order, i);
    SlotUsed(c, order[..i] + order[i + 1..], order[i], e);
  }

  lemma {:induction false} UsesFreeSlot(c: Cache, order: seq<nat>, l: seq<Known>, s: nat, e: Entry)
    requires Listed(c, order, l) && s < SIZE && !c.entries[s].valid && e.valid && (c.counter + 1 < TWO32 || l == [])
    ensures c.Formed() && Listed(Touch(c.(entries := c.entries[s := e]), s), order + [s], l + [Known(e.ip, e.mac)])
  {
    hide Touch;
    FreeIsOutside(c, order, s);
    SlotUsed(c, order, s, e);
  }

  // Adding is the reference's adding: own slot, else a free one, else the least recently used goes.
  lemma {:induction false} AddRefines(c: Cache, l: seq<Known>, ip: u32, mac: Mac)
    requires c.Formed() && Represents(c, l) && AgesHold(c, LruAdd(l, ip, mac))
    ensures Represents(Add(c, ip, mac), LruAdd(l, ip, mac))
  {
    hide Listed, Add, LruAdd, DistinctIps;
    var order :| Listed(c, order, l);
    var order2 := AddListed(c, order, l, ip, mac);
    LruAddDistinct(l, ip, mac);
  }

  lemma {:induction false} AddListed(c: Cache, order: seq<nat>, l: seq<Known>, ip: u32, mac: Mac)
    returns (order2: seq<nat>)
    requires c.Formed() && Listed(c, order, l) && DistinctIps(l) && AgesHold(c, LruAdd(l, ip, mac))
    ensures Listed(Add(c, ip, mac), order2, LruAdd(l, ip, mac))
  {
    hide Listed, SlotOf, FreeSlot, Oldest, Find, Touch, DistinctIps;
    SlotOfListed(c, order, l, ip);
    var s, i, e := Target(c, ip), Find(l, ip), Entry(true, ip, mac);
    if i < |l| {
      ReusesSlot(c, order, l, i, e);
      order2 := order[..i] + order[i + 1..] + [s];
    } else if |l| < SIZE {
      UsesFreeSlot(c, order, l, s, e);
      order2 := order + [s];
    } else {
      ReusesSlot(c, order, l, 0, e);
      assert l[..0] + l[1..] == l[1..];
      order2 := order[..0] + order[1..] + [s];
    }
  }

  lemma {:induction false} LruAddDistinct(l: seq<Known>, ip: u32, mac: Mac)
    requires DistinctIps(l)
    ensures DistinctIps(LruAdd(l, ip, mac))
  {
    hide Find, DistinctIps;
    if Find(l, ip) < |l| {
      ToEndDistinct(l, Find(l, ip), Known(ip, mac));
    } else {
      NewDistinct(l, if |l| < SIZE then 0 else 1, Known(ip, mac));
      assert l[0..] == l;
    }
  }

  lemma FreeIsOutside(c: Cache, order: seq<nat>, s: nat)
    requires Ordered(c, order, SIZE) && s < SIZE && !c.entries[s].valid
    ensures Ordered(c, order, s)
  {
  }

  lemma NewDistinct(l: seq<Known>, n: nat, k: Known)
    requires DistinctIps(l) && n <= |l| && Find(l, k.ip) == |l|
    ensures DistinctIps(l[n..] + [k])
  {
  }

  // ---------------------------------------------------------------- runs

  datatype Op = LookupOp(ip: u32) | AddOp(ip: u32, mac: Mac)

  function Step(c: Cache, op: Op): (r: Cache)
    requires c.Formed()
    ensures r.Formed()
  {
    match op
    case LookupOp(ip) => Lookup(c, ip).0
    case AddOp(ip, mac) => Add(c, ip, mac)
  }

  function Run(c: Cache, ops: seq<Op>): (r: Cache)
    requires c.Formed()
    ensures r.Formed()
  {
    if ops == [] then c else Step(Run(c, ops[..|ops| - 1]), ops[|ops| - 1])
  }

  function LruStep(l: seq<Known>, op: Op): (r: seq<Known>) {
    match op
    case LookupOp(ip) => LruLookup(l, ip)
    case AddOp(ip, mac) => LruAdd(l, ip, mac)
  }

  function LruRun(l: seq<Known>, ops: seq<Op>): (r: seq<Known>) {
    if ops == [] then l else LruStep(LruRun(l, ops[..|ops| - 1]), ops[|ops| - 1])
  }

  lemma CounterSteps(c: Cache, op: Op)
    requires c.Formed() && c.counter + 1 < TWO32
    ensures Step(c, op).counter <= c.counter + 1
  {
  }

  lemma {:induction false} StepRefines(c: Cache, l: seq<Known>, op: Op)
    requires c.Formed() && Represents(c, l) && c.counter + 1 < TWO32
    ensures Represents(Step(c, op), LruStep(l, op))
  {
    hide Lookup, Add, LruLookup, LruAdd, Represents;
    match op {
      case LookupOp(ip) => LookupRefines(c, l, ip);
      case AddOp(ip, mac) => AddRefines(c, l, ip, mac);
    }
  }

  // Over any run in which the age counter does not wrap, the cache holds exactly the list of the
  // reference: the eight most recently used addresses, each once, with its latest MAC.
  lemma {:induction false} RunRefines(c: Cache, l: seq<Known>, ops: seq<Op>)
    requires c.Formed() && Represents(c, l) && c.counter + |ops| < TWO32
    ensures Represents(Run(c, ops), LruRun(l, ops)) && Run(c, ops).counter <= c.counter + |ops|
    decreases |ops|
  {
    hide Represents, Step, LruStep;
    if ops != [] {
      var m := |ops| - 1;
      RunRefines(c, l, ops[..m]);
      StepRefines(Run(c, ops[..m]), LruRun(l, ops[..m]), ops[m]);
      CounterSteps(Run(c, ops[..m]), ops[m]);
    }
  }

  lemma {:induction false} EmptyRepresents()
    ensures Represents(Empty(), [])
  {
    assert Listed(Empty(), [], []);
  }

  // ---------------------------------------------------------------- the wrap

  predicate Touches(l: seq<Known>, op: Op) {
    op.AddOp? || Find(l, op.ip) < |l|
  }

  // When the counter wraps, the entry just used gets the least age of all: the refinement holds
  // for a step exactly when the counter does not wrap, or no entry is used, or only one is left.
  lemma {:induction false} StepRefinesIff(c: Cache, l: seq<Known>, op: Op)
    requires c.Formed() && Represents(c, l)
    ensures Represents(Step(c, op), LruStep(l, op)) <==> AgesHold(c, LruStep(l, op)) || !Touches(l, op)
  {
    hide Represents, Lookup, Add, LruLookup, LruAdd;
    if AgesHold(c, LruStep(l, op)) || !Touches(l, op) {
      match op {
        case LookupOp(ip) => LookupRefines(c, l, ip);
        case AddOp(ip, mac) => AddRefines(c, l, ip, mac);
      }
    } else if Represents(Step(c, op), LruStep(l, op)) {
      WrapBreaks(c, l, op);
    }
  }

  lemma {:induction false} WrapBreaks(c: Cache, l: seq<Known>, op: Op)
    requires c.Formed() && Represents(c, l) && Touches(l, op) && !AgesHold(c, LruStep(l, op))
    ensures !Represents(Step(c, op), LruStep(l, op))
  {
    hide Represents, LruStep, Step;
    var s := UsedSlot(c, l, op);
    LastUsed(l, op);
    if Represents(Step(c, op), LruStep(l, op)) {
      LastIsOlder(Step(c, op), LruStep(l, op), s, op.ip);
    }
  }

  // The slot an operation uses has the address, and age 0 once the counter has wrapped.
  lemma {:induction false} UsedSlot(c: Cache, l: seq<Known>, op: Op) returns (s: nat)
    requires c.Formed() && Represents(c, l) && Touches(l, op) && c.counter == TWO32 - 1
    ensures s < SIZE && Holds(Step(c, op), s, op.ip) && Step(c, op).ages[s] == 0
  {
    hide SlotOf, FreeSlot, Oldest, Find, Listed;
    var order :| Listed(c, order, l);
    SlotOfListed(c, order, l, op.ip);
    s := if op.AddOp? then Target(c, op.ip) else SlotOf(c, op.ip, 0);
  }

  lemma {:induction false} LastIsOlder(t: Cache, r: seq<Known>, s: nat, ip: u32)
    requires t.Formed() && s < SIZE && Holds(t, s, ip) && Represents(t, r)
    requires |r| >= 2 && r[|r| - 1].ip == ip
    ensures t.ages[s] > 0
  {
    hide Listed;
    var o :| Listed(t, o, r);
    var k := PlaceOf(t, o, r, s);
    var n := |r| - 1;
    assert k == n;
    InAgeOrder(t, o, r, n);
  }

  lemma {:induction false} PlaceOf(t: Cache, o: seq<nat>, r: seq<Known>, s: nat) returns (k: nat)
    requires Listed(t, o, r) && s < SIZE && t.entries[s].valid
    ensures k < |r| == |o| && o[k] == s && r[k].ip == t.entries[s].ip
  {
    assert s in o;
    k :| 0 <= k < |o| && o[k] == s;
  }

  lemma InAgeOrder(t: Cache, o: seq<nat>, r: seq<Known>, n: nat)
    requires Listed(t, o, r) && 0 < n < |r|
    ensures t.Formed() && |o| == |r| && o[n] < SIZE && t.ages[o[n]] > 0
  {
    assert t.ages[o[n - 1]] < t.ages[o[n]];
  }

  lemma LastUsed(l: seq<Known>, op: Op)
    requires Touches(l, op)
    ensures var r := LruStep(l, op); r != [] && r[|r| - 1].ip == op.ip
  {
  }

  function MacOf(i: nat): (m: Mac)
    requires i < SIZE
  {
    [2, 0, 0, 0, 0, i]
  }

  // For instance, a proper cache of eight addresses whose counter is at its end.
  function FullCache(): (c: Cache)
    ensures c.Formed()
  {
    Cache(seq(SIZE, i requires 0 <= i < SIZE => Entry(true, i, MacOf(i))),
          seq(SIZE, i requires 0 <= i < SIZE => TWO32 - SIZE + i), TWO32 - 1)
  }

  function FullList(): (l: seq<Known>) {
    seq(SIZE, i requires 0 <= i < SIZE => Known(i, MacOf(i)))
  }

  lemma {:induction false} FullCacheIsProper()
    ensures Represents(FullCache(), FullList())
  {
    var order: seq<nat> := seq(SIZE, i requires 0 <= i < SIZE => i);
    var c, l := FullCache(), FullList();
    forall s | 0 <= s < SIZE
      ensures s in order
    {
      assert order[s] == s;
    }
    assert Ordered(c, order, SIZE);
    forall i | 0 <= i < SIZE
      ensures Names(c, order)[i] == l[i]
    {
      assert order[i] == i;
    }
    assert Listed(c, order, l);
  }

  // Looking up one of its addresses and then learning a ninth throws out the one just looked up;
  // the reference keeps it.
  lemma {:induction false} WrapEvictsNewest(mac: Mac)
    ensures Represents(FullCache(), FullList())
    ensures Lookup(FullCache(), 7).1 == Some(MacOf(7))
    ensures Lookup(Add(Lookup(FullCache(), 7).0, 100, mac), 7).1 == None
    ensures Known(7, MacOf(7)) in LruAdd(LruLookup(FullList(), 7), 100, mac)
  {
    hide SlotOf, FreeSlot, Oldest, Find;
    FullCacheIsProper();
    var c, l := FullCache(), FullList();
    assert SlotOf(c, 7, 0) == 7 by { assert Holds(c, 7, 7); }
    var d := Lookup(c, 7).0;
    assert d.ages[7] == 0 && d.entries == c.entries;
    assert Oldest(d, SIZE) == 7;
    assert Target(d, 100) == 7;
    var e := Add(d, 100, mac);
    assert forall i :: 0 <= i < SIZE ==> !Holds(e, i, 7);
    assert Find(l, 7) == 7 by { assert l[7].ip == 7; }
    var k := LruLookup(l, 7);
    assert k[7] == l[7];
    assert LruAdd(k, 100, mac)[6] == k[7];
  }

  // ---------------------------------------------------------------- most recently used

  function Last(h: seq<Known>): (t: seq<Known>) {
    if |h| <= SIZE then h else h[|h| - SIZE..]
  }

  // Every address ever learned, in order of last use; looking up one that is no longer among the
  // last eight is no use.
  function History(h: seq<Known>, op: Op): (r: seq<Known>) {
    var i := Find(h, op.ip);
    match op
    case AddOp(ip, mac) => if i < |h| then ToEnd(h, i, Known(ip, mac)) else h + [Known(ip, mac)]
    case LookupOp(ip) => if |h| - |Last(h)| <= i < |h| then ToEnd(h, i, h[i]) else h
  }

  function HistoryOf(h: seq<Known>, ops: seq<Op>): (r: seq<Known>) {
    if ops == [] then h else History(HistoryOf(h, ops[..|ops| - 1]), ops[|ops| - 1])
  }

  // Where an address is among the last eight.
  lemma {:induction false} FindInLast(h: seq<Known>, ip: u32)
    requires DistinctIps(h)
    ensures var d, i, j := |h| - |Last(h)|, Find(h, ip), Find(Last(h), ip);
            if d <= i < |h| then j == i - d && Last(h)[j] == h[i] else j == |Last(h)|
  {
    hide Find, Last;
    var t, d := Last(h), |h| - |Last(h)|;
    var i, j := Find(h, ip), Find(t, ip);
    LastLength(h);
    if d <= i < |h| {
      assert t[i - d] == h[i];
    }
    if j < |t| {
      assert h[d + j].ip == ip;
      assert i == d + j;
    }
  }

  // Moving an address of the history to its end, seen through the last eight.
  lemma {:induction false} ToEndAt(l: seq<Known>, i: nat, k: Known, a: nat)
    requires i < |l| && a < |l|
    ensures |ToEnd(l, i, k)| == |l|
    ensures ToEnd(l, i, k)[a] == if a < i then l[a] else if a + 1 < |l| then l[a + 1] else k
  {
  }

  lemma {:induction false} LastToEnd(h: seq<Known>, i: nat, k: Known)
    requires i < |h|
    ensures var d, t := |h| - |Last(h)|, Last(h);
            Last(ToEnd(h, i, k)) == if d <= i then ToEnd(t, i - d, k) else t[1..] + [k]
  {
    hide Last, ToEnd;
    var d, t, r := |h| - |Last(h)|, Last(h), ToEnd(h, i, k);
    LastLength(h);
    LastLength(r);
    ToEndAt(h, i, k, 0);
    var s := if d <= i then ToEnd(t, i - d, k) else t[1..] + [k];
    if d <= i { ToEndAt(t, i - d, k, 0); }
    forall a | 0 <= a < |t|
      ensures Last(r)[a] == s[a]
    {
      ToEndAt(h, i, k, d + a);
      if d <= i { ToEndAt(t, i - d, k, a); }
      assert Last(r)[a] == r[d + a] && t[a] == h[d + a];
      if a + 1 < |t| { assert t[a + 1] == h[d + (a + 1)]; }
    }
    assert |Last(r)| == |t| == |s|;
  }

  lemma {:induction false} StepOfLast(h: seq<Known>, op: Op)
    requires DistinctIps(h)
    ensures DistinctIps(History(h, op)) && Last(History(h, op)) == LruStep(Last(h), op)
  {
    hide Find, Last, ToEnd, DistinctIps;
    var i := Find(h, op.ip);
    FindInLast(h, op.ip);
    LastLength(h);
    match op {
      case AddOp(ip, mac) =>
        var k := Known(ip, mac);
        if i < |h| {
          LastToEnd(h, i, k);
          ToEndDistinct(h, i, k);
        } else {
          NewDistinct(h, 0, k);
          assert h[0..] == h;
          LastAppend(h, k);
        }
      case LookupOp(ip) =>
        if |h| - |Last(h)| <= i < |h| {
          LastToEnd(h, i, h[i]);
          ToEndDistinct(h, i, h[i]);
        }
    }
  }

  lemma LastLength(h: seq<Known>)
    ensures |Last(h)| <= SIZE && |Last(h)| <= |h| && (|Last(h)| < |h| ==> |Last(h)| == SIZE)
    ensures var d := |h| - |Last(h)|; forall k :: 0 <= k < |Last(h)| ==> Last(h)[k] == h[d + k]
  {
  }

  lemma LastAppend(h: seq<Known>, k: Known)
    ensures Last(h + [k]) == if |Last(h)| < SIZE then Last(h) + [k] else Last(h)[1..] + [k]
  {
  }

  // The reference, and so the cache, holds exactly the eight most recently used of all addresses.
  lemma {:induction false} HoldsMostRecent(ops: seq<Op>)
    ensures DistinctIps(HistoryOf([], ops)) && LruRun([], ops) == Last(HistoryOf([], ops))
    decreases |ops|
  {
    hide History, LruStep;
    if ops != [] {
      HoldsMostRecent(ops[..|ops| - 1]);
      StepOfLast(HistoryOf([], ops[..|ops| - 1]), ops[|ops| - 1]);
    }
  }

  // Over any run of fewer than 2^32 operations the cache holds exactly the eight most recently
  // used of all addresses ever learned, each once, with its latest MAC.
  lemma {:induction false} CacheHoldsMostRecent(ops: seq<Op>)
    requires |ops| < TWO32
    ensures Represents(Run(Empty(), ops), Last(HistoryOf([], ops)))
  {
    hide Represents, Run, LruRun, HistoryOf, Last;
    EmptyRepresents();
    RunRefines(Empty(), [], ops);
    HoldsMostRecent(ops);
  }

  // The reference never holds more than eight addresses, nor one twice.
  lemma {:induction false} ReferenceBounds(c: Cache, l: seq<Known>)
    requires c.Formed() && Represents(c, l)
    ensures |l| <= SIZE && DistinctIps(l)
  {
    var order :| Listed(c, order, l);
    FullOrNot(c, order);
  }

  // ---------------------------------------------------------------- in place

  class Table {
    const entries: array<Entry>      // g_arp_cache
    const ages: array<u32>           // g_arp_age
    var counter: u32                 // g_arp_age_counter

    ghost predicate Valid() { entries.Length == SIZE && ages.Length == SIZE }

    ghost function State(): (c: Cache)
      reads this, entries, ages
    {
      Cache(entries[..], ages[..], counter)
    }

    // arp_init
    constructor ()
      ensures Valid() && State() == Empty() && fresh(entries) && fresh(ages)
    {
      entries := new Entry[SIZE](_ => Entry(false, 0, NO_MAC));
      ages := new u32[SIZE](_ => 0);
      counter := 0;
    }

    // arp_cache_lookup
    method LookupMac(ip: u32) returns (mac: Option<Mac>)
      requires Valid()
      modifies this`counter, ages
      ensures (State(), mac) == Lookup(old(State()), ip)
    {
      for i := 0 to SIZE
        invariant SlotOf(State(), ip, 0) == SlotOf(State(), ip, i) && State() == old(State())
      {
        if entries[i].valid && entries[i].ip == ip {
          counter := (counter + 1) % TWO32;
          ages[i] := counter;
          assert ages[..] == old(ages[..])[i := counter];
          return Some(entries[i].mac);
        }
      }
      return None;
    }

    // The slot arp_cache_add chooses.
    method ChooseSlot(ip: u32) returns (slot: nat)
      requires Valid()
      ensures slot == Target(State(), ip)
    {
      slot := SIZE;
      for i := 0 to SIZE
        invariant slot == SIZE && SlotOf(State(), ip, 0) == SlotOf(State(), ip, i)
      {
        if entries[i].valid && entries[i].ip == ip {
          return i;
        }
      }
      for i := 0 to SIZE
        invariant FreeSlot(State(), 0) == FreeSlot(State(), i)
      {
        if !entries[i].valid {
          return i;
        }
      }
      slot := 0;
      for i := 1 to SIZE
        invariant slot == Oldest(State(), i)
      {
        if ages[i] < ages[slot] {
          slot := i;
        }
      }
    }

    // arp_cache_add
    method AddMac(ip: u32, mac: Mac)
      requires Valid()
      modifies this`counter, entries, ages
      ensures State() == Add(old(State()), ip, mac)
    {
      hide Target;
      var slot := ChooseSlot(ip);
      entries[slot] := Entry(true, ip, mac);
      counter := (counter + 1) % TWO32;
      ages[slot] := counter;
      assert entries[..] == old(entries[..])[slot := Entry(true, ip, mac)];
      assert ages[..] == old(ages[..])[slot := counter];
    }
  }

  // ---------------------------------------------------------------- counting

  ghost function UpTo(n: nat): (s: set<nat>)
    ensures |s| == n && forall x :: x in s <==> 0 <= x < n
  {
    if n == 0 then {} else UpTo(n - 1) + {n - 1}
  }

  lemma {:induction false} TooMany(q: seq<nat>, n: nat)
    requires Distinct(q) && forall i :: 0 <= i < |q| ==> q[i] < n
    ensures |q| <= n
  {
    ElementCount(q);
    SubsetSize(Elements(q), UpTo(n));
  }

  lemma {:induction false} OneMissing(q: seq<nat>, n: nat, x: nat)
    requires Distinct(q) && (forall i :: 0 <= i < |q| ==> q[i] < n) && x < n && x !in q
    ensures |q| < n
  {
    ElementCount(q);
    SubsetSize(Elements(q), UpTo(n) - {x});
  }

  lemma {:induction false} AllThere(q: seq<nat>, n: nat)
    requires Distinct(q) && forall x :: 0 <= x < n ==> x in q
    ensures |q| >= n
  {
    ElementCount(q);
    SubsetSize(UpTo(n), Elements(q));
  }
}

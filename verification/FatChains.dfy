/**
 Cluster chains in the unpacked table: the lowest-first allocator, linking, freeing by
 walking, and what a walk reaches in an arbitrary (possibly cyclic) table.
 */
module FatChains {
  import opened Common
  import opened FatTable

  // get_fat_entry on the unpacked table.
  function At(t: seq<u12>, c: nat): (r: u12) {
    if c < |t| then t[c] else 0xFFF
  }

  // The guard of the freeing and writing walks fails here.
  predicate Stops(c: nat) {
    c < 2 || c >= 0xFF0
  }

  // ---------------------------------------------------------------- allocation

  // How many of the entries [lo, hi) are free.
  function FreeCount(t: seq<u12>, lo: nat, hi: nat): (n: nat)
    decreases hi - lo
  {
    if lo >= hi then 0
    else (if At(t, lo) == 0 then 1 else 0) + FreeCount(t, lo + 1, hi)
  }

  // Lowest free cluster in [start, max), or 0 when there is none.
  function FirstFree(t: seq<u12>, start: nat, max: nat): (c: nat)
    requires 2 <= start
    ensures c == 0 ==> forall d :: start <= d < max ==> At(t, d) != 0
    ensures c != 0 ==> start <= c < max && At(t, c) == 0
    ensures c != 0 ==> forall d :: start <= d < c ==> At(t, d) != 0
    decreases max - start
  {
    if start >= max then 0
    else if At(t, start) == 0 then start
    else FirstFree(t, start + 1, max)
  }

  // The `n` lowest free clusters in [start, max); fewer when the volume runs out.
  function Picks(t: seq<u12>, start: nat, max: nat, n: nat): (cs: seq<nat>)
    requires 2 <= start
    ensures forall i :: 0 <= i < |cs| ==> start <= cs[i] < max
    decreases n
  {
    if n == 0 then [] else
    var c := FirstFree(t, start, max);
    if c == 0 then [] else [c] + Picks(t, c + 1, max, n - 1)
  }

  predicate Ascending(cs: seq<nat>) {
    forall i, j :: 0 <= i < j < |cs| ==> cs[i] < cs[j]
  }

  predicate Within(cs: seq<nat>, lo: nat, hi: nat) {
    forall i :: 0 <= i < |cs| ==> lo <= cs[i] < hi
  }

  predicate AllFree(t: seq<u12>, cs: seq<nat>) {
    forall i :: 0 <= i < |cs| ==> At(t, cs[i]) == 0
  }

  lemma {:induction false} FreeCountSplit(t: seq<u12>, lo: nat, mid: nat, hi: nat)
    requires lo <= mid <= hi
    ensures FreeCount(t, lo, hi) == FreeCount(t, lo, mid) + FreeCount(t, mid, hi)
    decreases mid - lo
  {
    if lo < mid { FreeCountSplit(t, lo + 1, mid, hi); }
  }

  lemma {:induction false} NoneFree(t: seq<u12>, lo: nat, hi: nat)
    requires forall d :: lo <= d < hi ==> At(t, d) != 0
    ensures FreeCount(t, lo, hi) == 0
    decreases hi - lo
  {
    if lo < hi { NoneFree(t, lo + 1, hi); }
  }

  // The picks are ascending free clusters ...
  lemma {:induction false} PicksAscendFree(t: seq<u12>, start: nat, max: nat, n: nat)
    requires 2 <= start
    ensures Ascending(Picks(t, start, max, n))
    ensures Within(Picks(t, start, max, n), start, max)
    ensures AllFree(t, Picks(t, start, max, n))
    decreases n
  {
    var c := FirstFree(t, start, max);
    if n > 0 && c != 0 {
      PicksAscendFree(t, c + 1, max, n - 1);
    }
  }

  // ... as many as asked for or as there are ...
  lemma {:induction false} PicksCount(t: seq<u12>, start: nat, max: nat, n: nat)
    requires 2 <= start
    ensures |Picks(t, start, max, n)| ==
            if n <= FreeCount(t, start, max) then n else FreeCount(t, start, max)
    decreases n
  {
    var c := FirstFree(t, start, max);
    if c == 0 {
      NoneFree(t, start, max);
    } else if n > 0 {
      PicksCount(t, c + 1, max, n - 1);
      NoneFree(t, start, c);
      FreeCountSplit(t, start, c, max);
    }
  }

  // ... and a free cluster is picked exactly when fewer than `n` free ones lie below it.
  lemma {:induction false} PicksAreLowest(t: seq<u12>, start: nat, max: nat, n: nat, d: nat)
    requires 2 <= start <= d < max && At(t, d) == 0
    ensures d in Picks(t, start, max, n) <==> FreeCount(t, start, d) < n
    decreases n
  {
    var c := FirstFree(t, start, max);
    if n > 0 {
      assert c != 0 && c <= d;
      NoneFree(t, start, c);
      FreeCountSplit(t, start, c, d);
      if c < d {
        PicksAreLowest(t, c + 1, max, n - 1, d);
      }
    }
  }

  // The picks grow by the next free cluster above the last one.
  lemma {:induction false} PicksGrow(t: seq<u12>, start: nat, max: nat, n: nat)
    requires 2 <= start && |Picks(t, start, max, n)| == n
    ensures var cs := Picks(t, start, max, n);
            var c := FirstFree(t, if n == 0 then start else cs[n - 1] + 1, max);
            Picks(t, start, max, n + 1) == if c == 0 then cs else cs + [c]
    decreases n
  {
    hide FirstFree, Picks;
    PicksStep(t, start, max, n + 1);
    if n == 0 {
      PicksStep(t, start, max, 0);
      if FirstFree(t, start, max) != 0 { PicksStep(t, FirstFree(t, start, max) + 1, max, 0); }
    } else {
      PicksStep(t, start, max, n);
      var f := FirstFree(t, start, max);
      PicksGrow(t, f + 1, max, n - 1);
      var rest := Picks(t, f + 1, max, n - 1);
      var c := FirstFree(t, if n == 1 then f + 1 else rest[n - 2] + 1, max);
      assert c != 0 ==> [f] + (rest + [c]) == ([f] + rest) + [c];
    }
  }

  lemma PicksStep(t: seq<u12>, start: nat, max: nat, n: nat)
    requires 2 <= start
    ensures n == 0 ==> Picks(t, start, max, n) == []
    ensures var c := FirstFree(t, start, max);
            n > 0 ==> Picks(t, start, max, n) == if c == 0 then [] else [c] + Picks(t, c + 1, max, n - 1)
  {
  }

  // The search looks only at entries from its start on.
  lemma {:induction false} FirstFreeLocal(t: seq<u12>, t2: seq<u12>, start: nat, max: nat)
    requires 2 <= start && forall d :: start <= d < max ==> At(t2, d) == At(t, d)
    ensures FirstFree(t2, start, max) == FirstFree(t, start, max)
    decreases max - start
  {
    if start < max { FirstFreeLocal(t, t2, start + 1, max); }
  }

  // The table with `cs` linked into one chain, last cluster marked end-of-chain, in the
  // order the allocator stores the links.
  function Linked(t: seq<u12>, cs: seq<nat>): (r: seq<u12>)
    requires forall i :: 0 <= i < |cs| ==> cs[i] < |t| && cs[i] < 0x1000
    ensures |r| == |t|
  {
    if cs == [] then t else
    var m := |cs| - 1;
    var before := Linked(t, cs[..m]);
    var joined := if m == 0 then before else before[cs[m - 1] := cs[m]];
    joined[cs[m] := 0xFFF]
  }

  // ---------------------------------------------------------------- chains

  // `cs` is a whole chain: acyclic, in range, each cluster naming the next, the last one
  // holding an end-of-chain mark.
  ghost predicate IsChain(t: seq<u12>, max: nat, cs: seq<nat>) {
    && |cs| > 0
    && Distinct(cs)
    && Within(cs, 2, max)
    && (forall i :: 0 <= i < |cs| - 1 ==> At(t, cs[i]) == cs[i + 1])
    && At(t, cs[|cs| - 1]) >= 0xFF8
  }

  lemma {:induction false} LinkedChain(t: seq<u12>, cs: seq<nat>)
    requires forall i :: 0 <= i < |cs| ==> cs[i] < |t| && cs[i] < 0x1000
    requires Distinct(cs)
    ensures forall i :: 0 <= i < |cs| - 1 ==> Linked(t, cs)[cs[i]] == cs[i + 1]
    ensures |cs| > 0 ==> Linked(t, cs)[cs[|cs| - 1]] == 0xFFF
    ensures forall d :: 0 <= d < |t| && d !in cs ==> Linked(t, cs)[d] == t[d]
  {
    if cs != [] {
      var m := |cs| - 1;
      var front := cs[..m];
      var before, r := Linked(t, front), Linked(t, cs);
      LinkedChain(t, front);
      forall i | 0 <= i < m
        ensures r[cs[i]] == cs[i + 1]
      {
        assert cs[i] == front[i];
        if i < m - 1 { assert before[front[i]] == front[i + 1]; }
      }
      forall d | 0 <= d < |t| && d !in cs
        ensures r[d] == t[d]
      {
        assert d !in front && d != cs[m];
        if m > 0 { assert cs[m - 1] in front; }
      }
    }
  }

  // ---------------------------------------------------------------- freeing

  ghost predicate LinksInside(t: seq<u12>) {
    forall c :: 0 <= c < |t| ==> Stops(t[c]) || t[c] < |t|
  }

  function NonZero(t: seq<u12>): (n: nat) {
    if t == [] then 0 else NonZero(t[..|t| - 1]) + if t[|t| - 1] != 0 then 1 else 0
  }

  lemma {:induction false} NonZeroDrops(t: seq<u12>, c: nat)
    requires c < |t| && t[c] != 0
    ensures NonZero(t[c := 0]) == NonZero(t) - 1
  {
    var m := |t| - 1;
    if c < m {
      NonZeroDrops(t[..m], c);
      assert t[c := 0][..m] == t[..m][c := 0];
    } else {
      assert t[c := 0][..m] == t[..m];
    }
  }

  // The table after fat12_free_chain(c). Each round clears the entry it has read, so the
  // walk ends on every content: a revisited entry reads as 0.
  ghost function Freed(t: seq<u12>, c: nat): (r: seq<u12>)
    requires LinksInside(t)
    requires Stops(c) || c < |t|
    ensures |r| == |t|
    decreases NonZero(t), if Stops(c) then 0 else 1
  {
    if Stops(c) then t else
    if t[c] != 0 then NonZeroDrops(t, c); Freed(t[c := 0], t[c]) else Freed(t, 0)
  }

  // `p` follows links of `t` from `a` to `b`, through clusters the walk does not stop at.
  ghost predicate IsPath(t: seq<u12>, p: seq<nat>, a: nat, b: nat) {
    && |p| > 0 && p[0] == a && p[|p| - 1] == b
    && (forall i :: 0 <= i < |p| ==> !Stops(p[i]) && p[i] < |t|)
    && (forall i :: 0 <= i < |p| - 1 ==> t[p[i]] == p[i + 1])
  }

  ghost predicate Reachable(t: seq<u12>, a: nat, b: nat) {
    exists p :: IsPath(t, p, a, b)
  }

  lemma {:induction false} PathSurvivesClear(t: seq<u12>, c: nat, p: seq<nat>, d: nat)
    requires !Stops(c) && c < |t| && d != c
    requires IsPath(t, p, c, d)
    ensures Reachable(t[c := 0], t[c], d)
    decreases |p|
  {
    var q := p[1..];
    if c in q {
      var k :| 0 <= k < |q| && q[k] == c;
      PathSurvivesClear(t, c, q[k..], d);
    } else {
      assert IsPath(t[c := 0], q, t[c], d);
    }
  }

  lemma {:induction false} ClearedPathExtends(t: seq<u12>, c: nat, p: seq<nat>, d: nat)
    requires !Stops(c) && c < |t| && d != c
    requires IsPath(t[c := 0], p, t[c], d)
    ensures Reachable(t, c, d)
  {
    forall i | 0 <= i < |p| - 1
      ensures p[i] != c
    {
      assert t[c := 0][p[i]] == p[i + 1];
    }
    assert IsPath(t, [c] + p, c, d);
  }

  // Freeing clears exactly the clusters reachable from the start, in every table, cyclic
  // ones included; all other entries keep their value.
  lemma {:induction false} FreedClearsReachable(t: seq<u12>, c: nat, d: nat)
    requires LinksInside(t)
    requires Stops(c) || c < |t|
    requires d < |t|
    ensures Freed(t, c)[d] == if Reachable(t, c, d) then 0 else t[d]
    decreases NonZero(t), if Stops(c) then 0 else 1
  {
    if Stops(c) {
      assert !Reachable(t, c, d);
    } else {
      assert IsPath(t, [c], c, c);
      var t1 := t[c := 0];
      if t[c] != 0 {
        NonZeroDrops(t, c);
        FreedClearsReachable(t1, t[c], d);
      } else {
        assert t1 == t;
        FreedClearsReachable(t, 0, d);
      }
      if d != c {
        if Reachable(t, c, d) {
          var p :| IsPath(t, p, c, d);
          PathSurvivesClear(t, c, p, d);
        }
        if Reachable(t1, t[c], d) {
          var p :| IsPath(t1, p, t[c], d);
          ClearedPathExtends(t, c, p, d);
        }
      }
    }
  }

  // Clearing one cluster of a distinct chain leaves its tail a chain.
  lemma {:induction false} ChainTail(t: seq<u12>, max: nat, cs: seq<nat>)
    requires IsChain(t, max, cs) && |cs| > 1 && cs[0] < |t|
    ensures IsChain(t[cs[0] := 0], max, cs[1..])
  {
    var r := cs[1..];
    assert forall i :: 0 <= i < |r| ==> r[i] == cs[i + 1];
    assert r[|r| - 1] == cs[|cs| - 1];
  }

  // Freeing a chain clears its clusters and nothing else.
  lemma {:induction false} FreedChain(t: seq<u12>, max: nat, cs: seq<nat>)
    requires IsChain(t, max, cs) && max <= |t| && max <= 0xFF0 && LinksInside(t)
    ensures forall d :: 0 <= d < |t| ==> Freed(t, cs[0])[d] == if d in cs then 0 else t[d]
    decreases |cs|
  {
    var c := cs[0];
    assert t[c] != 0 by {
      if |cs| > 1 { assert At(t, cs[0]) == cs[1]; }
    }
    NonZeroDrops(t, c);
    if |cs| == 1 {
      assert Freed(t[c := 0], t[c]) == t[c := 0];
    } else {
      ChainTail(t, max, cs);
      FreedChain(t[c := 0], max, cs[1..]);
    }
  }

  // Freeing keeps links inside the table.
  lemma {:induction false} FreedInside(t: seq<u12>, c: nat)
    requires LinksInside(t) && (Stops(c) || c < |t|)
    ensures LinksInside(Freed(t, c))
    ensures forall d :: 0 <= d < |t| ==> Freed(t, c)[d] == t[d] || Freed(t, c)[d] == 0
    decreases NonZero(t), if Stops(c) then 0 else 1
  {
    if !Stops(c) {
      if t[c] != 0 {
        NonZeroDrops(t, c);
        FreedInside(t[c := 0], t[c]);
      } else {
        FreedInside(t, 0);
      }
    }
  }

  lemma {:induction false} LinkedInside(t: seq<u12>, cs: seq<nat>)
    requires LinksInside(t)
    requires forall i :: 0 <= i < |cs| ==> cs[i] < |t| && cs[i] < 0x1000
    ensures LinksInside(Linked(t, cs))
  {
    if cs != [] { LinkedInside(t, cs[..|cs| - 1]); }
  }

  // A successful allocation: `n` previously free clusters, lowest first, as one chain.
  lemma {:induction false} AllocatedChain(t: seq<u12>, max: nat, n: nat)
    requires max <= |t| && max <= 0xFF0 && 0 < n <= FreeCount(t, 2, max)
    ensures var cs := Picks(t, 2, max, n);
            && |cs| == n && Ascending(cs) && AllFree(t, cs) && Within(cs, 2, max)
            && IsChain(Linked(t, cs), max, cs)
            && forall d :: 0 <= d < |t| && d !in cs ==> Linked(t, cs)[d] == t[d]
  {
    PicksAscendFree(t, 2, max, n);
    PicksCount(t, 2, max, n);
    LinkedChain(t, Picks(t, 2, max, n));
  }

  // `cl` joined to `prev` (0: none) as the new end of the chain.
  function Joined(t: seq<u12>, prev: nat, cl: u12): (r: seq<u12>)
    requires prev < |t| && cl < |t|
    ensures |r| == |t|
  {
    (if prev != 0 then t[prev := cl] else t)[cl := 0xFFF]
  }

  function Last(cs: seq<nat>): (c: nat) { if cs == [] then 0 else cs[|cs| - 1] }

  lemma {:induction false} LinkedJoined(t: seq<u12>, cs: seq<nat>, c: u12)
    requires forall i :: 0 <= i < |cs| ==> 0 < cs[i] < |t| && cs[i] < 0x1000
    requires c < |t|
    ensures Last(cs) < |t| && Linked(t, cs + [c]) == Joined(Linked(t, cs), Last(cs), c)
  {
    assert (cs + [c])[..|cs|] == cs;
  }

  // Links among lower clusters do not disturb the search above them.
  lemma {:induction false} SearchAbove(t: seq<u12>, max: nat, cs: seq<nat>)
    requires 2 <= max <= |t| && max <= 0xFF0 && Ascending(cs) && Within(cs, 2, max)
    ensures Last(cs) < |t|
    ensures var from := if cs == [] then 2 else Last(cs) + 1;
            FirstFree(Linked(t, cs), from, max) == FirstFree(t, from, max)
  {
    hide Linked, FirstFree;
    var from := if cs == [] then 2 else Last(cs) + 1;
    LinkedChain(t, cs);
    forall d | from <= d < max
      ensures At(Linked(t, cs), d) == At(t, d)
    {
      assert d !in cs;
    }
    FirstFreeLocal(t, Linked(t, cs), from, max);
  }

  // One round of the allocator: `cs` is linked, the search goes on above its last cluster.
  lemma {:induction false} AllocRound(t: seq<u12>, max: nat, n: nat, cs: seq<nat>)
    requires 2 <= max <= |t| && max <= 0xFF0 && cs == Picks(t, 2, max, |cs|) && |cs| < n
    ensures Ascending(cs) && Within(cs, 2, max) && AllFree(t, cs) && Last(cs) < |t|
    ensures var c := FirstFree(Linked(t, cs), if cs == [] then 2 else Last(cs) + 1, max);
            && (c == 0 ==> |Picks(t, 2, max, n)| < n)
            && (c != 0 ==> cs + [c] == Picks(t, 2, max, |cs| + 1))
            && (c != 0 ==> Joined(Linked(t, cs), Last(cs), c) == Linked(t, cs + [c]))
  {
    hide Linked, Joined, Picks, FirstFree, FreeCount;
    var from := if cs == [] then 2 else Last(cs) + 1;
    PicksAscendFree(t, 2, max, |cs|);
    SearchAbove(t, max, cs);
    PicksGrow(t, 2, max, |cs|);
    PicksCount(t, 2, max, |cs| + 1);
    PicksCount(t, 2, max, n);
    var c := FirstFree(t, from, max);
    if c != 0 { LinkedJoined(t, cs, c); }
  }

  // Rolling an allocation back restores the table.
  lemma {:induction false} RollbackRestores(t: seq<u12>, max: nat, cs: seq<nat>)
    requires max <= |t| && max <= 0xFF0 && LinksInside(t)
    requires |cs| > 0 && Distinct(cs) && Within(cs, 2, max) && AllFree(t, cs)
    ensures LinksInside(Linked(t, cs))
    ensures Freed(Linked(t, cs), cs[0]) == t
  {
    LinkedInside(t, cs);
    LinkedChain(t, cs);
    FreedChain(Linked(t, cs), max, cs);
    forall d | 0 <= d < |t|
      ensures Freed(Linked(t, cs), cs[0])[d] == t[d]
    {
      if d in cs {
        var i :| 0 <= i < |cs| && cs[i] == d;
      }
    }
  }

  // A chain is determined by its first cluster.
  lemma {:induction false} ChainsAgree(t: seq<u12>, max: nat, a: seq<nat>, b: seq<nat>, k: nat)
    requires IsChain(t, max, a) && IsChain(t, max, b) && a[0] == b[0] && max <= 0xFF0
    requires k < |a|
    ensures k < |b| && a[k] == b[k]
  {
    if k > 0 {
      ChainsAgree(t, max, a, b, k - 1);
      assert At(t, a[k - 1]) == a[k];
    }
  }

  // The outcome of asking for `n` clusters: the lowest `n` linked into a chain, or nothing.
  ghost predicate AllocatedOrNot(t: seq<u12>, t2: seq<u12>, max: nat, n: nat, first: nat)
    requires max <= |t| && max <= 0xFF0
  {
    var cs := Picks(t, 2, max, n);
    if n > 0 && |cs| == n then first == cs[0] && t2 == Linked(t, cs) else first == 0 && t2 == t
  }

  // An allocation succeeds if and only if enough clusters are free, and then it is a whole chain
  // of that many; otherwise nothing has changed.
  lemma {:induction false} AllocatesIff(t: seq<u12>, t2: seq<u12>, max: nat, n: nat, first: nat)
    requires max <= |t| && max <= 0xFF0 && AllocatedOrNot(t, t2, max, n, first)
    ensures first != 0 <==> 0 < n <= FreeCount(t, 2, max)
    ensures first == 0 ==> t2 == t
    ensures first != 0 ==>
              exists cs :: |cs| == n && cs[0] == first && Ascending(cs) && AllFree(t, cs) && IsChain(t2, max, cs)
  {
    hide Linked, Picks;
    PicksCount(t, 2, max, n);
    if 0 < n <= FreeCount(t, 2, max) {
      AllocatedChain(t, max, n);
      assert |Picks(t, 2, max, n)| == n;
    }
  }

  // The allocator after `i` rounds.
  ghost predicate Allocating(t: seq<u12>, t2: seq<u12>, max: nat, i: nat, first: nat, prev: nat)
    requires 2 <= max <= |t| && max <= 0xFF0
  {
    var cs := Picks(t, 2, max, i);
    && |cs| == i && |t2| == |t| && prev < |t|
    && t2 == Linked(t, cs) && prev == Last(cs) && first == if cs == [] then 0 else cs[0]
  }

  lemma {:induction false} AllocatingRound(t: seq<u12>, t2: seq<u12>, max: nat, n: nat, i: nat, first: nat, prev: nat)
    requires 2 <= max <= |t| && max <= 0xFF0 && Allocating(t, t2, max, i, first, prev) && i < n
    ensures var c := FirstFree(t2, if prev != 0 then prev + 1 else 2, max);
            && (c == 0 ==> |Picks(t, 2, max, n)| < n)
            && (c != 0 ==> Allocating(t, Joined(t2, prev, c), max, i + 1, if first == 0 then c else first, c))
  {
    hide Picks, Linked, Joined, FirstFree;
    AllocRound(t, max, n, Picks(t, 2, max, i));
  }

  lemma {:induction false} AllocatingRollback(t: seq<u12>, t2: seq<u12>, max: nat, i: nat, first: nat, prev: nat)
    requires 2 <= max <= |t| && max <= 0xFF0 && Allocating(t, t2, max, i, first, prev) && LinksInside(t)
    ensures LinksInside(t2) && (Stops(first) || first < |t2|) && Freed(t2, first) == t
    ensures first == 0 ==> t2 == t
  {
    PicksAscendFree(t, 2, max, i);
    if i > 0 {
      RollbackRestores(t, max, Picks(t, 2, max, i));
    }
  }

  lemma {:induction false} AllocatingDone(t: seq<u12>, t2: seq<u12>, max: nat, n: nat, first: nat, prev: nat)
    requires 2 <= max <= |t| && max <= 0xFF0 && Allocating(t, t2, max, n, first, prev) && 0 < n
    ensures AllocatedOrNot(t, t2, max, n, first)
  {
  }
}

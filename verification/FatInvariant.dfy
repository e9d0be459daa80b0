/**
 Who owns which cluster, and that every operation keeps it so.
 */
module FatInvariant {
  import opened Bytes
  import opened Common
  import opened FatTable
  import opened FatChains
  import opened FatDirectory
  import opened FatVolume
  import opened FatDisk

  // `cs` is the chain of entry `e`: empty for vacant slots and empty files, otherwise a
  // whole chain from its first cluster, long enough for its size.
  ghost predicate Holds(t: seq<u12>, max: nat, e: Dirent, cs: seq<nat>) {
    if !e.Live() then cs == []
    else if cs == [] then e.first == 0 && e.size == 0
    else IsChain(t, max, cs) && cs[0] == e.first && e.size <= 512 * |cs|
  }

  ghost predicate Disjoint(chains: seq<seq<nat>>) {
    forall i, j, c :: 0 <= i < |chains| && 0 <= j < |chains| && i != j && c in chains[i] ==> c !in chains[j]
  }

  ghost predicate OnSome(chains: seq<seq<nat>>, c: nat) {
    exists i :: 0 <= i < |chains| && c in chains[i]
  }

  // One chain per slot; no cluster on two chains; every allocated cluster on some chain.
  ghost predicate Owned(t: seq<u12>, max: nat, s: seq<Dirent>, chains: seq<seq<nat>>) {
    && |chains| == |s|
    && (forall i :: 0 <= i < |s| ==> Holds(t, max, s[i], chains[i]))
    && Disjoint(chains)
    && (forall c :: 2 <= c < max && At(t, c) != 0 ==> OnSome(chains, c))
  }

  ghost predicate DirectoryOk(s: seq<Dirent>, max: nat) {
    && EndMarked(s) && NamesUnique(s)
    && forall i :: 0 <= i < |s| ==> Stops(s[i].first) || s[i].first < max
  }

  ghost predicate OwnedBy(v: Volume, chains: seq<seq<nat>>) {
    && v.Safe()
    && DirectoryOk(v.dir, v.g.MaxCluster())
    && Owned(v.table, v.g.MaxCluster(), v.dir, chains)
  }

  // The volume invariant.
  ghost predicate Inv(v: Volume) {
    exists chains :: OwnedBy(v, chains)
  }

  // ---------------------------------------------------------------- one slot changes hands

  lemma {:induction false} ChainEntriesUsed(t: seq<u12>, max: nat, cs: seq<nat>, c: nat)
    requires IsChain(t, max, cs) && c in cs
    ensures 2 <= c < max && At(t, c) != 0
  {
    var i :| 0 <= i < |cs| && cs[i] == c;
    if i < |cs| - 1 { assert At(t, cs[i]) == cs[i + 1]; }
  }

  // A chain none of whose entries changed is still a chain.
  lemma ChainKept(t: seq<u12>, t2: seq<u12>, max: nat, cs: seq<nat>)
    requires IsChain(t, max, cs)
    requires forall c :: c in cs ==> At(t2, c) == At(t, c)
    ensures IsChain(t2, max, cs)
  {
  }

  // Slot `k` gives up its chain and takes over `cs`, made of clusters that were free or its
  // own; nobody else's entry changes and nothing it gave up stays allocated.
  lemma {:induction false} Reassign(t: seq<u12>, max: nat, s: seq<Dirent>, chains: seq<seq<nat>>,
                                    k: nat, t2: seq<u12>, e: Dirent, cs: seq<nat>)
    requires Owned(t, max, s, chains) && k < |s|
    requires Holds(t2, max, e, cs)
    requires forall c :: c in cs ==> At(t, c) == 0 || c in chains[k]
    requires forall c :: 2 <= c < max && c !in cs ==> At(t2, c) == if c in chains[k] then 0 else At(t, c)
    ensures Owned(t2, max, s[k := e], chains[k := cs])
  {
    var s2, ch := s[k := e], chains[k := cs];
    forall i | 0 <= i < |s| && i != k
      ensures Holds(t2, max, s[i], chains[i])
      ensures forall c :: c in chains[i] ==> c !in cs
    {
      if chains[i] != [] {
        forall c | c in chains[i]
          ensures c !in cs && At(t2, c) == At(t, c)
        {
          ChainEntriesUsed(t, max, chains[i], c);
        }
        ChainKept(t, t2, max, chains[i]);
      }
    }
    forall c | 2 <= c < max && At(t2, c) != 0
      ensures OnSome(ch, c)
    {
      StillOnSome(t, max, s, chains, k, cs, c);
    }
  }

  lemma {:induction false} StillOnSome(t: seq<u12>, max: nat, s: seq<Dirent>, chains: seq<seq<nat>>, k: nat,
                                       cs: seq<nat>, c: nat)
    requires Owned(t, max, s, chains) && k < |s| && 2 <= c < max
    requires c in cs || (c !in chains[k] && At(t, c) != 0)
    ensures OnSome(chains[k := cs], c)
  {
    hide Holds;
    var ch := chains[k := cs];
    if c in cs {
      assert c in ch[k];
    } else {
      assert OnSome(chains, c);
      var i :| 0 <= i < |chains| && c in chains[i];
      assert c in ch[i];
    }
  }

  // ---------------------------------------------------------------- allocation against owners

  // New clusters linked in: the chain is whole and nothing else moved.
  lemma {:induction false} Grown(t: seq<u12>, max: nat, cs: seq<nat>)
    requires max <= |t| && max <= 0xFF0
    requires Distinct(cs) && Within(cs, 2, max) && AllFree(t, cs)
    ensures cs != [] ==> IsChain(Linked(t, cs), max, cs)
    ensures forall c :: c !in cs ==> At(Linked(t, cs), c) == At(t, c)
    ensures forall c :: c in cs ==> At(t, c) == 0
  {
    LinkedChain(t, cs);
    forall c | c in cs
      ensures At(t, c) == 0
    {
      var i :| 0 <= i < |cs| && cs[i] == c;
    }
  }

  // What committing does to the table when the slot's old chain is `prev`.
  lemma {:induction false} Replaced(t: seq<u12>, max: nat, cs: seq<nat>, prev: seq<nat>)
    requires max <= |t| && max <= 0xFF0 && LinksInside(t)
    requires Distinct(cs) && Within(cs, 2, max) && AllFree(t, cs)
    requires IsChain(t, max, prev)
    ensures LinksInside(Linked(t, cs))
    ensures prev[0] !in cs
    ensures var t2 := Freed(Linked(t, cs), prev[0]);
            && (cs != [] ==> IsChain(t2, max, cs))
            && forall c :: 2 <= c < max && c !in cs ==> At(t2, c) == if c in prev then 0 else At(t, c)
  {
    var t1 := Linked(t, cs);
    Grown(t, max, cs);
    LinkedInside(t, cs);
    forall c | c in prev
      ensures c !in cs && At(t1, c) == At(t, c)
    {
      ChainEntriesUsed(t, max, prev, c);
    }
    ChainKept(t, t1, max, prev);
    FreedChain(t1, max, prev);
    if cs != [] {
      ChainKept(t1, Freed(t1, prev[0]), max, cs);
    }
  }

  // ---------------------------------------------------------------- the directory

  // A new entry in the first vacant slot, under a name nobody has.
  lemma {:induction false} EntryAdded(s: seq<Dirent>, max: nat, name: CString, e: Dirent)
    requires DirectoryOk(s, max) && Find(s, Format(name)).Miss? && VacantSlot(s).Hit?
    requires e.name == Format(name) && (Stops(e.first) || e.first < max)
    ensures DirectoryOk(s[VacantSlot(s).slot := e], max)
  {
    FormatIsFolded(name);
    FindIsComplete(s, Format(name), 0);
  }

  // ---------------------------------------------------------------- effects of a step

  // Slot `i` keeps its entry, its chain and the data on it.
  ghost predicate SlotKept(v: Volume, v2: Volume, chains: seq<seq<nat>>, chains2: seq<seq<nat>>, i: nat)
    requires v.Formed() && v2.Formed() && v2.g == v.g
    requires i < |v.dir| && i < |v2.dir| && i < |chains| && i < |chains2|
  {
    && v2.dir[i] == v.dir[i]
    && chains2[i] == chains[i]
    && forall c :: c in chains[i] ==>
         && At(v2.table, c) == At(v.table, c)
         && 0 <= v.g.Lba(c) < v.g.totalSectors
         && v2.disk.sectors[v.g.Lba(c)] == v.disk.sectors[v.g.Lba(c)]
  }

  // Slot `i` belongs to `wanted` or to nobody, before and after.
  predicate SlotMine(v: Volume, v2: Volume, i: nat, wanted: Name)
    requires i < |v.dir| && i < |v2.dir|
  {
    && (v.dir[i].Live() ==> Matches(v.dir[i].name, wanted))
    && (v2.dir[i].Live() ==> Matches(v2.dir[i].name, wanted))
  }

  // An operation on `wanted` left the volume well owned and every other entry alone.
  ghost predicate Effect(v: Volume, v2: Volume, chains: seq<seq<nat>>, chains2: seq<seq<nat>>, wanted: Name) {
    && v2.g == v.g
    && OwnedBy(v, chains) && OwnedBy(v2, chains2)
    && forall i :: 0 <= i < |v.dir| ==> SlotKept(v, v2, chains, chains2, i) || SlotMine(v, v2, i, wanted)
  }

  lemma {:induction false} ChainOnDisk(v: Volume, chains: seq<seq<nat>>, i: nat, c: nat)
    requires OwnedBy(v, chains) && i < |chains| && c in chains[i]
    ensures 2 <= c < v.g.MaxCluster() && At(v.table, c) != 0
    ensures v.g.DataStart() <= v.g.Lba(c) < v.g.totalSectors
  {
    ChainEntriesUsed(v.table, v.g.MaxCluster(), chains[i], c);
    ClusterOnDisk(v.g, c);
  }

  // A non-empty live file owns a whole chain from its first cluster.
  lemma OwnedChain(v: Volume, chains: seq<seq<nat>>, i: nat)
    requires OwnedBy(v, chains) && i < |v.dir| && v.dir[i].Live() && v.dir[i].size > 0
    ensures i < |chains| && IsChain(v.table, v.g.MaxCluster(), chains[i]) && chains[i][0] == v.dir[i].first
  {
  }

  // Only sectors of free clusters, or of the FAT and root areas, were written.
  ghost predicate OwnedDataKept(v: Volume, d: Disk, chains: seq<seq<nat>>)
    requires v.Formed()
  {
    && |d.sectors| == |v.disk.sectors|
    && forall i, c :: 0 <= i < |chains| && c in chains[i] && 0 <= v.g.Lba(c) < v.g.totalSectors ==>
         d.sectors[v.g.Lba(c)] == v.disk.sectors[v.g.Lba(c)]
  }

  // Nothing but the disk changed.
  lemma {:induction false} DiskOnlySlot(v: Volume, d: Disk, chains: seq<seq<nat>>, i: nat)
    requires OwnedBy(v, chains) && OwnedDataKept(v, d, chains) && i < |v.dir|
    ensures v.(disk := d).Formed() && |chains| == |v.dir| && SlotKept(v, v.(disk := d), chains, chains, i)
  {
    forall c | c in chains[i]
      ensures 0 <= v.g.Lba(c) < v.g.totalSectors && d.sectors[v.g.Lba(c)] == v.disk.sectors[v.g.Lba(c)]
    {
      ChainOnDisk(v, chains, i, c);
    }
  }

  lemma {:induction false} DiskOnly(v: Volume, d: Disk, chains: seq<seq<nat>>, wanted: Name)
    requires OwnedBy(v, chains) && OwnedDataKept(v, d, chains)
    ensures Effect(v, v.(disk := d), chains, chains, wanted)
    ensures OwnedBy(v.(disk := d), chains)
  {
    hide SlotKept;
    forall i | 0 <= i < |v.dir|
      ensures |chains| == |v.dir| && SlotKept(v, v.(disk := d), chains, chains, i)
    {
      DiskOnlySlot(v, d, chains, i);
    }
  }

  // One slot was rewritten, with the matching change of the table.
  lemma {:induction false} SlotRewritten(v: Volume, v2: Volume, chains: seq<seq<nat>>, k: nat, cs: seq<nat>,
                                         wanted: Name)
    requires OwnedBy(v, chains) && v2.Safe() && v2.g == v.g && k < |v.dir|
    requires v2.dir == v.dir[k := v2.dir[k]] && DirectoryOk(v2.dir, v.g.MaxCluster())
    requires Holds(v2.table, v.g.MaxCluster(), v2.dir[k], cs)
    requires forall c :: c in cs ==> At(v.table, c) == 0 || c in chains[k]
    requires forall c :: 2 <= c < v.g.MaxCluster() && c !in cs ==>
               At(v2.table, c) == if c in chains[k] then 0 else At(v.table, c)
    requires OwnedDataKept(v, v2.disk, chains)
    requires SlotMine(v, v2, k, wanted)
    ensures Effect(v, v2, chains, chains[k := cs], wanted)
  {
    hide DirectoryOk, Holds;
    var ch := chains[k := cs];
    Reassign(v.table, v.g.MaxCluster(), v.dir, chains, k, v2.table, v2.dir[k], cs);
    forall i | 0 <= i < |v.dir| && i != k
      ensures SlotKept(v, v2, chains, ch, i)
    {
      forall c | c in chains[i]
        ensures At(v2.table, c) == At(v.table, c) && 0 <= v.g.Lba(c) < v.g.totalSectors
        ensures v2.disk.sectors[v.g.Lba(c)] == v.disk.sectors[v.g.Lba(c)]
      {
        ChainOnDisk(v, chains, i, c);
      }
    }
  }

  // Writing along free clusters and flushing leave owned data alone.
  lemma {:induction false} FreeWritesKeepOwned(v: Volume, d: Disk, chains: seq<seq<nat>>, cs: seq<nat>)
    requires OwnedBy(v, chains) && |d.sectors| == |v.disk.sectors|
    requires forall c :: c in cs ==> At(v.table, c) == 0
    requires forall j :: v.g.DataStart() <= j < |d.sectors| && (forall x :: x in cs ==> v.g.Lba(x) != j) ==>
               d.sectors[j] == v.disk.sectors[j]
    ensures OwnedDataKept(v, d, chains)
  {
    forall i, c | 0 <= i < |chains| && c in chains[i] && 0 <= v.g.Lba(c) < v.g.totalSectors
      ensures d.sectors[v.g.Lba(c)] == v.disk.sectors[v.g.Lba(c)]
    {
      ChainOnDisk(v, chains, i, c);
      assert c !in cs;
      forall x | x in cs
        ensures v.g.Lba(x) != v.g.Lba(c)
      {
      }
    }
  }

  // Persisting afterwards does not disturb the effect.
  lemma {:induction false} EffectThenFlush(v: Volume, v1: Volume, v2: Volume, chains: seq<seq<nat>>,
                                           chains2: seq<seq<nat>>, wanted: Name)
    requires Effect(v, v1, chains, chains2, wanted)
    requires v2 == v1.(disk := v2.disk) && SameData(v1, v2)
    ensures Effect(v, v2, chains, chains2, wanted)
  {
    forall i | 0 <= i < |v.dir| && SlotKept(v, v1, chains, chains2, i)
      ensures SlotKept(v, v2, chains, chains2, i)
    {
      forall c | c in chains[i]
        ensures v2.disk.sectors[v.g.Lba(c)] == v.disk.sectors[v.g.Lba(c)]
      {
        ChainOnDisk(v, chains, i, c);
      }
    }
  }
}

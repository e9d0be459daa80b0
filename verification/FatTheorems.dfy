/**
 The promises of the FAT12 driver over whole runs: the volume invariant, exactly when a write
 keeps it, read-back with frame, and agreement of memory and disk.
 */
module FatTheorems {
  import opened Bytes
  import opened FatTable
  import opened FatChains
  import opened FatDirectory
  import opened FatVolume
  import opened FatDisk
  import opened FatInvariant
  import opened FatSteps

  // ---------------------------------------------------------------- the invariant over runs

  // Excluded is only what goes through and either reuses a slot with a harmful stale field or
  // allocates under a name whose first byte is the deletion mark.
  ghost predicate Admissible(v: Volume, env: Env, op: Op)
    requires v.Safe() && op.Valid()
  {
    match op
    case Write(name, data) =>
      Commits(v, env, name, data) ==> SlotClean(v, name, |data|) && (Format(name)[0] != DELETED || data == [])
    case Mkdir(name) => MakesDir(v, env, name) ==> Format(name)[0] != DELETED
    case Create(_) => true
    case Delete(_) => true
  }

  ghost predicate RunAdmissible(v: Volume, env: Env, ops: seq<Op>)
    requires v.Safe() && forall i :: 0 <= i < |ops| ==> ops[i].Valid()
    decreases |ops|
  {
    ops == [] || (Admissible(v, env, ops[0]) && RunAdmissible(Step(v, env, ops[0]).vol, env, ops[1..]))
  }

  lemma {:induction false} StepEffect(v: Volume, env: Env, op: Op, chains: seq<seq<nat>>)
    returns (chains2: seq<seq<nat>>)
    requires OwnedBy(v, chains) && op.Valid() && Admissible(v, env, op)
    ensures Effect(v, Step(v, env, op).vol, chains, chains2, Format(op.name))
  {
    match op
    case Create(name) => chains2 := CreateFileEffect(v, env, name, chains);
    case Write(name, data) => chains2 := WriteFileEffect(v, env, name, data, chains);
    case Mkdir(name) => chains2 := CreateDirEffect(v, env, name, chains);
    case Delete(name) => chains2 := DeleteFileEffect(v, env, name, chains);
  }

  // Over every run of create, write, mkdir and delete, with any transfers failing: each
  // cluster is free or on exactly one live entry's chain, and chains are whole.
  lemma {:induction false} RunKeepsInvariant(v: Volume, env: Env, ops: seq<Op>)
    requires Inv(v) && forall i :: 0 <= i < |ops| ==> ops[i].Valid()
    requires RunAdmissible(v, env, ops)
    ensures Inv(Run(v, env, ops))
    decreases |ops|
  {
    if ops != [] {
      var chains :| OwnedBy(v, chains);
      var chains2 := StepEffect(v, env, ops[0], chains);
      RunKeepsInvariant(Step(v, env, ops[0]).vol, env, ops[1..]);
    }
  }

  // ---------------------------------------------------------------- when a write breaks it

  // `oc2` follows the same links as `oc` up to the severed cluster, which no chain may hold.
  lemma {:induction false} Follows(t1: seq<u12>, t2: seq<u12>, max: nat, oc: seq<nat>, oc2: seq<nat>, k: nat, j: nat)
    requires IsChain(t1, max, oc) && IsChain(t2, max, oc2) && oc2[0] == oc[0] && max <= 0xFF0
    requires j <= k < |oc| && forall i :: 0 <= i < k ==> At(t2, oc[i]) == At(t1, oc[i])
    ensures j < |oc2| && oc2[j] == oc[j]
    decreases j
  {
    if j > 0 {
      Follows(t1, t2, max, oc, oc2, k, j - 1);
      assert At(t1, oc[j - 1]) == oc[j];
    }
  }

  lemma {:induction false} SuffixChain(t: seq<u12>, max: nat, cs: seq<nat>, k: nat)
    requires IsChain(t, max, cs) && k < |cs|
    ensures IsChain(t, max, cs[k..])
  {
    var r := cs[k..];
    assert forall i :: 0 <= i < |r| ==> r[i] == cs[i + k];
    assert r[|r| - 1] == cs[|cs| - 1];
  }

  // Freeing from the middle of a chain leaves no whole chain at its first cluster.
  lemma {:induction false} SeveredChain(t1: seq<u12>, max: nat, oc: seq<nat>, k: nat, oc2: seq<nat>)
    requires IsChain(t1, max, oc) && max <= |t1| && max <= 0xFF0 && LinksInside(t1) && k < |oc|
    ensures IsChain(Freed(t1, oc[k]), max, oc2) ==> oc2[0] != oc[0]
  {
    var t2 := Freed(t1, oc[k]);
    SuffixChain(t1, max, oc, k);
    FreedChain(t1, max, oc[k..]);
    assert oc[k] in oc[k..] by { assert oc[k..][0] == oc[k]; }
    if IsChain(t2, max, oc2) && oc2[0] == oc[0] {
      Follows(t1, t2, max, oc, oc2, k, k);
      ChainEntriesUsed(t2, max, oc2, oc[k]);
    }
  }

  // The chain that an unclean slot makes the write cut: `idx` owns it afterwards.
  lemma {:induction false} VictimOf(v: Volume, name: CString, size: u32, chains: seq<seq<nat>>)
    returns (idx: nat, oc: seq<nat>, k: nat)
    requires OwnedBy(v, chains) && Fits(v, size) && !SlotClean(v, name, size)
    ensures var slot := VacantSlot(v.dir).slot;
            var f, cs := v.dir[slot].first, Space(v, size);
            && Find(v.dir, Format(name)).Miss? && VacantSlot(v.dir).Hit?
            && f >= 2 && f < v.g.MaxCluster() && f != Head(cs)
            && idx < |v.dir| && k < |oc| && oc[k] == f
            && IsChain(Linked(v.table, cs), v.g.MaxCluster(), oc)
            && (if idx == slot then oc == cs else oc == chains[idx])
  {
    hide Find, VacantSlot, Format, Linked, IsChain;
    var slot, max := VacantSlot(v.dir).slot, v.g.MaxCluster();
    var t, f, cs, n := v.table, v.dir[slot].first, Space(v, size), ClustersFor(size);
    Grown(t, max, cs);
    if At(t, f) != 0 {
      idx :| 0 <= idx < |chains| && f in chains[idx];
      oc := chains[idx];
      VictimKept(t, Linked(t, cs), max, oc, cs);
    } else {
      idx, oc := slot, cs;
      PicksAreLowest(t, 2, max, n, f);
      if f == Head(cs) {
        NoneFree(t, 2, f);
      }
    }
    k :| 0 <= k < |oc| && oc[k] == f;
  }

  // A chain has no free cluster, so filling free ones leaves it whole.
  lemma {:induction false} VictimKept(t: seq<u12>, t2: seq<u12>, max: nat, oc: seq<nat>, cs: seq<nat>)
    requires IsChain(t, max, oc) && |t2| == |t| && forall c :: c in cs ==> At(t, c) == 0
    requires forall c :: c !in cs ==> At(t2, c) == At(t, c)
    ensures IsChain(t2, max, oc)
  {
    forall c | c in oc
      ensures At(t2, c) == At(t, c)
    {
      ChainEntriesUsed(t, max, oc, c);
    }
    ChainKept(t, t2, max, oc);
  }

  // An unclean slot breaks the volume: the write cuts its own new chain or another file's.
  lemma {:induction false} UncleanSlotBreaks(v: Volume, env: Env, name: CString, data: seq<byte>)
    requires Inv(v) && |data| < TWO32 && Commits(v, env, name, data)
    requires !SlotClean(v, name, |data|)
    ensures !Inv(WriteFile(v, env, name, data).vol)
  {
    hide Linked, PutChain, FlushBoth, Find, VacantSlot, Format, WriteFile;
    var chains :| OwnedBy(v, chains);
    var idx, oc, k := VictimOf(v, name, |data|, chains);
    var v2 := WriteFile(v, env, name, data).vol;
    CommittedIs(v, env, name, data);
    FormatIsFolded(name);
    var cs := Space(v, |data|);
    assert v2.table == Freed(Linked(v.table, cs), oc[k]);
    Grown(v.table, v.g.MaxCluster(), cs);
    forall chains2
      ensures !OwnedBy(v2, chains2)
    {
      CutIsNotOwned(v, Linked(v.table, cs), v2, chains, chains2, cs, idx, oc, k);
    }
  }

  // A new chain cut behind its head keeps the head allocated and touches nothing else.
  lemma {:induction false} CutOrphan(t: seq<u12>, t1: seq<u12>, max: nat, cs: seq<nat>, k: nat)
    requires IsChain(t1, max, cs) && 0 < k < |cs| && max <= |t1| && max <= 0xFF0 && LinksInside(t1)
    requires forall c :: c !in cs ==> At(t1, c) == At(t, c)
    ensures var t2 := Freed(t1, cs[k]);
            && 2 <= cs[0] < max && At(t2, cs[0]) != 0
            && forall c :: 2 <= c < max && c !in cs ==> At(t2, c) == At(t, c)
  {
    SuffixChain(t1, max, cs, k);
    FreedChain(t1, max, cs[k..]);
    assert cs[0] in cs && cs[0] !in cs[k..];
    ChainEntriesUsed(t1, max, cs, cs[0]);
    assert forall c :: c in cs[k..] ==> c in cs;
  }

  // After the cut nobody's chains account for the volume.
  lemma {:induction false} CutIsNotOwned(v: Volume, t1: seq<u12>, v2: Volume, chains: seq<seq<nat>>,
                                         chains2: seq<seq<nat>>, cs: seq<nat>, idx: nat, oc: seq<nat>, k: nat)
    requires OwnedBy(v, chains) && v2.g == v.g && idx < |v.dir| == |v2.dir| && k < |oc| && |t1| == |v.table|
    requires LinksInside(t1) && IsChain(t1, v.g.MaxCluster(), oc) && v2.table == Freed(t1, oc[k])
    requires (forall c :: c !in cs ==> At(t1, c) == At(v.table, c)) && forall c :: c in cs ==> At(v.table, c) == 0
    requires if v2.dir[idx].Live() then v2.dir[idx].first == oc[0]
             else oc == cs && k > 0 && v2.dir == v.dir[idx := v2.dir[idx]]
    ensures !OwnedBy(v2, chains2)
  {
    var max := v.g.MaxCluster();
    if v2.dir[idx].Live() {
      if OwnedBy(v2, chains2) {
        SeveredChain(t1, max, oc, k, chains2[idx]);
      }
    } else {
      CutOrphan(v.table, t1, max, cs, k);
      OrphanIsNotOwned(v.table, v2.table, max, v.dir, v2.dir, chains, chains2, cs, idx);
    }
  }

  // A write that commits keeps the invariant if and only if the slot it picks is clean and a
  // name that starts with the deletion mark gets no data.
  lemma {:induction false} WriteKeepsInvariantIff(v: Volume, env: Env, name: CString, data: seq<byte>)
    requires Inv(v) && |data| < TWO32 && Commits(v, env, name, data)
    ensures Inv(WriteFile(v, env, name, data).vol) <==>
              SlotClean(v, name, |data|) && (Format(name)[0] != DELETED || data == [])
  {
    hide Format, WriteFile;
    if !SlotClean(v, name, |data|) {
      UncleanSlotBreaks(v, env, name, data);
    } else if Format(name)[0] == DELETED && data != [] {
      DeletionMarkNameLeaks(v, env, name, data);
    } else {
      var chains :| OwnedBy(v, chains);
      var chains2 := WriteFileEffect(v, env, name, data, chains);
    }
  }

  // Chains of live files survive a committed write; seen from the new table they are the only
  // chains at their first clusters.
  lemma {:induction false} OldChainsPersist(t: seq<u12>, t2: seq<u12>, max: nat, s: seq<Dirent>, chains: seq<seq<nat>>,
                                            cs: seq<nat>, i: nat, oc: seq<nat>)
    requires Owned(t, max, s, chains) && max <= 0xFF0 && i < |s| && chains[i] != []
    requires forall c :: c in cs ==> At(t, c) == 0
    requires forall c :: 2 <= c < max && c !in cs ==> At(t2, c) == At(t, c)
    requires IsChain(t2, max, oc) && oc[0] == chains[i][0]
    ensures forall c :: c in cs ==> c !in oc
  {
    forall c | c in chains[i]
      ensures At(t2, c) == At(t, c) && At(t, c) != 0
    {
      ChainEntriesUsed(t, max, chains[i], c);
    }
    ChainKept(t, t2, max, chains[i]);
    forall c | c in oc
      ensures c in chains[i]
    {
      var j :| 0 <= j < |oc| && oc[j] == c;
      ChainsAgree(t2, max, oc, chains[i], j);
    }
  }

  // A chain stored in a slot that is not live belongs to nobody.
  lemma {:induction false} OrphanIsNotOwned(t: seq<u12>, t2: seq<u12>, max: nat, s: seq<Dirent>, s2: seq<Dirent>,
                                            chains: seq<seq<nat>>, chains2: seq<seq<nat>>, cs: seq<nat>, slot: nat)
    requires Owned(t, max, s, chains) && max <= 0xFF0
    requires slot < |s| == |s2| && s2 == s[slot := s2[slot]] && !s2[slot].Live()
    requires cs != [] && 2 <= cs[0] < max && At(t2, cs[0]) != 0
    requires forall c :: c in cs ==> At(t, c) == 0
    requires forall c :: 2 <= c < max && c !in cs ==> At(t2, c) == At(t, c)
    ensures !Owned(t2, max, s2, chains2)
  {
    if Owned(t2, max, s2, chains2) {
      assert cs[0] in cs;
      var i :| 0 <= i < |chains2| && cs[0] in chains2[i];
      OldChainsPersist(t, t2, max, s, chains, cs, i, chains2[i]);
    }
  }

  // A name that starts with the deletion mark: what it allocates belongs to nobody.
  lemma {:induction false} DeletionMarkNameLeaks(v: Volume, env: Env, name: CString, data: seq<byte>)
    requires Inv(v) && 0 < |data| < TWO32 && Commits(v, env, name, data)
    requires Format(name)[0] == DELETED && SlotClean(v, name, |data|)
    ensures !Inv(WriteFile(v, env, name, data).vol)
  {
    hide VacantSlot, Format, WriteFile, Find, Space, SlotOf, Owned, DirectoryOk;
    var chains :| OwnedBy(v, chains);
    var v2, cs, slot := WriteFile(v, env, name, data).vol, Space(v, |data|), SlotOf(v, name);
    var hit := Find(v.dir, Format(name));
    assert hit.Miss? by {
      if hit.Hit? { DeletedNeverMatches(v.dir[hit.slot], Format(name)); }
    }
    CommitOutcome(v, env, name, data, chains);
    SpaceSuffices(v, |data|);
    ChainEntriesUsed(v2.table, v.g.MaxCluster(), cs, cs[0]);
    forall chains2
      ensures !OwnedBy(v2, chains2)
    {
      OrphanIsNotOwned(v.table, v2.table, v.g.MaxCluster(), v.dir, v2.dir, chains, chains2, cs, slot);
    }
  }

  // ---------------------------------------------------------------- clean slots

  // Making a directory keeps the invariant if and only if its name does not start with the
  // deletion mark.
  lemma {:induction false} MkdirKeepsInvariantIff(v: Volume, env: Env, name: CString)
    requires Inv(v) && MakesDir(v, env, name)
    ensures Inv(CreateDir(v, env, name).vol) <==> Format(name)[0] != DELETED
  {
    hide Linked, Put, FlushBoth, Find, VacantSlot, Format, DirBody;
    var chains :| OwnedBy(v, chains);
    if Format(name)[0] != DELETED {
      var chains2 := CreateDirEffect(v, env, name, chains);
    } else {
      var v2, cs, max, slot := CreateDir(v, env, name).vol, Space(v, 512), v.g.MaxCluster(), VacantSlot(v.dir).slot;
      Grown(v.table, max, cs);
      ChainEntriesUsed(Linked(v.table, cs), max, cs, cs[0]);
      forall chains2
        ensures !OwnedBy(v2, chains2)
      {
        OrphanIsNotOwned(v.table, v2.table, max, v.dir, v2.dir, chains, chains2, cs, slot);
      }
    }
  }

  // Every single operation keeps the invariant if and only if it is admissible.
  lemma {:induction false} StepKeepsInvariantIff(v: Volume, env: Env, op: Op)
    requires Inv(v) && op.Valid()
    ensures Inv(Step(v, env, op).vol) <==> Admissible(v, env, op)
  {
    hide Format, WriteFile, CreateDir, CreateFile, DeleteFile, Commits, MakesDir, SlotClean;
    var chains :| OwnedBy(v, chains);
    if Admissible(v, env, op) {
      var chains2 := StepEffect(v, env, op, chains);
    } else if op.Write? {
      WriteKeepsInvariantIff(v, env, op.name, op.data);
    } else {
      MkdirKeepsInvariantIff(v, env, op.name);
    }
  }

  // The invariant holds at the start of a run and after each of its operations.
  ghost predicate SoundThroughout(v: Volume, env: Env, ops: seq<Op>)
    requires v.Safe() && forall i :: 0 <= i < |ops| ==> ops[i].Valid()
    decreases |ops|
  {
    Inv(v) && (ops == [] || SoundThroughout(Step(v, env, ops[0]).vol, env, ops[1..]))
  }

  // A run from a sound volume stays sound if and only if every operation of it is admissible
  // where it happens.
  lemma {:induction false} RunStaysSoundIff(v: Volume, env: Env, ops: seq<Op>)
    requires v.Safe() && Inv(v) && forall i :: 0 <= i < |ops| ==> ops[i].Valid()
    ensures SoundThroughout(v, env, ops) <==> RunAdmissible(v, env, ops)
    decreases |ops|
  {
    hide Step, Admissible, Inv;
    if ops != [] {
      StepKeepsInvariantIff(v, env, ops[0]);
      var v1 := Step(v, env, ops[0]).vol;
      if Inv(v1) {
        RunStaysSoundIff(v1, env, ops[1..]);
      }
    }
  }

  lemma NeverUsedSlotIsClean(v: Volume, name: CString, size: u32)
    requires VacantSlot(v.dir).Hit? && v.dir[VacantSlot(v.dir).slot].first == 0
    ensures SlotClean(v, name, size)
  {
  }

  // In a directory without duplicates a live matching slot is the one that is found.
  lemma {:induction false} FoundIsUnique(s: seq<Dirent>, wanted: Name, k: nat)
    requires EndMarked(s) && NamesUnique(s) && k < |s| && s[k].Live() && Matches(s[k].name, wanted)
    ensures Find(s, wanted) == Hit(k)
  {
    FindIsComplete(s, wanted, 0);
  }

  // Creating a file first makes the following write to it safe, with no condition on slots.
  lemma {:induction false} CreateThenWriteIsClean(v: Volume, env: Env, name: CString, size: u32)
    requires Inv(v) && CreateFile(v, env, name).ok && Format(name)[0] != DELETED
    ensures SlotClean(CreateFile(v, env, name).vol, name, size)
  {
    hide FlushRoot, Format, VacantSlot;
    var chains :| OwnedBy(v, chains);
    var chains2 := CreateFileEffect(v, env, name, chains);
    FormatIsFolded(name);
    FoundIsUnique(CreateFile(v, env, name).vol.dir, Format(name), VacantSlot(v.dir).slot);
  }

  // ---------------------------------------------------------------- read-back and frame

  lemma {:induction false} ReadsContent(v: Volume, env: Env, i: nat, cs: seq<nat>)
    requires v.Formed() && i < |v.dir| && v.dir[i].size > 0
    requires IsChain(v.table, v.g.MaxCluster(), cs) && cs[0] == v.dir[i].first
    ensures var r := ReadFile(v, env, v.dir[i]);
            && (r.ok ==> r.data == Content(v.disk.sectors, v.g, cs, v.dir[i].size))
            && (AllDone(env) ==> r.ok)
  {
    GetChainReads(v.disk, env, v.g, v.table, cs, cs[0], v.dir[i].size);
  }

  lemma {:induction false} FlushKeepsContent(v: Volume, env: Env, cs: seq<nat>, size: nat)
    requires v.Formed() && Within(cs, 2, v.g.MaxCluster())
    ensures var after := FlushBoth(v, env).vol.disk.sectors;
            && |after| == |v.disk.sectors| >= v.g.totalSectors
            && Content(after, v.g, cs, size) == Content(v.disk.sectors, v.g, cs, size)
  {
    hide FlushBoth, Content;
    FlushKeepsData(v, env);
    forall c | c in cs
      ensures v.g.DataStart() <= v.g.Lba(c) < v.g.totalSectors
    {
      ClusterOnDisk(v.g, c);
    }
    ContentKept(v.disk.sectors, FlushBoth(v, env).vol.disk.sectors, v.g, cs, size);
  }

  lemma {:induction false} WrittenContent(v: Volume, env: Env, name: CString, data: seq<byte>)
    requires Inv(v) && |data| < TWO32 && Commits(v, env, name, data)
    ensures Content(WriteFile(v, env, name, data).vol.disk.sectors, v.g, Space(v, |data|), |data|) == data
  {
    hide Linked, PutChain, FlushBoth, VacantSlot, Format, WriteFile, Find, Committed, Content;
    var cs, max := Space(v, |data|), v.g.MaxCluster();
    var t1 := Linked(v.table, cs);
    CommittedIs(v, env, name, data);
    SpaceSuffices(v, |data|);
    Grown(v.table, max, cs);
    var d := PutChain(v.disk, env, v.g, t1, Head(cs), data).disk;
    PutChainStores(v.disk, env, v.g, t1, cs, Head(cs), data);
    var v1 := Committed(v.(disk := d), SlotOf(v, name), Find(v.dir, Format(name)).Miss?, Format(name),
                        t1, Head(cs), |data|);
    FlushKeepsContent(v1, env, cs, |data|);
  }

  // A successful write, then find and read: exactly the data, for every non-empty data.
  lemma {:induction false} WriteThenRead(v: Volume, env: Env, name: CString, data: seq<byte>, env2: Env)
    requires Inv(v) && 0 < |data| < TWO32
    requires Admissible(v, env, Write(name, data))
    requires WriteFile(v, env, name, data).ok
    ensures var v2 := WriteFile(v, env, name, data).vol;
            var hit := Find(v2.dir, Format(name));
            && hit.Hit?
            && v2.dir[hit.slot].size == |data|
            && (ReadFile(v2, env2, v2.dir[hit.slot]).ok ==> ReadFile(v2, env2, v2.dir[hit.slot]).data == data)
            && (AllDone(env2) ==> ReadFile(v2, env2, v2.dir[hit.slot]).ok)
  {
    hide Linked, PutChain, FlushBoth, VacantSlot, Format, Find;
    var chains :| OwnedBy(v, chains);
    var v2, cs, slot := WriteFile(v, env, name, data).vol, Space(v, |data|), SlotOf(v, name);
    assert Commits(v, env, name, data);
    var chains2 := WriteFileEffect(v, env, name, data, chains);
    CommitOutcome(v, env, name, data, chains);
    SpaceSuffices(v, |data|);
    FormatIsFolded(name);
    FoundIsUnique(v2.dir, Format(name), slot);
    WrittenContent(v, env, name, data);
    ReadsContent(v2, env2, slot, cs);
  }

  lemma EmptyReadsNothing(v: Volume, env: Env, e: Dirent)
    requires v.Formed() && e.size == 0
    ensures !ReadFile(v, env, e).ok
  {
  }

  // A kept slot reads back the same.
  lemma {:induction false} KeptSlotReads(v: Volume, v2: Volume, chains: seq<seq<nat>>, chains2: seq<seq<nat>>, i: nat,
                                         a: Env, b: Env)
    requires OwnedBy(v, chains) && OwnedBy(v2, chains2) && v2.g == v.g && i < |v.dir| && v.dir[i].Live()
    requires SlotKept(v, v2, chains, chains2, i)
    ensures var before, after := ReadFile(v, a, v.dir[i]), ReadFile(v2, b, v.dir[i]);
            && (before.ok && after.ok ==> after.data == before.data)
            && (AllDone(a) && AllDone(b) ==> before.ok == after.ok)
  {
    hide ReadFile;
    if v.dir[i].size > 0 {
      ReadsContent(v, a, i, chains[i]);
      ReadsContent(v2, b, i, chains[i]);
      ContentKept(v.disk.sectors, v2.disk.sectors, v.g, chains[i], v.dir[i].size);
    } else {
      EmptyReadsNothing(v, a, v.dir[i]);
      EmptyReadsNothing(v2, b, v.dir[i]);
    }
  }

  // The search for another name is not disturbed.
  lemma {:induction false} OtherNameFound(v: Volume, v2: Volume, chains: seq<seq<nat>>, chains2: seq<seq<nat>>,
                                          wanted: CString, other: CString)
    requires Effect(v, v2, chains, chains2, Format(wanted)) && Format(other) != Format(wanted)
    ensures var hit := Find(v.dir, Format(other));
            && Find(v2.dir, Format(other)) == hit
            && (hit.Hit? ==> SlotKept(v, v2, chains, chains2, hit.slot))
  {
    hide Format;
    FormatIsFolded(other);
    FormatIsFolded(wanted);
    forall k | 0 <= k < |v.dir| && v2.dir[k] != v.dir[k]
      ensures v.dir[k].Live() ==> !Matches(v.dir[k].name, Format(other))
      ensures v2.dir[k].Live() ==> !Matches(v2.dir[k].name, Format(other))
    {
      assert !SlotKept(v, v2, chains, chains2, k);
    }
    FindUnaffected(v.dir, v2.dir, Format(other), 0);
  }

  // Whatever an operation does and however it ends, a file with another 8.3 name is found in
  // the same slot and reads back the same bytes.
  lemma {:induction false} OtherFilesKept(v: Volume, env: Env, op: Op, other: CString, a: Env, b: Env)
    requires Inv(v) && op.Valid() && Admissible(v, env, op)
    requires Format(other) != Format(op.name)
    ensures var v2 := Step(v, env, op).vol;
            var hit := Find(v.dir, Format(other));
            && Find(v2.dir, Format(other)) == hit
            && (hit.Hit? ==>
                  && v2.dir[hit.slot] == v.dir[hit.slot]
                  && var before, after := ReadFile(v, a, v.dir[hit.slot]), ReadFile(v2, b, v.dir[hit.slot]);
                     && (before.ok && after.ok ==> after.data == before.data)
                     && (AllDone(a) && AllDone(b) ==> before.ok == after.ok))
  {
    hide Step, Format, ReadFile, Find;
    var chains :| OwnedBy(v, chains);
    var chains2 := StepEffect(v, env, op, chains);
    var v2 := Step(v, env, op).vol;
    OtherNameFound(v, v2, chains, chains2, op.name, other);
    var hit := Find(v.dir, Format(other));
    if hit.Hit? {
      KeptSlotReads(v, v2, chains, chains2, hit.slot, a, b);
    }
  }

  lemma {:induction false} UncommittedWrite(v: Volume, env: Env, name: CString, data: seq<byte>, chains: seq<seq<nat>>)
    requires OwnedBy(v, chains) && |data| < TWO32 && !Commits(v, env, name, data)
    ensures var r := WriteFile(v, env, name, data);
            !r.ok && r.vol == v.(disk := r.vol.disk) && OwnedDataKept(v, r.vol.disk, chains)
  {
    hide Find, VacantSlot, Format, Linked, PutChain, FlushFat;
    var place := if Find(v.dir, Format(name)).Hit? then Find(v.dir, Format(name)) else VacantSlot(v.dir);
    if place.Hit? && Fits(v, |data|) {
      var cs := Space(v, |data|);
      var w := PutChain(v.disk, env, v.g, Linked(v.table, cs), Head(cs), data);
      DataWriteKeepsOwned(v, env, data, chains);
      WriteRollsBack(v, |data|);
      FlushKeepsData(v.(disk := w.disk), env);
      FreeWritesKeepOwned(v, WriteFile(v, env, name, data).vol.disk, chains, cs);
    }
  }

  // A write that does not get as far as storing the entry leaves the old file intact: the whole
  // directory and table are as before, and every entry, that of the same name included, reads back
  // the same bytes.
  lemma {:induction false} FailedWriteKeeps(v: Volume, env: Env, name: CString, data: seq<byte>, i: nat, a: Env, b: Env)
    requires Inv(v) && |data| < TWO32 && !Commits(v, env, name, data)
    ensures var r := WriteFile(v, env, name, data);
            && !r.ok && r.vol.dir == v.dir && r.vol.table == v.table && Inv(r.vol)
            && (i < |v.dir| && v.dir[i].Live() ==>
                  var before, after := ReadFile(v, a, v.dir[i]), ReadFile(r.vol, b, v.dir[i]);
                  && (before.ok && after.ok ==> after.data == before.data)
                  && (AllDone(a) && AllDone(b) ==> before.ok == after.ok))
  {
    hide WriteFile, ReadFile, Commits, Owned, DirectoryOk, SlotKept, OwnedDataKept;
    var chains :| OwnedBy(v, chains);
    UncommittedWrite(v, env, name, data, chains);
    var v2 := WriteFile(v, env, name, data).vol;
    DiskOnly(v, v2.disk, chains, Format(name));
    if i < |v.dir| && v.dir[i].Live() {
      DiskOnlySlot(v, v2.disk, chains, i);
      KeptSlotReads(v, v2, chains, chains, i, a, b);
    }
  }

  // A deleted name is gone.
  lemma {:induction false} DeleteThenFind(v: Volume, env: Env, name: CString)
    requires Inv(v)
    ensures Find(DeleteFile(v, env, name).vol.dir, Format(name)).Miss?
  {
    hide FlushBoth, Format;
    var chains :| OwnedBy(v, chains);
    var hit := Find(v.dir, Format(name));
    if hit.Hit? {
      FindIsComplete(v.dir, Format(name), 0);
    }
  }
}

/**
 Every driver operation keeps the volume invariant and leaves every other file alone, whatever
 the device does with the transfers.
 */
module FatSteps {
  import opened Bytes
  import opened FatTable
  import opened FatChains
  import opened FatDirectory
  import opened FatVolume
  import opened FatDisk
  import opened FatInvariant

  // ---------------------------------------------------------------- create, delete

  lemma {:induction false} CreateFileEffect(v: Volume, env: Env, name: CString, chains: seq<seq<nat>>)
    returns (chains2: seq<seq<nat>>)
    requires OwnedBy(v, chains)
    ensures Effect(v, CreateFile(v, env, name).vol, chains, chains2, Format(name))
  {
    hide FlushRoot, Find, VacantSlot, Format;
    chains2 := chains;
    var v2 := CreateFile(v, env, name).vol;
    var place := VacantSlot(v.dir);
    if Find(v.dir, Format(name)).Hit? || place.Miss? {
      DiskOnly(v, v.disk, chains, Format(name));
    } else {
      var e := Dirent(Format(name), ATTR_FILE, Zeros(14), 0, 0);
      var v1 := v.(dir := v.dir[place.slot := e]);
      EntryAdded(v.dir, v.g.MaxCluster(), name, e);
      FreeWritesKeepOwned(v, v.disk, chains, []);
      SlotRewritten(v, v1, chains, place.slot, [], Format(name));
      assert chains[place.slot := []] == chains;
      FlushKeepsData(v1, env);
      EffectThenFlush(v, v1, v2, chains, chains, Format(name));
    }
  }

  lemma DeletedDirectory(s: seq<Dirent>, max: nat, k: nat)
    requires DirectoryOk(s, max) && k < |s| && s[k].Live()
    ensures DirectoryOk(s[k := s[k].(name := [DELETED] + s[k].name[1..])], max)
  {
  }

  lemma {:induction false} DeleteFileEffect(v: Volume, env: Env, name: CString, chains: seq<seq<nat>>)
    returns (chains2: seq<seq<nat>>)
    requires OwnedBy(v, chains)
    ensures Effect(v, DeleteFile(v, env, name).vol, chains, chains2, Format(name))
  {
    hide FlushBoth, Find, Format;
    var v2 := DeleteFile(v, env, name).vol;
    var hit := Find(v.dir, Format(name));
    if hit.Miss? {
      chains2 := chains;
      DiskOnly(v, v.disk, chains, Format(name));
    } else {
      var k, max := hit.slot, v.g.MaxCluster();
      var e := v.dir[k];
      chains2 := chains[k := []];
      if e.first >= 2 {
        assert IsChain(v.table, max, chains[k]);
        FreedChain(v.table, max, chains[k]);
      }
      FreedInside(v.table, e.first);
      DeletedDirectory(v.dir, max, k);
      var t1 := if e.first >= 2 then Freed(v.table, e.first) else v.table;
      var v1 := v.(table := t1, dir := v.dir[k := e.(name := [DELETED] + e.name[1..])]);
      FreeWritesKeepOwned(v, v.disk, chains, []);
      SlotRewritten(v, v1, chains, k, [], Format(name));
      FlushKeepsData(v1, env);
      EffectThenFlush(v, v1, v2, chains, chains2, Format(name));
    }
  }

  // ---------------------------------------------------------------- stale first-cluster fields

  // Deleting leaves the first-cluster field of the slot in place, and a write that reuses the
  // slot frees the chain at that stale number `f` after taking its own `n` clusters. That is
  // harmless exactly when `f` is no cluster number, or when `f` is free and, counting free
  // clusters from below, either the first one (then it becomes the new first cluster) or
  // beyond the `n` that are taken.
  ghost predicate Harmless(t: seq<u12>, f: nat, n: nat) {
    || Stops(f)
    || (At(t, f) == 0 && (FreeCount(t, 2, f) == 0 || n <= FreeCount(t, 2, f)))
  }

  // The slot a write of `size` bytes to `name` would reuse is harmless (vacuous when the name
  // exists: then the slot's own chain is freed).
  ghost predicate SlotClean(v: Volume, name: CString, size: u32) {
    Find(v.dir, Format(name)).Miss? && VacantSlot(v.dir).Hit? ==>
      Harmless(v.table, v.dir[VacantSlot(v.dir).slot].first, ClustersFor(size))
  }

  lemma {:induction false} HarmlessFree(v: Volume, size: u32, f: nat)
    requires v.Safe() && Fits(v, size) && (Stops(f) || f < v.g.MaxCluster())
    requires Harmless(v.table, f, ClustersFor(size))
    ensures var cs := Space(v, size);
            var t1 := Linked(v.table, cs);
            LinksInside(t1) && (f == Head(cs) || Freed(t1, f) == t1)
  {
    var cs, max := Space(v, size), v.g.MaxCluster();
    LinkedInside(v.table, cs);
    LinkedChain(v.table, cs);
    if !Stops(f) {
      if size == 0 {
        assert Freed(v.table, f) == Freed(v.table, 0);
      } else {
        var n := ClustersFor(size);
        PicksAreLowest(v.table, 2, max, n, f);
        if n <= FreeCount(v.table, 2, f) {
          var t1 := Linked(v.table, cs);
          assert t1[f] == 0;
          assert Freed(t1, f) == Freed(t1, 0);
        } else {
          FreeCountSplit(v.table, 2, cs[0], f);
        }
      }
    }
  }

  // ---------------------------------------------------------------- write

  // The data part of a write: on failure the table is as before.
  lemma {:induction false} WriteRollsBack(v: Volume, size: u32)
    requires v.Safe() && size > 0 && Fits(v, size)
    ensures var cs := Space(v, size);
            && cs != [] && LinksInside(Linked(v.table, cs))
            && Freed(Linked(v.table, cs), Head(cs)) == v.table
  {
    var cs := Space(v, size);
    RollbackRestores(v.table, v.g.MaxCluster(), cs);
  }

  lemma {:induction false} DataWriteKeepsOwned(v: Volume, env: Env, data: seq<byte>, chains: seq<seq<nat>>)
    requires OwnedBy(v, chains) && |data| < TWO32 && Fits(v, |data|)
    ensures var cs := Space(v, |data|);
            var d := PutChain(v.disk, env, v.g, Linked(v.table, cs), Head(cs), data).disk;
            && |d.sectors| == |v.disk.sectors|
            && (forall c :: c in cs ==> At(v.table, c) == 0)
            && forall j :: 0 <= j < |d.sectors| && (forall x :: x in cs ==> v.g.Lba(x) != j) ==>
                 d.sectors[j] == v.disk.sectors[j]
  {
    var cs := Space(v, |data|);
    Grown(v.table, v.g.MaxCluster(), cs);
    PutChainFrame(v.disk, env, v.g, Linked(v.table, cs), cs, Head(cs), data);
  }

  // The table and entry that a commit leaves behind, before flushing.
  lemma {:induction false} CommitTable(v: Volume, chains: seq<seq<nat>>, k: nat, size: u32)
    requires OwnedBy(v, chains) && k < |v.dir| && Fits(v, size)
    requires !v.dir[k].Live() ==> Harmless(v.table, v.dir[k].first, ClustersFor(size))
    ensures var cs, max, f := Space(v, size), v.g.MaxCluster(), v.dir[k].first;
            var t1 := Linked(v.table, cs);
            && LinksInside(t1)
            && var t2 := if f >= 2 && f != Head(cs) then Freed(t1, f) else t1;
               && (cs != [] ==> IsChain(t2, max, cs))
               && (forall c :: c in cs ==> At(v.table, c) == 0)
               && forall c :: 2 <= c < max && c !in cs ==>
                    At(t2, c) == if c in chains[k] then 0 else At(v.table, c)
  {
    var cs, max, f := Space(v, size), v.g.MaxCluster(), v.dir[k].first;
    LinkedInside(v.table, cs);
    Grown(v.table, max, cs);
    if chains[k] != [] {
      Replaced(v.table, max, cs, chains[k]);
      assert chains[k][0] !in cs;
    } else if v.dir[k].Live() {
      assert f == 0;
    } else {
      HarmlessFree(v, size, f);
    }
  }

  // The slot of the first vacancy is vacant, hence owns nothing; a found slot is live.
  ghost predicate PlaceOf(v: Volume, name: CString, k: nat, created: bool)
  {
    && k < |v.dir|
    && (created ==> Find(v.dir, Format(name)).Miss? && VacantSlot(v.dir) == Hit(k))
    && (!created ==> Find(v.dir, Format(name)) == Hit(k))
  }

  lemma {:induction false} CommitDirectory(v: Volume, name: CString, k: nat, created: bool, first: u16, size: u32)
    requires v.Safe() && DirectoryOk(v.dir, v.g.MaxCluster()) && PlaceOf(v, name, k, created)
    requires Stops(first) || first < v.g.MaxCluster()
    ensures var e := if created then Dirent(Format(name), ATTR_FILE, Zeros(14), first, size)
                     else v.dir[k].(first := first, size := size);
            && DirectoryOk(v.dir[k := e], v.g.MaxCluster())
            && (e.Live() ==> Matches(e.name, Format(name)))
  {
    if created {
      EntryAdded(v.dir, v.g.MaxCluster(), name, Dirent(Format(name), ATTR_FILE, Zeros(14), first, size));
    }
  }

  lemma SpaceSuffices(v: Volume, size: u32)
    requires v.Formed() && Fits(v, size)
    ensures size <= 512 * |Space(v, size)|
    ensures size == 0 <==> Space(v, size) == []
  {
  }

  lemma {:induction false} CommitEffect(v: Volume, d: Disk, name: CString, k: nat, created: bool, size: u32,
                                        chains: seq<seq<nat>>)
    requires OwnedBy(v, chains) && Fits(v, size) && PlaceOf(v, name, k, created)
    requires SlotClean(v, name, size) && (Format(name)[0] != DELETED || size == 0)
    requires LinksInside(Linked(v.table, Space(v, size))) && OwnedDataKept(v, d, chains)
    ensures var cs := Space(v, size);
            var v2 := Committed(v.(disk := d), k, created, Format(name), Linked(v.table, cs), Head(cs), size);
            Effect(v, v2, chains, chains[k := cs], Format(name))
  {
    hide Find, VacantSlot, Format, Linked, Effect;
    var cs := Space(v, size);
    CommitTable(v, chains, k, size);
    CommitDirectory(v, name, k, created, Head(cs), size);
    SpaceSuffices(v, size);
    FormatIsFolded(name);
    var v2 := Committed(v.(disk := d), k, created, Format(name), Linked(v.table, cs), Head(cs), size);
    SlotRewritten(v, v2, chains, k, cs, Format(name));
  }

  // The write gets as far as storing the entry.
  ghost predicate Commits(v: Volume, env: Env, name: CString, data: seq<byte>)
    requires v.Safe() && |data| < TWO32
  {
    && (Find(v.dir, Format(name)).Hit? || VacantSlot(v.dir).Hit?)
    && Fits(v, |data|)
    && PutChain(v.disk, env, v.g, Linked(v.table, Space(v, |data|)), Head(Space(v, |data|)), data).ok
  }

  lemma {:induction false} CommittedIs(v: Volume, env: Env, name: CString, data: seq<byte>)
    requires v.Safe() && |data| < TWO32 && Commits(v, env, name, data)
    ensures var hit, slot, cs := Find(v.dir, Format(name)), SlotOf(v, name), Space(v, |data|);
            var t1 := Linked(v.table, cs);
            && LinksInside(t1)
            && var d := PutChain(v.disk, env, v.g, t1, Head(cs), data).disk;
               WriteFile(v, env, name, data)
               == FlushBoth(Committed(v.(disk := d), slot, hit.Miss?, Format(name), t1, Head(cs), |data|), env)
  {
    LinkedInside(v.table, Space(v, |data|));
  }

  ghost function SlotOf(v: Volume, name: CString): (k: nat) {
    var hit := Find(v.dir, Format(name));
    if hit.Hit? then hit.slot else if VacantSlot(v.dir).Hit? then VacantSlot(v.dir).slot else 0
  }

  // What a committed write leaves in memory.
  lemma {:induction false} CommitOutcome(v: Volume, env: Env, name: CString, data: seq<byte>, chains: seq<seq<nat>>)
    requires OwnedBy(v, chains) && |data| < TWO32 && Commits(v, env, name, data)
    requires SlotClean(v, name, |data|)
    ensures var v2, cs, k := WriteFile(v, env, name, data).vol, Space(v, |data|), SlotOf(v, name);
            var e := v2.dir[k];
            && k < |v.dir| && v2.dir == v.dir[k := e]
            && e.first == Head(cs) && e.size == |data|
            && (Find(v.dir, Format(name)).Miss? ==> e.name == Format(name) && e.attr == ATTR_FILE && chains[k] == [])
            && (Find(v.dir, Format(name)).Hit? ==> e.name == v.dir[k].name && e.attr == v.dir[k].attr)
            && (cs != [] ==> IsChain(v2.table, v.g.MaxCluster(), cs))
            && (forall c :: c in cs ==> At(v.table, c) == 0)
            && (forall c :: 2 <= c < v.g.MaxCluster() && c !in cs ==>
                  At(v2.table, c) == if c in chains[k] then 0 else At(v.table, c))
  {
    hide Linked, PutChain, FlushBoth, VacantSlot, Format, WriteFile, Find, Space;
    CommittedIs(v, env, name, data);
    CommitTable(v, chains, SlotOf(v, name), |data|);
  }

  lemma {:induction false} WriteFileEffect(v: Volume, env: Env, name: CString, data: seq<byte>, chains: seq<seq<nat>>)
    returns (chains2: seq<seq<nat>>)
    requires OwnedBy(v, chains) && |data| < TWO32
    requires Commits(v, env, name, data) ==> SlotClean(v, name, |data|) && (Format(name)[0] != DELETED || data == [])
    ensures Effect(v, WriteFile(v, env, name, data).vol, chains, chains2, Format(name))
    ensures Commits(v, env, name, data) ==>
              SlotOf(v, name) < |chains| && chains2 == chains[SlotOf(v, name) := Space(v, |data|)]
  {
    hide Find, VacantSlot, Format, Linked, PutChain, FlushBoth, FlushFat, Committed;
    chains2 := chains;
    var wanted := Format(name);
    var hit := Find(v.dir, wanted);
    var place := if hit.Hit? then hit else VacantSlot(v.dir);
    var r := WriteFile(v, env, name, data);
    if place.Miss? || !Fits(v, |data|) {
      DiskOnly(v, v.disk, chains, wanted);
    } else {
      var cs := Space(v, |data|);
      LinkedInside(v.table, cs);
      var t1 := Linked(v.table, cs);
      var w := PutChain(v.disk, env, v.g, t1, Head(cs), data);
      DataWriteKeepsOwned(v, env, data, chains);
      FreeWritesKeepOwned(v, w.disk, chains, cs);
      if w.ok {
        chains2 := chains[place.slot := cs];
        CommitEffect(v, w.disk, name, place.slot, hit.Miss?, |data|, chains);
        var v2 := Committed(v.(disk := w.disk), place.slot, hit.Miss?, wanted, t1, Head(cs), |data|);
        FlushKeepsData(v2, env);
        EffectThenFlush(v, v2, r.vol, chains, chains2, wanted);
      } else {
        WriteRollsBack(v, |data|);
        DiskOnly(v, w.disk, chains, wanted);
        FlushKeepsData(v.(disk := w.disk), env);
        EffectThenFlush(v, v.(disk := w.disk), r.vol, chains, chains, wanted);
      }
    }
  }

  // ---------------------------------------------------------------- mkdir

  lemma {:induction false} DirCommitted(v: Volume, d: Disk, name: CString, k: nat, chains: seq<seq<nat>>)
    requires OwnedBy(v, chains) && Fits(v, 512) && PlaceOf(v, name, k, true) && Format(name)[0] != DELETED
    requires LinksInside(Linked(v.table, Space(v, 512))) && OwnedDataKept(v, d, chains)
    ensures var cs := Space(v, 512);
            var e := Dirent(Format(name), ATTR_DIR, Zeros(14), Head(cs), 0);
            var v2 := v.(disk := d, table := Linked(v.table, cs), dir := v.dir[k := e]);
            Effect(v, v2, chains, chains[k := cs], Format(name))
  {
    hide Find, VacantSlot, Format, Linked, Effect, Space, Holds, DirectoryOk;
    var cs, max := Space(v, 512), v.g.MaxCluster();
    var e := Dirent(Format(name), ATTR_DIR, Zeros(14), Head(cs), 0);
    var v2 := v.(disk := d, table := Linked(v.table, cs), dir := v.dir[k := e]);
    FormatIsFolded(name);
    DirCluster(v, e);
    VacantChain(v, chains, k);
    EntryAdded(v.dir, max, name, e);
    SlotRewritten(v, v2, chains, k, cs, Format(name));
  }

  lemma {:induction false} DirCluster(v: Volume, e: Dirent)
    requires v.Formed() && Fits(v, 512) && e.Live() && e.first == Head(Space(v, 512)) && e.size == 0
    ensures var cs, max := Space(v, 512), v.g.MaxCluster();
            && Holds(Linked(v.table, cs), max, e, cs) && 2 <= e.first < max
            && (forall c :: c in cs ==> At(v.table, c) == 0)
            && forall c :: 2 <= c < max && c !in cs ==> At(Linked(v.table, cs), c) == At(v.table, c)
  {
    hide Linked;
    SpaceSuffices(v, 512);
    Grown(v.table, v.g.MaxCluster(), Space(v, 512));
  }

  lemma VacantChain(v: Volume, chains: seq<seq<nat>>, k: nat)
    requires OwnedBy(v, chains) && VacantSlot(v.dir) == Hit(k) && k < |v.dir|
    ensures chains[k] == [] && !v.dir[k].Live()
  {
  }

  // A directory is made: there is a slot and a cluster, and its first sector gets written.
  ghost predicate MakesDir(v: Volume, env: Env, name: CString)
    requires v.Safe()
  {
    && Find(v.dir, Format(name)).Miss? && VacantSlot(v.dir).Hit? && Fits(v, 512)
    && Put(v.disk, env, v.g.Lba(Space(v, 512)[0]), DirBody(Space(v, 512)[0])).ok
  }

  lemma {:induction false} CreateDirEffect(v: Volume, env: Env, name: CString, chains: seq<seq<nat>>)
    returns (chains2: seq<seq<nat>>)
    requires OwnedBy(v, chains) && (MakesDir(v, env, name) ==> Format(name)[0] != DELETED)
    ensures Effect(v, CreateDir(v, env, name).vol, chains, chains2, Format(name))
  {
    hide Find, VacantSlot, Format, Linked, FlushBoth, DirBody, DirentBytes, Put;
    chains2 := chains;
    var wanted, max := Format(name), v.g.MaxCluster();
    var place := VacantSlot(v.dir);
    var r := CreateDir(v, env, name);
    if Find(v.dir, wanted).Hit? || place.Miss? || !Fits(v, 512) {
      DiskOnly(v, v.disk, chains, wanted);
    } else {
      var cs, k := Space(v, 512), place.slot;
      LinkedInside(v.table, cs);
      Grown(v.table, max, cs);
      var w := Put(v.disk, env, v.g.Lba(cs[0]), DirBody(cs[0]));
      FreeWritesKeepOwned(v, w.disk, chains, cs);
      if w.ok {
        var e := Dirent(wanted, ATTR_DIR, Zeros(14), cs[0], 0);
        var v2 := v.(disk := w.disk, table := Linked(v.table, cs), dir := v.dir[k := e]);
        chains2 := chains[k := cs];
        DirCommitted(v, w.disk, name, k, chains);
        FlushKeepsData(v2, env);
        EffectThenFlush(v, v2, r.vol, chains, chains2, wanted);
      } else {
        WriteRollsBack(v, 512);
        DiskOnly(v, w.disk, chains, wanted);
      }
    }
  }
}

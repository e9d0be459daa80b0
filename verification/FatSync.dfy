/**
 Memory and disk: after every operation both on-disk FAT copies and the on-disk root equal the
 in-memory ones, so mounting again rebuilds the same volume.
 */
module FatSync {
  import opened Bytes
  import opened FatTable
  import opened FatChains
  import opened FatDirectory
  import opened FatVolume
  import opened FatDisk
  import opened FatSteps
  import opened FatInvariant

  // ---------------------------------------------------------------- agreement

  ghost predicate Stored(sectors: seq<Sector>, base: nat, bytes: seq<byte>, n: nat)
    requires |bytes| == 512 * n
  {
    base + n <= |sectors| && forall k :: 0 <= k < n ==> sectors[base + k] == Chunk(bytes, k)
  }

  ghost predicate FatStored(v: Volume, sectors: seq<Sector>)
    requires v.Formed()
  {
    && Stored(sectors, v.g.FatStart(0), v.Fat(), v.g.fatSectors)
    && Stored(sectors, v.g.FatStart(1), v.Fat(), v.g.fatSectors)
  }

  ghost predicate RootStored(v: Volume, sectors: seq<Sector>)
    requires v.Formed()
  {
    Stored(sectors, v.g.RootStart(), v.Root(), v.g.RootSectors())
  }

  // Both FAT copies and the root directory on disk are the ones in memory.
  ghost predicate Synced(v: Volume) {
    v.Formed() && FatStored(v, v.disk.sectors) && RootStored(v, v.disk.sectors)
  }

  lemma {:induction false} RunStored(d: Disk, env: Env, base: nat, bytes: seq<byte>, n: nat)
    requires |bytes| == 512 * n && base + n <= |d.sectors| && AllDone(env)
    ensures var r := PutRun(d, env, base, bytes, n, 0);
            r.ok && Stored(r.disk.sectors, base, bytes, n)
  {
    hide PutRun;
    PutRunSucceeds(d, env, base, bytes, n, 0);
    forall k | 0 <= k < n
      ensures PutRun(d, env, base, bytes, n, 0).disk.sectors[base + k] == Chunk(bytes, k)
    {
      PutRunStores(d, env, base, bytes, n, 0, k);
    }
  }

  lemma StoredElsewhere(sectors: seq<Sector>, after: seq<Sector>, base: nat, bytes: seq<byte>, n: nat)
    requires |bytes| == 512 * n && |after| == |sectors| && Stored(sectors, base, bytes, n)
    requires forall j :: base <= j < base + n && j < |sectors| ==> after[j] == sectors[j]
    ensures Stored(after, base, bytes, n)
  {
  }

  lemma {:induction false} FlushFatStores(v: Volume, env: Env)
    requires v.Formed() && AllDone(env)
    ensures FlushFat(v, env).ok && FatStored(v, FlushFat(v, env).vol.disk.sectors)
  {
    hide PutRun, Stored;
    var g := v.g;
    var a := PutRun(v.disk, env, g.FatStart(0), v.Fat(), g.fatSectors, 0);
    RunStored(v.disk, env, g.FatStart(0), v.Fat(), g.fatSectors);
    RunStored(a.disk, env, g.FatStart(1), v.Fat(), g.fatSectors);
    PutRunFrame(a.disk, env, g.FatStart(1), v.Fat(), g.fatSectors, 0);
    var b := PutRun(a.disk, env, g.FatStart(1), v.Fat(), g.fatSectors, 0);
    StoredElsewhere(a.disk.sectors, b.disk.sectors, g.FatStart(0), v.Fat(), g.fatSectors);
  }

  lemma {:induction false} FlushRootStores(v: Volume, env: Env)
    requires v.Formed() && AllDone(env)
    ensures FlushRoot(v, env).ok && RootStored(v, FlushRoot(v, env).vol.disk.sectors)
  {
    hide PutRun, Stored;
    RunStored(v.disk, env, v.g.RootStart(), v.Root(), v.g.RootSectors());
  }

  // The run is complete, or nothing at or behind its end has changed.
  lemma {:induction false} RunInOrder(d: Disk, env: Env, base: nat, bytes: seq<byte>, n: nat)
    requires |bytes| == 512 * n && base + n <= |d.sectors|
    ensures var r := PutRun(d, env, base, bytes, n, 0);
            && (r.ok ==> Stored(r.disk.sectors, base, bytes, n))
            && (forall j :: base + n <= j < |d.sectors| ==> r.disk.sectors[j] == d.sectors[j])
            && (forall j :: 0 <= j < base ==> r.disk.sectors[j] == d.sectors[j])
  {
    hide PutRun, Chunk;
    var m := PutRunPrefix(d, env, base, bytes, n, 0);
    PutRunFrame(d, env, base, bytes, n, 0);
  }

  // A flush cut short at any transfer: the second copy is touched only once the first is whole,
  // so one of them always is, and the root directory only once both are.
  lemma {:induction false} FlushOrder(v: Volume, env: Env)
    requires v.Formed()
    ensures var s, t, g := v.disk.sectors, FlushBoth(v, env).vol.disk.sectors, v.g;
            && (Stored(t, g.FatStart(0), v.Fat(), g.fatSectors)
                || forall j :: g.FatStart(1) <= j < |s| ==> t[j] == s[j])
            && (FatStored(v, t) || forall j :: g.RootStart() <= j < |s| ==> t[j] == s[j])
            && (FlushBoth(v, env).ok ==> FatStored(v, t) && RootStored(v, t))
  {
    hide PutRun, Stored;
    var g := v.g;
    var fat, n := v.Fat(), g.fatSectors;
    var a := PutRun(v.disk, env, g.FatStart(0), fat, n, 0);
    RunInOrder(v.disk, env, g.FatStart(0), fat, n);
    if a.ok {
      var b := PutRun(a.disk, env, g.FatStart(1), fat, n, 0);
      RunInOrder(a.disk, env, g.FatStart(1), fat, n);
      StoredElsewhere(a.disk.sectors, b.disk.sectors, g.FatStart(0), fat, n);
      if b.ok {
        var c := PutRun(b.disk, env, g.RootStart(), v.Root(), g.RootSectors(), 0);
        RunInOrder(b.disk, env, g.RootStart(), v.Root(), g.RootSectors());
        StoredElsewhere(b.disk.sectors, c.disk.sectors, g.FatStart(0), fat, n);
        StoredElsewhere(b.disk.sectors, c.disk.sectors, g.FatStart(1), fat, n);
      }
    }
  }

  lemma {:induction false} FatKept(v: Volume, v2: Volume)
    requires v.Formed() && v2.Formed() && v2.g == v.g && v2.table == v.table && v2.slack == v.slack
    requires FatStored(v, v.disk.sectors) && |v2.disk.sectors| == |v.disk.sectors|
    requires forall j :: v.g.reserved <= j < v.g.RootStart() ==> v2.disk.sectors[j] == v.disk.sectors[j]
    ensures FatStored(v2, v2.disk.sectors)
  {
    hide Stored;
    StoredElsewhere(v.disk.sectors, v2.disk.sectors, v.g.FatStart(0), v.Fat(), v.g.fatSectors);
    StoredElsewhere(v.disk.sectors, v2.disk.sectors, v.g.FatStart(1), v.Fat(), v.g.fatSectors);
  }

  // Persisting both brings the disk into agreement from any state.
  lemma {:induction false} FlushBothSyncs(v: Volume, env: Env)
    requires v.Formed() && AllDone(env)
    ensures FlushBoth(v, env).ok && Synced(FlushBoth(v, env).vol)
  {
    hide FlushFat, FlushRoot, FatStored, RootStored;
    var f := FlushFat(v, env);
    FlushFatStores(v, env);
    assert FatStored(f.vol, f.vol.disk.sectors) by { SameFat(v, f.vol); }
    FlushRootStores(f.vol, env);
    FlushRootFrame(f.vol, env);
    FatKept(f.vol, FlushRoot(f.vol, env).vol);
    SameRoot(f.vol, FlushRoot(f.vol, env).vol);
  }

  lemma SameFat(v: Volume, v2: Volume)
    requires v.Formed() && v2 == v.(disk := v2.disk) && v2.Formed()
    ensures forall s: seq<Sector> :: FatStored(v2, s) == FatStored(v, s)
  {
  }

  lemma SameRoot(v: Volume, v2: Volume)
    requires v.Formed() && v2 == v.(disk := v2.disk) && v2.Formed()
    ensures forall s: seq<Sector> :: RootStored(v2, s) == RootStored(v, s)
  {
  }

  // ---------------------------------------------------------------- operations

  // Data writes along newly taken clusters touch neither the FAT, the root nor the boot area.
  lemma {:induction false} DataWriteStaysInData(v: Volume, env: Env, data: seq<byte>)
    requires v.Safe() && |data| < TWO32 && Fits(v, |data|)
    ensures var cs := Space(v, |data|);
            var d := PutChain(v.disk, env, v.g, Linked(v.table, cs), Head(cs), data).disk;
            forall j :: 0 <= j < v.g.DataStart() ==> d.sectors[j] == v.disk.sectors[j]
  {
    hide Linked;
    var cs := Space(v, |data|);
    Grown(v.table, v.g.MaxCluster(), cs);
    PutChainFrame(v.disk, env, v.g, Linked(v.table, cs), cs, Head(cs), data);
    forall x | x in cs
      ensures v.g.Lba(x) >= v.g.DataStart()
    {
      ClusterOnDisk(v.g, x);
    }
  }

  lemma {:induction false} WriteKeepsSynced(v: Volume, env: Env, name: CString, data: seq<byte>)
    requires v.Safe() && Synced(v) && AllDone(env) && |data| < TWO32
    ensures Synced(WriteFile(v, env, name, data).vol)
  {
    hide Linked, PutChain, FlushBoth, FlushFat, Committed, VacantSlot, Find, Format, Synced;
    var cs := Space(v, |data|);
    if Fits(v, |data|) {
      var t1 := Linked(v.table, cs);
      LinkedInside(v.table, cs);
      Grown(v.table, v.g.MaxCluster(), cs);
      PutChainSucceeds(v.disk, env, v.g, t1, cs, Head(cs), data);
      var v1 := v.(disk := PutChain(v.disk, env, v.g, t1, Head(cs), data).disk);
      if Find(v.dir, Format(name)).Hit? || VacantSlot(v.dir).Hit? {
        FlushBothSyncs(Committed(v1, SlotOf(v, name), Find(v.dir, Format(name)).Miss?, Format(name),
                                 t1, Head(cs), |data|), env);
      }
    }
  }

  lemma {:induction false} CreateKeepsSynced(v: Volume, env: Env, name: CString)
    requires v.Safe() && Synced(v) && AllDone(env)
    ensures Synced(CreateFile(v, env, name).vol)
  {
    hide FlushRoot, Find, VacantSlot, Format, FatStored, RootStored;
    var place := VacantSlot(v.dir);
    if Find(v.dir, Format(name)).Miss? && place.Hit? {
      var v1 := v.(dir := v.dir[place.slot := Dirent(Format(name), ATTR_FILE, Zeros(14), 0, 0)]);
      FlushRootStores(v1, env);
      FlushRootFrame(v1, env);
      FatKept(v, FlushRoot(v1, env).vol);
      SameRoot(v1, FlushRoot(v1, env).vol);
    }
  }

  lemma {:induction false} MkdirKeepsSynced(v: Volume, env: Env, name: CString)
    requires v.Safe() && Synced(v) && AllDone(env)
    ensures Synced(CreateDir(v, env, name).vol)
  {
    hide Linked, FlushBoth, VacantSlot, Find, Format, Synced, DirBody;
    var place := VacantSlot(v.dir);
    if Find(v.dir, Format(name)).Miss? && place.Hit? && Fits(v, 512) {
      var cs := Space(v, 512);
      LinkedInside(v.table, cs);
      ClusterOnDisk(v.g, cs[0]);
      var w := Put(v.disk, env, v.g.Lba(cs[0]), DirBody(cs[0]));
      var e := Dirent(Format(name), ATTR_DIR, Zeros(14), cs[0], 0);
      FlushBothSyncs(v.(disk := w.disk, table := Linked(v.table, cs), dir := v.dir[place.slot := e]), env);
    }
  }

  lemma {:induction false} DeleteKeepsSynced(v: Volume, env: Env, name: CString)
    requires v.Safe() && Synced(v) && AllDone(env)
    ensures Synced(DeleteFile(v, env, name).vol)
  {
    hide FlushBoth, Find, Format, Synced;
    var hit := Find(v.dir, Format(name));
    if hit.Hit? {
      var e := v.dir[hit.slot];
      FreedInside(v.table, e.first);
      var t1 := if e.first >= 2 then Freed(v.table, e.first) else v.table;
      FlushBothSyncs(v.(table := t1, dir := v.dir[hit.slot := e.(name := [DELETED] + e.name[1..])]), env);
    }
  }

  // When transfers succeed, every operation leaves memory and disk in agreement, including
  // operations that report failure for lack of space.
  lemma {:induction false} StepKeepsSynced(v: Volume, env: Env, op: Op)
    requires v.Safe() && Synced(v) && AllDone(env) && op.Valid()
    ensures Synced(Step(v, env, op).vol)
  {
    match op
    case Create(name) => CreateKeepsSynced(v, env, name);
    case Write(name, data) => WriteKeepsSynced(v, env, name, data);
    case Mkdir(name) => MkdirKeepsSynced(v, env, name);
    case Delete(name) => DeleteKeepsSynced(v, env, name);
  }

  // ---------------------------------------------------------------- the boot area

  ghost predicate BootKept(v: Volume, v2: Volume) {
    |v2.disk.sectors| == |v.disk.sectors|
    && forall j :: 0 <= j < v.g.reserved && j < |v.disk.sectors| ==> v2.disk.sectors[j] == v.disk.sectors[j]
  }

  lemma {:induction false} FlushKeepsBoot(v: Volume, env: Env)
    requires v.Formed()
    ensures BootKept(v, FlushFat(v, env).vol)
    ensures BootKept(v, FlushRoot(v, env).vol)
    ensures BootKept(v, FlushBoth(v, env).vol)
  {
    hide FlushFat, FlushRoot;
    FlushFatFrame(v, env);
    FlushRootFrame(v, env);
    FlushRootFrame(FlushFat(v, env).vol, env);
  }

  lemma {:induction false} WriteKeepsBoot(v: Volume, env: Env, name: CString, data: seq<byte>)
    requires v.Safe() && |data| < TWO32
    ensures BootKept(v, WriteFile(v, env, name, data).vol)
  {
    hide Linked, PutChain, FlushBoth, FlushFat, Committed, VacantSlot, Find, Format, BootKept;
    BootSame(v, v);
    if Fits(v, |data|) && (Find(v.dir, Format(name)).Hit? || VacantSlot(v.dir).Hit?) {
      var cs := Space(v, |data|);
      var t1 := Linked(v.table, cs);
      LinkedInside(v.table, cs);
      DataWriteStaysInData(v, env, data);
      var w := PutChain(v.disk, env, v.g, t1, Head(cs), data);
      var v1 := v.(disk := w.disk);
      BootSame(v, v1);
      if w.ok {
        BootThenFlush(v, v1, Committed(v1, SlotOf(v, name), Find(v.dir, Format(name)).Miss?, Format(name),
                                       t1, Head(cs), |data|), env);
      } else {
        FreedInside(t1, Head(cs));
        BootThenFlush(v, v1, v1.(table := Freed(t1, Head(cs))), env);
      }
    }
  }

  lemma BootSame(v: Volume, v2: Volume)
    requires |v2.disk.sectors| == |v.disk.sectors| && v.Formed()
    requires forall j :: 0 <= j < v.g.DataStart() ==> v2.disk.sectors[j] == v.disk.sectors[j]
    ensures BootKept(v, v2)
  {
  }

  lemma {:induction false} BootThenFlush(v: Volume, v1: Volume, v2: Volume, env: Env)
    requires BootKept(v, v1) && v2.Formed() && v2.g == v.g && v2.disk == v1.disk
    ensures BootKept(v, FlushFat(v2, env).vol) && BootKept(v, FlushBoth(v2, env).vol)
  {
    hide FlushFat, FlushBoth;
    FlushKeepsBoot(v2, env);
  }

  lemma {:induction false} MkdirKeepsBoot(v: Volume, env: Env, name: CString)
    requires v.Safe()
    ensures BootKept(v, CreateDir(v, env, name).vol)
  {
    hide Linked, FlushBoth, VacantSlot, Find, Format, DirBody, BootKept, Put;
    BootSame(v, v);
    var place := VacantSlot(v.dir);
    if Find(v.dir, Format(name)).Miss? && place.Hit? && Fits(v, 512) {
      var cs := Space(v, 512);
      LinkedInside(v.table, cs);
      ClusterOnDisk(v.g, cs[0]);
      var w := Put(v.disk, env, v.g.Lba(cs[0]), DirBody(cs[0]));
      var e := Dirent(Format(name), ATTR_DIR, Zeros(14), cs[0], 0);
      BootSame(v, v.(disk := w.disk));
      BootSame(v, v.(disk := w.disk, table := Freed(Linked(v.table, cs), cs[0])));
      BootThenFlush(v, v.(disk := w.disk),
                    v.(disk := w.disk, table := Linked(v.table, cs), dir := v.dir[place.slot := e]), env);
    }
  }

  // No operation touches the boot area, whatever the device does.
  lemma {:induction false} StepKeepsBoot(v: Volume, env: Env, op: Op)
    requires v.Safe() && op.Valid()
    ensures BootKept(v, Step(v, env, op).vol)
  {
    hide FlushBoth, FlushRoot, Find, VacantSlot, Format;
    match op
    case Create(name) =>
      var place := VacantSlot(v.dir);
      if Find(v.dir, Format(name)).Miss? && place.Hit? {
        FlushKeepsBoot(v.(dir := v.dir[place.slot := Dirent(Format(name), ATTR_FILE, Zeros(14), 0, 0)]), env);
      }
    case Write(name, data) => WriteKeepsBoot(v, env, name, data);
    case Mkdir(name) => MkdirKeepsBoot(v, env, name);
    case Delete(name) =>
      var hit := Find(v.dir, Format(name));
      if hit.Hit? {
        var e := v.dir[hit.slot];
        FreedInside(v.table, e.first);
        var t1 := if e.first >= 2 then Freed(v.table, e.first) else v.table;
        FlushKeepsBoot(v.(table := t1, dir := v.dir[hit.slot := e.(name := [DELETED] + e.name[1..])]), env);
      }
  }

  // ---------------------------------------------------------------- remounting

  lemma {:induction false} GetRunReads(d: Disk, env: Env, base: nat, bytes: seq<byte>, m: nat, n: nat)
    requires |bytes| == 512 * m && n <= m && Stored(d.sectors, base, bytes, m) && AllDone(env)
    ensures GetRun(d, env, base, n).ok && GetRun(d, env, base, n).data == bytes[..512 * n]
    decreases n
  {
    if n > 0 {
      GetRunReads(d, env, base, bytes, m, n - 1);
      assert d.sectors[base + (n - 1)] == Chunk(bytes, n - 1);
      assert bytes[..512 * n] == bytes[..512 * (n - 1)] + Chunk(bytes, n - 1);
    }
  }

  // The boot sector describes the volume's geometry.
  ghost predicate Described(v: Volume) {
    v.Formed() && |v.disk.sectors| > 0 && BpbSupported(v.disk.sectors[0]) && ParseBpb(v.disk.sectors[0]) == v.g
  }

  // Mounting a synced volume rebuilds exactly the volume that was in memory.
  lemma {:induction false} RemountRebuilds(v: Volume, env: Env)
    requires Synced(v) && Described(v) && AllDone(env)
    ensures Mount(v.disk, env).Mounted?
    ensures var m := Mount(v.disk, env).vol;
            m == v.(disk := m.disk) && m.disk.sectors == v.disk.sectors
  {
    hide GetRun, Slots, Unpack, Slack, SlotBytes, TableBytes, ParseBpb, BpbSupported;
    var g := v.g;
    var b := Get(v.disk, env, 0);
    var f := GetRun(b.disk, env, g.FatStart(0), g.fatSectors);
    GetRunReads(b.disk, env, g.FatStart(0), v.Fat(), g.fatSectors, g.fatSectors);
    assert v.Fat()[..512 * g.fatSectors] == v.Fat();
    TableBytesRoundTrip(512 * g.fatSectors, v.table, v.slack);
    GetRunReads(f.disk, env, g.RootStart(), v.Root(), g.RootSectors(), g.RootSectors());
    assert v.Root()[..512 * g.RootSectors()] == v.Root();
    SlotBytesRoundTrip(v.dir);
  }

  lemma {:induction false} GetRunHolds(d: Disk, env: Env, base: nat, n: nat)
    requires GetRun(d, env, base, n).ok
    ensures Stored(d.sectors, base, GetRun(d, env, base, n).data, n) || n == 0
    decreases n
  {
    if n > 0 {
      var front := GetRun(d, env, base, n - 1);
      GetRunHolds(d, env, base, n - 1);
      var data := GetRun(d, env, base, n).data;
      forall k | 0 <= k < n
        ensures d.sectors[base + k] == Chunk(data, k)
      {
        if k < n - 1 {
          assert Chunk(data, k) == Chunk(front.data, k);
        }
      }
    }
  }

  // Whatever transfers failed: a mount that succeeds holds in memory what the boot sector, the first
  // FAT and the root directory on the disk say, and changes nothing there.
  lemma {:induction false} MountedHolds(d: Disk, env: Env)
    requires Mount(d, env).Mounted? && Mount(d, env).vol.Formed()
    ensures var v := Mount(d, env).vol;
            && v.disk.sectors == d.sectors && Described(v) && RootStored(v, d.sectors)
            && Stored(d.sectors, v.g.FatStart(0), v.Fat(), v.g.fatSectors)
  {
    hide GetRun, Slots, Unpack, Slack, SlotBytes, TableBytes, ParseBpb, BpbSupported, Stored;
    var b := Get(d, env, 0);
    var g := ParseBpb(b.data);
    var f := GetRun(b.disk, env, g.FatStart(0), g.fatSectors);
    var r := GetRun(f.disk, env, g.RootStart(), g.RootSectors());
    GetRunHolds(b.disk, env, g.FatStart(0), g.fatSectors);
    GetRunHolds(f.disk, env, g.RootStart(), g.RootSectors());
    UnpackRoundTrip(f.data);
    assert r.data[..32 * g.rootEntries] == r.data;
    SlotsRoundTrip(r.data, g.rootEntries);
    NothingStored(d.sectors, g.FatStart(0), f.data, g.fatSectors);
    NothingStored(d.sectors, g.RootStart(), r.data, g.RootSectors());
  }

  lemma NothingStored(sectors: seq<Sector>, base: nat, bytes: seq<byte>, n: nat)
    requires |bytes| == 512 * n && base + n <= |sectors|
    ensures n == 0 ==> Stored(sectors, base, bytes, n)
  {
  }

  // After any run of operations a remount rebuilds the volume that is in memory.
  lemma {:induction false} RunThenRemount(v: Volume, env: Env, ops: seq<Op>, env2: Env)
    requires v.Safe() && Synced(v) && Described(v) && AllDone(env) && AllDone(env2)
    requires forall i :: 0 <= i < |ops| ==> ops[i].Valid()
    ensures var after := Run(v, env, ops);
            && Synced(after)
            && Mount(after.disk, env2).Mounted?
            && var m := Mount(after.disk, env2).vol;
               m == after.(disk := m.disk) && m.disk.sectors == after.disk.sectors
    decreases |ops|
  {
    hide Step, Synced, Mount;
    if ops == [] {
      RemountRebuilds(v, env2);
    } else {
      StepKeepsSynced(v, env, ops[0]);
      StepKeepsBoot(v, env, ops[0]);
      RunThenRemount(Step(v, env, ops[0]).vol, env, ops[1..], env2);
    }
  }
}

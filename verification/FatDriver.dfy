/**
 The driver itself: buffers updated in place, each method proved to do what the corresponding
 function of FatVolume says.
 */
module FatDriver {
  import opened Bytes
  import opened FatTable
  import opened FatChains
  import opened FatDirectory
  import V = FatVolume
  import opened FatDisk

  lemma AllocStart(t: seq<u12>, max: nat)
    requires 2 <= max <= |t| && max <= 0xFF0
    ensures Allocating(t, t, max, 0, 0, 0)
  {
  }

  // Reading with `done` already copied and `left` bytes to go from `cluster` will end in `f`.
  ghost predicate Reading(f: V.Fetched, d: V.Disk, env: V.Env, g: V.Geometry, t: seq<u12>,
                          cluster: nat, left: nat, done: seq<byte>)
  {
    var rest := V.GetChain(d, env, g, t, cluster, left);
    rest.ok == f.ok && (f.ok ==> f.data == done + rest.data)
  }

  lemma ReadingRound(f: V.Fetched, d: V.Disk, env: V.Env, g: V.Geometry, t: seq<u12>,
                     cluster: nat, left: nat, done: seq<byte>)
    requires Reading(f, d, env, g, t, cluster, left, done) && cluster < 0xFF8 && left > 0
    ensures var got := V.Get(d, env, g.Lba(cluster));
            var n := if left < 512 then left else 512;
            && (!got.ok ==> !f.ok)
            && (got.ok ==> |got.data| == 512
                           && Reading(f, got.disk, env, g, t, At(t, cluster), left - n, done + got.data[..n]))
  {
  }

  lemma ReadingStarts(f: V.Fetched, d: V.Disk, env: V.Env, g: V.Geometry, t: seq<u12>, cluster: nat, size: nat)
    requires f == V.GetChain(d, env, g, t, cluster, size)
    ensures Reading(f, d, env, g, t, cluster, size, [])
  {
  }

  lemma ReadingEnds(f: V.Fetched, d: V.Disk, env: V.Env, g: V.Geometry, t: seq<u12>,
                    cluster: nat, left: nat, done: seq<byte>)
    requires Reading(f, d, env, g, t, cluster, left, done) && (cluster >= 0xFF8 || left == 0)
    ensures f.ok && f.data == done
  {
  }

  // Space taken and data written: `v2` has the new chain and `first` is its first cluster; or the
  // attempt was given up and `v2` is what is left.
  ghost predicate Staged(v: V.Volume, env: V.Env, data: seq<byte>, v2: V.Volume, first: nat, ok: bool)
    requires v.Safe() && |data| < TWO32
  {
    var cs := V.Space(v, |data|);
    if !V.Fits(v, |data|) then !ok && v2 == v else
    LinkedInside(v.table, cs);
    var t1 := Linked(v.table, cs);
    var w := V.PutChain(v.disk, env, v.g, t1, V.Head(cs), data);
    if w.ok then ok && first == V.Head(cs) && v2 == v.(disk := w.disk, table := t1)
    else !ok && v2 == V.FlushFat(v.(disk := w.disk, table := Freed(t1, V.Head(cs))), env).vol
  }

  lemma StagedNothing(v: V.Volume, env: V.Env)
    requires v.Safe()
    ensures Staged(v, env, [], v, 0, true)
  {
  }

  lemma NoSlotWrite(v: V.Volume, env: V.Env, name: CString, data: seq<byte>)
    requires v.Safe() && |data| < TWO32
    requires Find(v.dir, Format(name)).Miss? && VacantSlot(v.dir).Miss?
    ensures V.WriteFile(v, env, name, data) == V.Result(v, false)
  {
  }

  // A write is: find the slot, stage the data, commit, persist.
  lemma {:induction false} StagedWrite(v: V.Volume, env: V.Env, name: CString, data: seq<byte>, v2: V.Volume,
                                       first: nat, ok: bool)
    requires v.Safe() && |data| < TWO32 && Staged(v, env, data, v2, first, ok)
    requires Find(v.dir, Format(name)).Hit? || VacantSlot(v.dir).Hit?
    ensures var hit := Find(v.dir, Format(name));
            var slot := if hit.Hit? then hit.slot else VacantSlot(v.dir).slot;
            if !ok then V.WriteFile(v, env, name, data) == V.Result(v2, false)
            else && v2.Safe() && first < 0x1000 && (Stops(first) || first < |v2.table|)
                 && V.WriteFile(v, env, name, data)
                    == V.FlushBoth(V.Committed(v2, slot, hit.Miss?, Format(name), v2.table, first, |data|), env)
  {
    hide Find, VacantSlot, Format, Linked, V.PutChain, V.FlushBoth, V.FlushFat, Freed;
    LinkedInside(v.table, V.Space(v, |data|));
  }

  ghost predicate StagedDir(v: V.Volume, env: V.Env, v2: V.Volume, cluster: nat, ok: bool)
    requires v.Safe()
  {
    var cs := V.Space(v, 512);
    if !V.Fits(v, 512) then !ok && v2 == v else
    LinkedInside(v.table, cs);
    var t1 := Linked(v.table, cs);
    var w := V.Put(v.disk, env, v.g.Lba(cs[0]), V.DirBody(cs[0]));
    if w.ok then ok && cluster == cs[0] && v2 == v.(disk := w.disk, table := t1)
    else !ok && v2 == v.(disk := w.disk, table := Freed(t1, cs[0]))
  }

  lemma NoSlotDir(v: V.Volume, env: V.Env, name: CString)
    requires v.Safe()
    requires Find(v.dir, Format(name)).Hit? || VacantSlot(v.dir).Miss?
    ensures V.CreateDir(v, env, name) == V.Result(v, false)
  {
  }

  lemma {:induction false} StagedMkdir(v: V.Volume, env: V.Env, name: CString, v2: V.Volume, cluster: nat, ok: bool)
    requires v.Safe() && StagedDir(v, env, v2, cluster, ok)
    requires Find(v.dir, Format(name)).Miss? && VacantSlot(v.dir).Hit?
    ensures if !ok then V.CreateDir(v, env, name) == V.Result(v2, false)
            else && cluster < 0x1000 && v2.Safe()
                 && var e := Dirent(Format(name), ATTR_DIR, Zeros(14), cluster, 0);
                    V.CreateDir(v, env, name) == V.FlushBoth(v2.(dir := v.dir[VacantSlot(v.dir).slot := e]), env)
  {
    hide Find, VacantSlot, Format, Linked, V.FlushBoth, Freed, V.Put, V.DirBody;
    LinkedInside(v.table, V.Space(v, 512));
  }

  class Fat12 {
    const g: V.Geometry
    const fat: array<byte>
    const root: array<byte>
    const env: V.Env
    var sectors: seq<V.Sector>
    var transfers: nat

    constructor (g: V.Geometry, fat: array<byte>, root: array<byte>, env: V.Env, sectors: seq<V.Sector>, transfers: nat)
      ensures this.g == g && this.fat == fat && this.root == root && this.env == env
      ensures this.sectors == sectors && this.transfers == transfers
    {
      this.g, this.fat, this.root, this.env := g, fat, root, env;
      this.sectors, this.transfers := sectors, transfers;
    }

    ghost predicate Valid()
      reads this
    {
      && fat != root
      && g.Valid()
      && fat.Length == 512 * g.fatSectors
      && root.Length == 32 * g.rootEntries
      && |sectors| >= g.totalSectors
    }

    // The mounted volume these buffers stand for.
    ghost function Vol(): (v: V.Volume)
      requires Valid()
      reads this, fat, root
    {
      V.Volume(g, Unpack(fat[..]), Slack(fat[..]), Slots(root[..], g.rootEntries), V.Disk(sectors, transfers))
    }

    ghost predicate Safe()
      reads this, fat, root
    {
      Valid() && Vol().Safe()
    }

    // ---------------------------------------------------------------- table entries

    // get_fat_entry
    function GetFatEntry(c: nat): (r: nat)
      reads fat
      ensures r == At(Unpack(fat[..]), c)
    {
      var o := c * 3 / 2;
      if o + 1 >= fat.Length then 0xFFF
      else if c % 2 == 1 then fat[o] / 16 + fat[o + 1] as int * 16
      else fat[o] as int + fat[o + 1] as int % 16 * 0x100
    }

    // set_fat_entry
    method SetFatEntry(c: nat, value: u12)
      requires c < |Unpack(fat[..])|
      modifies fat
      ensures Unpack(fat[..]) == old(Unpack(fat[..]))[c := value]
      ensures Slack(fat[..]) == old(Slack(fat[..]))
    {
      var o := c * 3 / 2;
      ghost var before := fat[..];
      StoreUnpacked(before, c, value);
      if c % 2 == 1 {
        fat[o] := fat[o] % 16 + value % 16 * 16;
        fat[o + 1] := value / 16 % 0x100;
      } else {
        fat[o] := value % 0x100;
        fat[o + 1] := fat[o + 1] / 16 * 16 + value / 0x100 % 16;
      }
      assert fat[..] == WithEntry(before, c, value);
    }
  
    ghost function T(): (t: seq<u12>)
      reads fat
    {
      Unpack(fat[..])
    }

    // ---------------------------------------------------------------- allocation

    // fat12_find_free_cluster
    method FindFreeCluster(start: nat) returns (c: nat)
      requires Valid()
      ensures c == FirstFree(T(), if start < 2 then 2 else start, g.MaxCluster())
    {
      var max := g.MaxCluster();
      c := if start < 2 then 2 else start;
      ghost var from := c;
      while c < max
        invariant from <= c && FirstFree(T(), c, max) == FirstFree(T(), from, max)
      {
        if GetFatEntry(c) == 0 {
          return;
        }
        c := c + 1;
      }
      c := 0;
    }

    // fat12_free_chain
    method FreeChain(first: nat)
      requires Valid() && LinksInside(T()) && (Stops(first) || first < |T()|)
      modifies fat
      ensures T() == Freed(old(T()), first)
      ensures Slack(fat[..]) == old(Slack(fat[..]))
    {
      hide Unpack, Slack;
      var c: nat := first;
      while c >= 2 && c < 0xFF0
        invariant |T()| == |old(T())| && LinksInside(T()) && (Stops(c) || c < |T()|)
        invariant Freed(T(), c) == Freed(old(T()), first)
        invariant Slack(fat[..]) == old(Slack(fat[..]))
        decreases NonZero(T()), if Stops(c) then 0 else 1
      {
        var next := GetFatEntry(c);
        ghost var t := T();
        if t[c] != 0 { NonZeroDrops(t, c); } else { assert t[c := 0] == t; }
        SetFatEntry(c, 0);
        c := next;
      }
    }

    // A table with unchanged entries and unused bits is unchanged.
    twostate lemma SameTable()
      requires T() == old(T()) && Slack(fat[..]) == old(Slack(fat[..]))
      ensures fat[..] == old(fat[..])
    {
      UnpackRoundTrip(fat[..]);
      UnpackRoundTrip(old(fat[..]));
    }

    // One round of fat12_alloc_chain: find the next free cluster, link prev -> cl, end of
    // chain for now.
    method TakeNext(prev: nat) returns (cl: nat)
      requires Valid() && prev < |T()|
      modifies fat
      ensures cl == FirstFree(old(T()), if prev != 0 then prev + 1 else 2, g.MaxCluster())
      ensures T() == if cl == 0 then old(T()) else Joined(old(T()), prev, cl)
      ensures Slack(fat[..]) == old(Slack(fat[..]))
    {
      hide FirstFree, Unpack, Slack;
      cl := FindFreeCluster(if prev != 0 then prev + 1 else 2);
      if cl != 0 {
        if prev != 0 {
          SetFatEntry(prev, cl);
        }
        SetFatEntry(cl, 0xFFF);
      }
    }

    // fat12_alloc_chain: all or nothing.
    method AllocChain(n: nat) returns (first: nat)
      requires Valid() && LinksInside(T())
      modifies fat
      ensures AllocatedOrNot(old(T()), T(), g.MaxCluster(), n, first)
      ensures Slack(fat[..]) == old(Slack(fat[..]))
      ensures first == 0 ==> fat[..] == old(fat[..])
    {
      if n == 0 {
        return 0;
      }
      hide Unpack, Slack, Allocating, Freed, Joined, Picks, FirstFree, Linked;
      ghost var t, max := T(), g.MaxCluster();
      var prev: nat := 0;
      first := 0;
      AllocStart(t, max);
      for i := 0 to n
        invariant Allocating(t, T(), max, i, first, prev)
        invariant Slack(fat[..]) == old(Slack(fat[..]))
      {
        AllocatingRound(t, T(), max, n, i, first, prev);
        ghost var before, prev0, first0 := T(), prev, first;
        var cl := TakeNext(prev);
        if cl == 0 {
          AllocatingRollback(t, before, max, i, first0, prev0);
          if first != 0 {
            FreeChain(first);
          }
          SameTable();
          return 0;
        }
        if first == 0 {
          first := cl;
        }
        prev := cl;
      }
      AllocatingDone(t, T(), max, n, first, prev);
    }

    // ---------------------------------------------------------------- sector transfers

    ghost function D(): (d: V.Disk)
      reads this
    {
      V.Disk(sectors, transfers)
    }

    // write_sector
    method WriteSector(lba: int, s: V.Sector) returns (ok: bool)
      modifies this
      ensures V.Io(D(), ok) == V.Put(old(D()), env, lba, s)
    {
      ok := 0 <= lba < |sectors| && env(transfers).Done?;
      if 0 <= lba < |sectors| {
        sectors := sectors[lba := if ok then s else env(transfers).residue];
      }
      transfers := transfers + 1;
    }

    // read_sector
    method ReadSector(lba: int) returns (ok: bool, s: seq<byte>)
      modifies this`transfers
      ensures V.Fetched(D(), ok, s) == V.Get(old(D()), env, lba)
    {
      ok, s := false, [];
      if 0 <= lba < |sectors| && env(transfers).Done? {
        ok, s := true, sectors[lba];
      }
      transfers := transfers + 1;
    }

    // Write a whole buffer, sector by sector, from `base` on; stop at the first failure.
    method WriteBuffer(base: nat, buf: array<byte>, n: nat) returns (ok: bool)
      requires buf.Length == 512 * n
      modifies this
      ensures V.Io(D(), ok) == V.PutRun(old(D()), env, base, buf[..], n, 0)
    {
      for s := 0 to n
        invariant V.PutRun(D(), env, base, buf[..], n, s) == V.PutRun(old(D()), env, base, buf[..], n, 0)
      {
        assert buf[512 * s..512 * s + 512] == V.Chunk(buf[..], s);
        ok := WriteSector(base + s, buf[512 * s..512 * s + 512]);
        if !ok {
          return;
        }
      }
      ok := true;
    }

    lemma {:induction false} BuffersAreVolume()
      requires Valid()
      ensures Vol().Formed() && Vol().Fat() == fat[..] && Vol().Root() == root[..]
    {
      UnpackRoundTrip(fat[..]);
      SlotsRoundTrip(root[..], g.rootEntries);
    }

    // fat12_flush_fat
    method FlushFat() returns (ok: bool)
      requires Valid()
      modifies this
      ensures Valid() && V.Result(Vol(), ok) == V.FlushFat(old(Vol()), env)
    {
      hide V.PutRun, Unpack, Slack, Slots, TableBytes, SlotBytes;
      BuffersAreVolume();
      ok := WriteBuffer(g.reserved, fat, g.fatSectors);
      if ok {
        ok := WriteBuffer(g.reserved + g.fatSectors, fat, g.fatSectors);
      }
    }

    // flush_root
    method FlushRoot() returns (ok: bool)
      requires Valid()
      modifies this
      ensures Valid() && V.Result(Vol(), ok) == V.FlushRoot(old(Vol()), env)
    {
      hide V.PutRun, Unpack, Slack, Slots, TableBytes, SlotBytes;
      BuffersAreVolume();
      ok := WriteBuffer(g.RootStart(), root, g.RootSectors());
    }

    // ---------------------------------------------------------------- the root directory

    ghost function S(): (s: seq<Dirent>)
      requires Valid()
      reads this, root
    {
      Slots(root[..], g.rootEntries)
    }

    lemma {:induction false} SlotAt(i: nat)
      requires Valid() && i < g.rootEntries
      ensures S()[i].name == root[32 * i..32 * i + 11]
      ensures S()[i].name[0] == root[32 * i] && S()[i].attr == root[32 * i + 11]
      ensures S()[i].first == Le16(root[..], 32 * i + 26) && S()[i].size == Le32(root[..], 32 * i + 28)
    {
      var b := root[..][32 * i..32 * i + 32];
      assert b[..11] == root[32 * i..32 * i + 11];
      assert forall k :: 0 <= k < 32 ==> b[k] == root[32 * i + k];
    }

    // find_dir_entry, and the search in fat12_find_file
    method FindDirEntry(wanted: Name) returns (r: Found)
      requires Valid()
      ensures r == Find(S(), wanted)
    {
      hide Slots, Matches, Le16, Le32;
      for i := 0 to g.rootEntries
        invariant FindFrom(S(), wanted, 0) == FindFrom(S(), wanted, i)
      {
        SlotAt(i);
        if root[32 * i] == FREE {
          return Miss;
        }
        if root[32 * i] != DELETED && root[32 * i + 11] != ATTR_LFN {
          var same := NameMatch(root[32 * i..32 * i + 11], wanted);
          if same {
            return Hit(i);
          }
        }
      }
      return Miss;
    }

    // find_free_dir_slot
    method FindFreeDirSlot() returns (r: Found)
      requires Valid()
      ensures r == VacantSlot(S())
    {
      hide Slots;
      for i := 0 to g.rootEntries
        invariant VacantFrom(S(), 0) == VacantFrom(S(), i)
      {
        SlotAt(i);
        if root[32 * i] == FREE || root[32 * i] == DELETED {
          return Hit(i);
        }
      }
      return Miss;
    }

    // memcpy of `bytes` to offset `o` of slot `i`
    method StoreBytes(i: nat, o: nat, bytes: seq<byte>)
      requires Valid() && i < g.rootEntries && o + |bytes| <= 32
      modifies root
      ensures S() == old(S())[i := ParseDirent(Splice(old(root[..])[32 * i..32 * i + 32], o, bytes))]
    {
      ghost var before := root[..];
      for k := 0 to |bytes|
        invariant forall x :: 0 <= x < root.Length ==>
                    root[x] == if 32 * i + o <= x < 32 * i + o + k then bytes[x - 32 * i - o] else before[x]
      {
        root[32 * i + o + k] := bytes[k];
      }
      assert root[..] == Splice(before, 32 * i + o, bytes);
      SlotPatched(before, g.rootEntries, i, o, bytes);
    }

    // e[26..32]: first cluster and size
    method StoreTail(i: nat, first: u16, size: u32)
      requires Valid() && i < g.rootEntries
      modifies root
      ensures S() == old(S())[i := old(S())[i].(first := first, size := size)]
    {
      hide ParseDirent, Splice, TailBytes;
      TailPatched(root[..][32 * i..32 * i + 32], first, size);
      StoreBytes(i, 26, TailBytes(first, size));
    }

    // e[0..26]: name, attribute, zeroed times
    method StoreHead(i: nat, name: Name, attr: byte)
      requires Valid() && i < g.rootEntries
      modifies root
      ensures S() == old(S())[i := old(S())[i].(name := name, attr := attr, middle := Zeros(14))]
    {
      hide ParseDirent, Splice, HeadBytes;
      HeadPatched(root[..][32 * i..32 * i + 32], name, attr);
      StoreBytes(i, 0, HeadBytes(name, attr));
    }

    // A whole new entry.
    method StoreEntry(i: nat, name: Name, attr: byte, first: u16, size: u32)
      requires Valid() && i < g.rootEntries
      modifies root
      ensures S() == old(S())[i := Dirent(name, attr, Zeros(14), first, size)]
    {
      hide Slots;
      StoreHead(i, name, attr);
      StoreTail(i, first, size);
      assert S() == old(S())[i := Dirent(name, attr, Zeros(14), first, size)];
    }

    // e[0] := 0xE5
    method StoreDeleted(i: nat)
      requires Valid() && i < g.rootEntries
      modifies root
      ensures S() == old(S())[i := old(S())[i].(name := [DELETED] + old(S())[i].name[1..])]
    {
      hide Splice;
      var b := root[..][32 * i..32 * i + 32];
      LeadPatched(b, DELETED);
      assert b[..11][1..] == b[1..11];
      StoreBytes(i, 0, [DELETED]);
    }

    // ---------------------------------------------------------------- data

    // write_data_to_clusters
    method WriteDataToClusters(first: nat, data: seq<byte>) returns (ok: bool)
      requires Valid()
      modifies this
      ensures Valid() && V.Io(D(), ok) == V.PutChain(old(D()), env, g, T(), first, data)
    {
      var cluster := first;
      var p: nat := 0;
      while cluster >= 2 && cluster < 0xFF0 && p < |data|
        invariant p <= |data| && Valid()
        invariant V.PutChain(D(), env, g, T(), cluster, data[p..]) == V.PutChain(old(D()), env, g, T(), first, data)
        decreases |data| - p
      {
        var chunk := if |data| - p < 512 then |data| - p else 512;
        assert data[p..][..chunk] == data[p..p + chunk];
        assert data[p..][chunk..] == data[p + chunk..];
        ok := WriteSector(g.Lba(cluster), V.Padded(data[p..p + chunk]));
        if !ok {
          return;
        }
        p := p + chunk;
        cluster := GetFatEntry(cluster);
      }
      assert p == |data| ==> data[p..] == [];
      ok := true;
    }

    // The loop of fat12_read_file.
    method ReadChain(first: u16, buffer: array<byte>) returns (ok: bool)
      requires Valid() && buffer != fat && buffer != root
      modifies this`transfers, buffer
      ensures Valid()
      ensures var f := V.GetChain(old(D()), env, g, old(T()), first, buffer.Length);
              ok == f.ok && (ok ==> buffer[..|f.data|] == f.data)
    {
      hide V.GetChain, Reading, Unpack, Slack, Slots, V.Get, Splice, At;
      var cluster: nat := first;
      var offset: nat := 0;
      var size := buffer.Length;
      ghost var t := T();
      ghost var f := V.GetChain(D(), env, g, t, first, size);
      ReadingStarts(f, D(), env, g, t, first, size);
      ghost var done := [];
      while cluster < 0xFF8 && offset < size
        invariant offset <= size && Valid() && T() == t && buffer[..offset] == done
        invariant Reading(f, D(), env, g, t, cluster, size - offset, done)
        decreases size - offset
      {
        ReadingRound(f, D(), env, g, t, cluster, size - offset, done);
        var got, sector := ReadSector(g.Lba(cluster));
        if !got {
          return false;
        }
        var copy := if size - offset < 512 then size - offset else 512;
        CopyInto(buffer, offset, sector[..copy]);
        done := done + sector[..copy];
        offset := offset + copy;
        cluster := GetFatEntry(cluster);
      }
      ReadingEnds(f, D(), env, g, t, cluster, size - offset, done);
      return true;
    }

    // fat12_read_file; `memory` says whether kmalloc found a buffer. The buffer holds the
    // bytes of the chain; where the chain is too short its tail is whatever it held before.
    method ReadFile(first: u16, size: u32, memory: bool) returns (ok: bool, buffer: array<byte>)
      requires Valid()
      modifies this
      ensures Valid() && fresh(buffer)
      ensures ok ==> memory && size > 0 && buffer.Length == size
      ensures var f := V.GetChain(old(D()), env, g, T(), first, size);
              ok == (memory && size > 0 && f.ok) && (ok ==> buffer[..|f.data|] == f.data)
    {
      buffer := new byte[if memory then size else 0](_ => 0);
      if size == 0 || !memory {
        return false, buffer;
      }
      hide V.GetChain, Unpack;
      ok := ReadChain(first, buffer);
    }

    // ---------------------------------------------------------------- operations

    // The in-memory tail of fat12_write_file.
    method CommitEntry(k: nat, created: bool, wanted: Name, first: u16, size: u32)
      requires Safe() && k < g.rootEntries && (Stops(first) || first < |T()|)
      modifies fat, root
      ensures Valid() && Vol() == V.Committed(old(Vol()), k, created, wanted, old(T()), first, size)
    {
      hide Unpack, Slack, Slots, Freed;
      SlotAt(k);
      var oldFirst: nat := root[32 * k + 26] as int + root[32 * k + 27] as int * 0x100;
      StoreTail(k, first, size);
      if oldFirst >= 2 && oldFirst != first {
        FreeChain(oldFirst);
      }
      if created {
        StoreHead(k, wanted, ATTR_FILE);
        StoreTail(k, 0, 0);
      }
      StoreTail(k, first, size);
    }

    // Persist the FAT, then the root directory.
    method FlushBoth() returns (ok: bool)
      requires Valid()
      modifies this
      ensures Valid() && V.Result(Vol(), ok) == V.FlushBoth(old(Vol()), env)
    {
      BuffersAreVolume();
      ok := FlushFat();
      if ok {
        ok := FlushRoot();
      }
    }

    // The middle part of fat12_write_file: take clusters, write the data, give up cleanly.
    method StageData(data: seq<byte>) returns (ok: bool, first: nat)
      requires Safe() && |data| < TWO32
      modifies this, fat
      ensures Valid() && Staged(old(Vol()), env, data, Vol(), first, ok)
    {
      hide Unpack, Slack, Slots, Freed, Linked, V.PutChain, V.FlushFat, Picks, V.FlushFat;
      ok, first := true, 0;
      if |data| == 0 {
        StagedNothing(Vol(), env);
      } else {
        first := AllocChain((|data| + 511) % TWO32 / 512);
        if first == 0 {
          return false, first;
        }
        LinkedInside(old(T()), V.Space(old(Vol()), |data|));
        ok := WriteDataToClusters(first, data);
        if !ok {
          FreeChain(first);
          var _ := FlushFat();
        }
      }
    }

    // fat12_write_file
    method WriteFile(name: CString, data: seq<byte>) returns (ok: bool)
      requires Safe() && |data| < TWO32
      modifies this, fat, root
      ensures Valid() && V.Result(Vol(), ok) == V.WriteFile(old(Vol()), env, name, data)
    {
      hide Unpack, Slack, Slots, Staged, V.Committed, V.FlushBoth, V.WriteFile, Find, VacantSlot, Format;
      var wanted := FormatName(name);
      var hit := FindDirEntry(wanted);
      var place := hit;
      if hit.Miss? {
        place := FindFreeDirSlot();
        if place.Miss? {
          NoSlotWrite(Vol(), env, name, data);
          return false;
        }
      }
      var first;
      ok, first := StageData(data);
      StagedWrite(old(Vol()), env, name, data, Vol(), first, ok);
      if ok {
        CommitEntry(place.slot, hit.Miss?, wanted, first, |data|);
        ok := FlushBoth();
      }
    }

    // fat12_create_file
    method CreateFile(name: CString) returns (ok: bool)
      requires Safe()
      modifies this, root
      ensures Valid() && V.Result(Vol(), ok) == V.CreateFile(old(Vol()), env, name)
    {
      hide Unpack, Slack, Slots, V.FlushRoot, Find, VacantSlot, Format;
      var wanted := FormatName(name);
      var hit := FindDirEntry(wanted);
      if hit.Hit? {
        return false;
      }
      var place := FindFreeDirSlot();
      if place.Miss? {
        return false;
      }
      StoreEntry(place.slot, wanted, ATTR_FILE, 0, 0);
      ok := FlushRoot();
    }

    // The middle part of fat12_create_dir: one cluster and its "." and ".." entries.
    method StageDir() returns (ok: bool, cluster: nat)
      requires Safe()
      modifies this, fat
      ensures Valid() && StagedDir(old(Vol()), env, Vol(), cluster, ok)
    {
      hide Unpack, Slack, Slots, Linked, Freed, Picks, V.DirBody, V.Put, LinksInside;
      assert V.ClustersFor(512) == 1;
      cluster := AllocChain(1);
      if cluster == 0 {
        return false, cluster;
      }
      LinkedInside(old(T()), V.Space(old(Vol()), 512));
      ok := WriteSector(g.Lba(cluster), V.DirBody(cluster));
      if !ok {
        FreeChain(cluster);
      }
    }

    // fat12_create_dir
    method CreateDir(name: CString) returns (ok: bool)
      requires Safe()
      modifies this, fat, root
      ensures Valid() && V.Result(Vol(), ok) == V.CreateDir(old(Vol()), env, name)
    {
      hide Unpack, Slack, Slots, V.FlushBoth, V.CreateDir, StagedDir, Find, VacantSlot, Format;
      var wanted := FormatName(name);
      var hit := FindDirEntry(wanted);
      var place := FindFreeDirSlot();
      if hit.Hit? || place.Miss? {
        NoSlotDir(Vol(), env, name);
        return false;
      }
      var cluster;
      ok, cluster := StageDir();
      StagedMkdir(old(Vol()), env, name, Vol(), cluster, ok);
      if ok {
        StoreEntry(place.slot, wanted, ATTR_DIR, cluster, 0);
        ok := FlushBoth();
      }
    }

    // fat12_delete_file
    method DeleteFile(name: CString) returns (ok: bool)
      requires Safe()
      modifies this, fat, root
      ensures Valid() && V.Result(Vol(), ok) == V.DeleteFile(old(Vol()), env, name)
    {
      hide Unpack, Slack, Slots, V.FlushBoth, Find, Format, Freed, TableBytes, SlotBytes, Stops;
      var wanted := FormatName(name);
      var hit := FindDirEntry(wanted);
      if hit.Miss? {
        return false;
      }
      SlotAt(hit.slot);
      var first: nat := root[32 * hit.slot + 26] as int + root[32 * hit.slot + 27] as int * 0x100;
      if first >= 2 {
        FreeChain(first);
      }
      StoreDeleted(hit.slot);
      ok := FlushBoth();
    }
  }

  // name_match
  method NameMatch(entry: Name, target: Name) returns (yes: bool)
    ensures yes == Matches(entry, target)
  {
    for i := 0 to 11
      invariant UpperAll(entry)[..i] == UpperAll(target)[..i]
    {
      assert UpperAll(entry)[i] == Upper(entry[i]) && UpperAll(target)[i] == Upper(target[i]);
      if Upper(entry[i]) != Upper(target[i]) {
        return false;
      }
    }
    assert UpperAll(entry)[..11] == UpperAll(entry) && UpperAll(target)[..11] == UpperAll(target);
    return true;
  }

  // fat12_format_name
  method FormatName(name: CString) returns (formatted: Name)
    ensures formatted == Format(name)
  {
    var out := new byte[11](_ => SPACE);
    var dot := 0;
    while dot < |name| && name[dot] != DOT
      invariant dot <= |name| && DotIndex(name) == dot + DotIndex(name[dot..])
    {
      assert name[dot..][1..] == name[dot + 1..];
      dot := dot + 1;
    }
    var nameLen := if dot > 8 then 8 else dot;
    var ext := if dot < |name| then name[dot + 1..] else [];
    var extLen := if |ext| > 3 then 3 else |ext|;
    CopyUpper(name[..dot], out, 0, nameLen);
    CopyUpper(ext, out, 8, extLen);
    formatted := out[..];
    assert formatted == Field(name[..dot], 8) + Field(ext, 3);
  }

  // Copy the first `n` bytes in upper case to `out` from `at` on.
  method CopyUpper(from: seq<byte>, out: array<byte>, at: nat, n: nat)
    requires n <= |from| && at + n <= out.Length
    modifies out
    ensures forall k :: 0 <= k < out.Length ==>
              out[k] == if at <= k < at + n then Upper(from[k - at]) else old(out[k])
  {
    for i := 0 to n
      invariant forall k :: 0 <= k < out.Length ==>
                  out[k] == if at <= k < at + i then Upper(from[k - at]) else old(out[k])
    {
      out[at + i] := Upper(from[i]);
    }
  }

  method CopyInto(buffer: array<byte>, offset: nat, bytes: seq<byte>)
    requires offset + |bytes| <= buffer.Length
    modifies buffer
    ensures buffer[..] == Splice(old(buffer[..]), offset, bytes)
    ensures buffer[..offset + |bytes|] == old(buffer[..offset]) + bytes
  {
    ghost var before := buffer[..];
    for k := 0 to |bytes|
      invariant forall x :: 0 <= x < buffer.Length ==>
                  buffer[x] == if offset <= x < offset + k then bytes[x - offset] else before[x]
    {
      buffer[offset + k] := bytes[k];
    }
    assert buffer[..] == Splice(before, offset, bytes);
  }

  // Load `n` sectors from `base` on into a new buffer.
  method LoadBuffer(d: V.Disk, env: V.Env, base: nat, n: nat) returns (d2: V.Disk, ok: bool, buffer: array<byte>)
    ensures fresh(buffer) && buffer.Length == 512 * n
    ensures var f := V.GetRun(d, env, base, n);
            && ok == f.ok && (ok ==> d2 == f.disk && buffer[..] == f.data)
  {
    buffer := new byte[512 * n](_ => 0);
    d2 := d;
    for i := 0 to n
      invariant var f := V.GetRun(d, env, base, i);
                f.ok && d2 == f.disk && buffer[..512 * i] == f.data
    {
      ghost var before := buffer[..512 * i];
      var got := V.Get(d2, env, base + i);
      d2 := got.disk;
      if !got.ok {
        LoadStops(d, env, base, i + 1, n);
        return d2, false, buffer;
      }
      CopyInto(buffer, 512 * i, got.data);
      assert buffer[..512 * (i + 1)] == before + got.data;
    }
    assert buffer[..512 * n] == buffer[..];
    ok := true;
  }

  // A run that has failed stays failed.
  lemma {:induction false} LoadStops(d: V.Disk, env: V.Env, base: nat, i: nat, n: nat)
    requires i <= n && !V.GetRun(d, env, base, i).ok
    ensures !V.GetRun(d, env, base, n).ok
  {
    if i < n { LoadStops(d, env, base, i, n - 1); }
  }

  // fat12_mount; `memory` says whether kmalloc grants all its requests. A volume of another
  // sector size, cluster size or FAT count is outside the model.
  method Mount(d: V.Disk, env: V.Env, memory: bool) returns (fs: Fat12?)
    ensures fs != null <==> memory && V.Mount(d, env).Mounted?
    ensures fs != null ==>
              && var v := V.Mount(d, env).vol;
              && fresh(fs) && fresh(fs.fat) && fresh(fs.root)
              && fs.env == env && fs.g == v.g && V.Disk(fs.sectors, fs.transfers) == v.disk
              && fs.fat.Length == 512 * v.g.fatSectors && fs.root.Length == 512 * v.g.RootSectors()
              && Unpack(fs.fat[..]) == v.table && Slack(fs.fat[..]) == v.slack
              && Slots(fs.root[..32 * v.g.rootEntries], v.g.rootEntries) == v.dir
    ensures fs != null && V.Mount(d, env).vol.Formed() ==> fs.Valid() && fs.Vol() == V.Mount(d, env).vol
  {
    hide V.GetRun, Unpack, Slack, Slots, V.ParseBpb;
    if !memory {
      return null;
    }
    var b := V.Get(d, env, 0);
    if !b.ok || !V.BpbSupported(b.data) {
      return null;
    }
    var g := V.ParseBpb(b.data);
    var d1, fatOk, fat := LoadBuffer(b.disk, env, g.FatStart(0), g.fatSectors);
    if !fatOk {
      return null;
    }
    var d2, rootOk, root := LoadBuffer(d1, env, g.RootStart(), g.RootSectors());
    if !rootOk {
      return null;
    }
    fs := new Fat12(g, fat, root, env, d2.sectors, d2.transfers);
    if g.rootEntries % 16 == 0 {
      assert root[..32 * g.rootEntries] == root[..];
    }
  }
}

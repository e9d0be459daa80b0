/**
 What each operation of the driver does to the bytes of the root directory: the 32-byte record it
 writes, or the bytes of it that it changes, and that all others stay.
 */
module FatRecords {
  import opened Bytes
  import opened FatTable
  import opened FatChains
  import opened FatDirectory
  import opened FatVolume
  import opened FatDisk
  import opened FatInvariant
  import opened FatSteps
  import opened FatSync
  import opened FatFiles
  import opened FatFormat

  // Name, attribute, fourteen bytes, first cluster and size, both little-endian.
  function Record(name: Name, attr: byte, middle: seq<byte>, first: u16, size: u32): (b: seq<byte>)
    requires |middle| == 14
    ensures |b| == 32
  {
    name + [attr] + middle
    + [first % 0x100, first / 0x100]
    + [size % 0x100, size / 0x100 % 0x100, size / 0x1_0000 % 0x100, size / 0x100_0000]
  }

  lemma {:induction false} Replaced(v: Volume, v2: Volume, k: nat, e: Dirent)
    requires v.Formed() && v2.Formed() && v2.g == v.g && k < |v.dir| && e.Valid() && v2.dir == v.dir[k := e]
    ensures v2.Root() == Splice(v.Root(), 32 * k, Record(e.name, e.attr, e.middle, e.first, e.size))
  {
    SlotStored(v.dir, k, e);
  }

  // A new file: attribute 0x20, no cluster, no bytes.
  lemma {:induction false} CreateRecord(v: Volume, env: Env, name: CString)
    requires v.Safe() && Find(v.dir, Format(name)).Miss? && VacantSlot(v.dir).Hit?
    ensures var v2, k := CreateFile(v, env, name).vol, VacantSlot(v.dir).slot;
            v2.Root() == Splice(v.Root(), 32 * k, Format(name) + [0x20] + Zeros(20)) && v2.table == v.table
  {
    hide Find, VacantSlot, Format, FlushRoot;
    var e := Dirent(Format(name), ATTR_FILE, Zeros(14), 0, 0);
    Replaced(v, CreateFile(v, env, name).vol, VacantSlot(v.dir).slot, e);
    assert Record(e.name, 0x20, Zeros(14), 0, 0) == Format(name) + [0x20] + Zeros(20);
  }

  // Deleting changes one byte of the directory.
  lemma {:induction false} DeleteRecord(v: Volume, env: Env, name: CString)
    requires v.Safe() && Find(v.dir, Format(name)).Hit?
    ensures var v2, k := DeleteFile(v, env, name).vol, Find(v.dir, Format(name)).slot;
            v2.Root() == v.Root()[32 * k := 0xE5]
  {
    hide Find, Format, FlushBoth, SlotBytes;
    var v2, k := DeleteFile(v, env, name).vol, Find(v.dir, Format(name)).slot;
    var e := v.dir[k];
    var e2 := e.(name := [DELETED] + e.name[1..]);
    assert v2.dir == v.dir[k := e2] by {
      FreedInside(v.table, e.first);
    }
    Replaced(v, v2, k, e2);
    SlotBytesAt(v.dir, k);
    MarkedRecord(v.Root(), k, e);
  }

  lemma {:induction false} MarkedRecord(root: seq<byte>, k: nat, e: Dirent)
    requires e.Valid() && 32 * k + 32 <= |root| && root[32 * k..32 * k + 32] == DirentBytes(e)
    ensures Splice(root, 32 * k, Record([DELETED] + e.name[1..], e.attr, e.middle, e.first, e.size))
            == root[32 * k := 0xE5]
  {
    var b := DirentBytes(e);
    var b2 := Record([DELETED] + e.name[1..], e.attr, e.middle, e.first, e.size);
    assert b2 == b[0 := 0xE5];
    hide DirentBytes, Record;
    var r, r2 := Splice(root, 32 * k, b2), root[32 * k := 0xE5];
    forall x | 0 <= x < |root|
      ensures r[x] == r2[x]
    {
      if 32 * k <= x < 32 * k + 32 {
        var y := x - 32 * k;
        assert r[32 * k + y] == b2[y] && root[32 * k..32 * k + 32][y] == b[y];
      }
    }
  }

  // A new directory: attribute 0x10, its one cluster, no bytes ...
  lemma {:induction false} MkdirRecord(v: Volume, env: Env, name: CString)
    requires v.Safe() && AllDone(env)
    requires Find(v.dir, Format(name)).Miss? && VacantSlot(v.dir).Hit? && Fits(v, 512)
    ensures var v2, k, c := CreateDir(v, env, name).vol, VacantSlot(v.dir).slot, Head(Space(v, 512));
            v2.Root() == Splice(v.Root(), 32 * k, Record(Format(name), 0x10, Zeros(14), c, 0))
  {
    hide Find, VacantSlot, Format, Linked, FlushBoth, DirBody, Record, SlotBytes;
    MkdirMakes(v, env, name);
    var e := Dirent(Format(name), ATTR_DIR, Zeros(14), Head(Space(v, 512)), 0);
    Replaced(v, CreateDir(v, env, name).vol, VacantSlot(v.dir).slot, e);
  }

  // ... and the sector of that cluster is an empty directory.
  lemma {:induction false} MkdirSector(v: Volume, env: Env, name: CString)
    requires v.Safe() && AllDone(env)
    requires Find(v.dir, Format(name)).Miss? && VacantSlot(v.dir).Hit? && Fits(v, 512)
    ensures var sectors, c := CreateDir(v, env, name).vol.disk.sectors, Head(Space(v, 512));
            0 <= v.g.Lba(c) < |sectors| && EmptyDir(sectors[v.g.Lba(c)], c)
  {
    hide Find, VacantSlot, Format, Linked, DirBody, EmptyDir, CreateDir;
    var c := Space(v, 512)[0];
    ClusterOnDisk(v.g, c);
    DirPut(v, env, name, c);
    DirSector(c);
  }

  lemma {:induction false} DirPut(v: Volume, env: Env, name: CString, c: u16)
    requires v.Safe() && AllDone(env) && v.g.DataStart() <= v.g.Lba(c) < |v.disk.sectors|
    requires Find(v.dir, Format(name)).Miss? && VacantSlot(v.dir).Hit? && Fits(v, 512) && c == Space(v, 512)[0]
    ensures var sectors := CreateDir(v, env, name).vol.disk.sectors;
            |sectors| == |v.disk.sectors| && sectors[v.g.Lba(c)] == DirBody(c)
  {
    hide Find, VacantSlot, Format, Linked, FlushBoth, DirBody;
    var t1 := Linked(v.table, Space(v, 512));
    LinkedInside(v.table, Space(v, 512));
    var w := Put(v.disk, env, v.g.Lba(c), DirBody(c));
    FlushKeepsData(WithDir(v.(disk := w.disk), VacantSlot(v.dir).slot, Format(name), t1, c), env);
  }

  // A write stores first cluster and length: in a new record with attribute 0x20, or in the last
  // six bytes of the one that is there.
  lemma {:induction false} WriteRecord(v: Volume, env: Env, name: CString, data: seq<byte>)
    requires v.Safe() && |data| < TWO32 && Commits(v, env, name, data)
    ensures var v2, k, c := WriteFile(v, env, name, data).vol, SlotOf(v, name), Head(Space(v, |data|));
            && k < |v.dir|
            && v2.Root() == Splice(v.Root(), 32 * k,
                                   if Find(v.dir, Format(name)).Hit?
                                   then Record(v.dir[k].name, v.dir[k].attr, v.dir[k].middle, c, |data|)
                                   else Record(Format(name), 0x20, Zeros(14), c, |data|))
  {
    hide Find, VacantSlot, Format, Linked, FlushBoth, PutChain, SlotBytes, Record, Space, Freed;
    var cs, k, n := Space(v, |data|), SlotOf(v, name), Format(name);
    var v2 := WriteFile(v, env, name, data).vol;
    CommittedIs(v, env, name, data);
    Replaced(v, v2, k, v2.dir[k]);
  }
}

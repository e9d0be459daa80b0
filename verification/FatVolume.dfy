/**
 A mounted FAT12 volume as a value, and every driver operation as a function of the volume
 and of what the block device does with each transfer.

 512-byte sectors, one sector per cluster, two FAT copies; the rest of the geometry is free.
 */
module FatVolume {
  import opened Bytes
  import opened FatTable
  import opened FatChains
  import opened FatDirectory

  type Sector = s: seq<byte> | |s| == 512 witness Zeros(512)

  // ---------------------------------------------------------------- geometry

  datatype Geometry = Geometry(reserved: nat, fatSectors: nat, rootEntries: nat, totalSectors: nat) {
    function RootSectors(): nat { (rootEntries * 32 + 511) / 512 }
    function FatStart(copy: nat): nat { reserved + copy * fatSectors }
    function RootStart(): nat { reserved + 2 * fatSectors }
    function DataStart(): nat { RootStart() + RootSectors() }

    // fat12_max_cluster: one past the last cluster, clear of the 0xFF0+ marks.
    function MaxCluster(): nat
      requires DataStart() <= totalSectors
    {
      var mc := 2 + totalSectors - DataStart();
      if mc >= 0xFF0 then 0xFEF else mc
    }

    // cluster_to_sector
    function Lba(c: nat): int { DataStart() + c - 2 }

    ghost predicate Valid() {
      && 1 <= reserved
      && rootEntries % 16 == 0
      && DataStart() <= totalSectors
      && MaxCluster() <= Capacity(512 * fatSectors)
    }
  }

  // ---------------------------------------------------------------- the block device

  // What happens to one sector transfer. A failed write may leave anything in its sector.
  datatype Outcome = Done | Failed(residue: Sector)

  // The device's behaviour: the outcome of each transfer, by its running number.
  type Env = nat -> Outcome

  datatype Disk = Disk(sectors: seq<Sector>, transfers: nat)

  datatype Io = Io(disk: Disk, ok: bool)

  // write_sector
  function Put(d: Disk, env: Env, lba: int, s: Sector): (r: Io)
    ensures |r.disk.sectors| == |d.sectors|
    ensures forall k :: 0 <= k < |d.sectors| && k != lba ==> r.disk.sectors[k] == d.sectors[k]
    ensures r.ok ==> 0 <= lba < |d.sectors| && r.disk.sectors[lba] == s
  {
    if !(0 <= lba < |d.sectors|) then Io(d.(transfers := d.transfers + 1), false)
    else match env(d.transfers)
      case Done => Io(Disk(d.sectors[lba := s], d.transfers + 1), true)
      case Failed(residue) => Io(Disk(d.sectors[lba := residue], d.transfers + 1), false)
  }

  datatype Fetched = Fetched(disk: Disk, ok: bool, data: seq<byte>)

  // read_sector
  function Get(d: Disk, env: Env, lba: int): (r: Fetched)
    ensures r.disk.sectors == d.sectors
    ensures r.ok ==> 0 <= lba < |d.sectors| && r.data == d.sectors[lba]
  {
    var d1 := d.(transfers := d.transfers + 1);
    if 0 <= lba < |d.sectors| && env(d.transfers).Done? then Fetched(d1, true, d.sectors[lba])
    else Fetched(d1, false, [])
  }

  function Chunk(bytes: seq<byte>, k: nat): (s: Sector)
    requires 512 * k + 512 <= |bytes|
  {
    bytes[512 * k..512 * k + 512]
  }

  // Store sectors `k`, `k + 1`, ... of `bytes` at `base + k`, `base + k + 1`, ..., stopping
  // at the first failure.
  function PutRun(d: Disk, env: Env, base: nat, bytes: seq<byte>, n: nat, k: nat): (r: Io)
    requires |bytes| == 512 * n && k <= n
    ensures |r.disk.sectors| == |d.sectors|
    decreases n - k
  {
    if k == n then Io(d, true) else
    var w := Put(d, env, base + k, Chunk(bytes, k));
    if w.ok then PutRun(w.disk, env, base, bytes, n, k + 1) else w
  }

  // ---------------------------------------------------------------- the volume

  // The in-memory table (entries, and the few bits of its buffer that belong to no entry),
  // the in-memory root directory, and the disk.
  datatype Volume = Volume(g: Geometry, table: seq<u12>, slack: nat, dir: seq<Dirent>, disk: Disk) {
    ghost predicate Formed() {
      && g.Valid()
      && |table| == Capacity(512 * g.fatSectors) && SlackFits(512 * g.fatSectors, slack)
      && |dir| == g.rootEntries && (forall i :: 0 <= i < |dir| ==> dir[i].Valid())
      && |disk.sectors| >= g.totalSectors
    }

    // Every cluster number the driver may follow or clear lies inside the table buffer:
    // links in the table and first-cluster fields of all slots, deleted ones included.
    ghost predicate Safe() {
      && Formed()
      && LinksInside(table)
      && (forall i :: 0 <= i < |dir| ==> Stops(dir[i].first) || dir[i].first < |table|)
    }

    // The buffers fs->fat and fs->root_dir.
    ghost function Fat(): (b: seq<byte>)
      requires Formed()
      ensures |b| == 512 * g.fatSectors
    {
      TableBytes(512 * g.fatSectors, table, slack)
    }

    ghost function Root(): (b: seq<byte>)
      requires Formed()
      ensures |b| == 512 * g.RootSectors()
    {
      SlotBytes(dir)
    }
  }

  datatype Result = Result(vol: Volume, ok: bool)

  // fat12_flush_fat: both copies, in order.
  ghost function FlushFat(v: Volume, env: Env): (r: Result)
    requires v.Formed()
    ensures r.vol == v.(disk := r.vol.disk) && r.vol.Formed()
    ensures |r.vol.disk.sectors| == |v.disk.sectors|
  {
    var a := PutRun(v.disk, env, v.g.FatStart(0), v.Fat(), v.g.fatSectors, 0);
    if !a.ok then Result(v.(disk := a.disk), false) else
    var b := PutRun(a.disk, env, v.g.FatStart(1), v.Fat(), v.g.fatSectors, 0);
    Result(v.(disk := b.disk), b.ok)
  }

  // flush_root
  ghost function FlushRoot(v: Volume, env: Env): (r: Result)
    requires v.Formed()
    ensures r.vol == v.(disk := r.vol.disk) && r.vol.Formed()
    ensures |r.vol.disk.sectors| == |v.disk.sectors|
  {
    var a := PutRun(v.disk, env, v.g.RootStart(), v.Root(), v.g.RootSectors(), 0);
    Result(v.(disk := a.disk), a.ok)
  }

  // Persist the table, then the directory.
  ghost function FlushBoth(v: Volume, env: Env): (r: Result)
    requires v.Formed()
    ensures r.vol == v.(disk := r.vol.disk) && r.vol.Formed()
    ensures |r.vol.disk.sectors| == |v.disk.sectors|
  {
    var f := FlushFat(v, env);
    if f.ok then FlushRoot(f.vol, env) else f
  }

  // ---------------------------------------------------------------- data clusters

  function Padded(data: seq<byte>): (s: Sector)
    requires |data| <= 512
  {
    data + Zeros(512 - |data|)
  }

  // write_data_to_clusters
  function PutChain(d: Disk, env: Env, g: Geometry, t: seq<u12>, c: nat, data: seq<byte>): (r: Io)
    ensures |r.disk.sectors| == |d.sectors|
    ensures data == [] ==> r.ok
    decreases |data|
  {
    if Stops(c) || data == [] then Io(d, true) else
    var n := if |data| < 512 then |data| else 512;
    var w := Put(d, env, g.Lba(c), Padded(data[..n]));
    if w.ok then PutChain(w.disk, env, g, t, At(t, c), data[n..]) else w
  }

  // The loop of fat12_read_file: `size` bytes wanted from cluster `c` on. The bytes it
  // could copy; fewer than `size` when the chain is too short.
  function GetChain(d: Disk, env: Env, g: Geometry, t: seq<u12>, c: nat, size: nat): (r: Fetched)
    ensures r.disk.sectors == d.sectors
    ensures |r.data| <= size
    decreases size
  {
    if c >= 0xFF8 || size == 0 then Fetched(d, true, []) else
    var f := Get(d, env, g.Lba(c));
    if !f.ok then Fetched(f.disk, false, []) else
    var n := if size < 512 then size else 512;
    var rest := GetChain(f.disk, env, g, t, At(t, c), size - n);
    Fetched(rest.disk, rest.ok, if rest.ok then f.data[..n] + rest.data else [])
  }

  // Clusters for `size` bytes, in 32-bit arithmetic.
  function ClustersFor(size: u32): (n: nat) {
    (size + 511) % 0x1_0000_0000 / 512
  }

  // ---------------------------------------------------------------- operations

  // Space for `data`: the clusters it would get, lowest free ones first.
  ghost function Space(v: Volume, size: u32): (cs: seq<nat>)
    requires v.Formed()
    ensures Ascending(cs) && Within(cs, 2, v.g.MaxCluster()) && AllFree(v.table, cs)
    ensures forall i :: 0 <= i < |cs| ==> cs[i] < |v.table| && cs[i] < 0x1000
  {
    PicksAscendFree(v.table, 2, v.g.MaxCluster(), ClustersFor(size));
    if size == 0 then [] else Picks(v.table, 2, v.g.MaxCluster(), ClustersFor(size))
  }

  // alloc_chain finds as many clusters as it was asked for.
  ghost predicate Fits(v: Volume, size: u32)
    requires v.Formed()
  {
    size == 0 || (ClustersFor(size) > 0 && |Space(v, size)| == ClustersFor(size))
  }

  function Head(cs: seq<nat>): (c: nat) { if cs == [] then 0 else cs[0] }

  // The in-memory part of the tail of fat12_write_file: free what the slot referred to and
  // store the entry.
  ghost function Committed(v: Volume, slot: nat, created: bool, wanted: Name,
                           t1: seq<u12>, first: u16, size: u32): (r: Volume)
    requires v.Safe() && slot < |v.dir|
    requires |t1| == |v.table| && LinksInside(t1) && (Stops(first) || first < |t1|)
    ensures r.Safe() && r.g == v.g && r.disk == v.disk
  {
    var e := v.dir[slot];
    var t2 := if e.first >= 2 && e.first != first then Freed(t1, e.first) else t1;
    FreedInside(t1, e.first);
    var e2 := if created then Dirent(wanted, ATTR_FILE, Zeros(14), first, size)
              else e.(first := first, size := size);
    v.(table := t2, dir := v.dir[slot := e2])
  }

  // fat12_write_file
  ghost function WriteFile(v: Volume, env: Env, name: CString, data: seq<byte>): (r: Result)
    requires v.Safe() && |data| < TWO32
    ensures r.vol.Safe() && r.vol.g == v.g
  {
    var wanted := Format(name);
    var hit := Find(v.dir, wanted);
    var place := if hit.Hit? then hit else VacantSlot(v.dir);
    if place.Miss? || !Fits(v, |data|) then Result(v, false) else
    var cs := Space(v, |data|);
    LinkedInside(v.table, cs);
    var t1 := Linked(v.table, cs);
    var w := PutChain(v.disk, env, v.g, t1, Head(cs), data);
    var v1 := v.(disk := w.disk);
    if w.ok then FlushBoth(Committed(v1, place.slot, hit.Miss?, wanted, t1, Head(cs), |data|), env) else
    FreedInside(t1, Head(cs));
    FlushFat(v1.(table := Freed(t1, Head(cs))), env).(ok := false)
  }

  // fat12_create_file
  ghost function CreateFile(v: Volume, env: Env, name: CString): (r: Result)
    requires v.Safe()
    ensures r.vol.Safe() && r.vol.g == v.g
  {
    var wanted := Format(name);
    var place := VacantSlot(v.dir);
    if Find(v.dir, wanted).Hit? || place.Miss? then Result(v, false) else
    FlushRoot(v.(dir := v.dir[place.slot := Dirent(wanted, ATTR_FILE, Zeros(14), 0, 0)]), env)
  }

  const DOT_NAME: Name := Field([DOT], 11)
  const DOTDOT_NAME: Name := Field([DOT, DOT], 11)

  // The first sector of a new directory: "." refers to itself, ".." to the root.
  function DirBody(c: u16): (s: Sector) {
    DirentBytes(Dirent(DOT_NAME, ATTR_DIR, Zeros(14), c, 0))
    + DirentBytes(Dirent(DOTDOT_NAME, ATTR_DIR, Zeros(14), 0, 0)) + Zeros(448)
  }

  // The entry of a new directory, in memory.
  ghost function WithDir(v: Volume, slot: nat, wanted: Name, t1: seq<u12>, first: u16): (r: Volume)
    requires v.Safe() && slot < |v.dir|
    requires |t1| == |v.table| && LinksInside(t1) && first < |t1|
    ensures r.Safe() && r.g == v.g && r.disk == v.disk
  {
    v.(table := t1, dir := v.dir[slot := Dirent(wanted, ATTR_DIR, Zeros(14), first, 0)])
  }

  // fat12_create_dir
  ghost function CreateDir(v: Volume, env: Env, name: CString): (r: Result)
    requires v.Safe()
    ensures r.vol.Safe() && r.vol.g == v.g
  {
    var wanted := Format(name);
    var place := VacantSlot(v.dir);
    if Find(v.dir, wanted).Hit? || place.Miss? || !Fits(v, 512) then Result(v, false) else
    var cs := Space(v, 512);
    LinkedInside(v.table, cs);
    var t1 := Linked(v.table, cs);
    var w := Put(v.disk, env, v.g.Lba(cs[0]), DirBody(cs[0]));
    var v1 := v.(disk := w.disk);
    if w.ok then FlushBoth(WithDir(v1, place.slot, wanted, t1, cs[0]), env)
    else
      FreedInside(t1, cs[0]);
      Result(v1.(table := Freed(t1, cs[0])), false)
  }

  // fat12_delete_file
  ghost function DeleteFile(v: Volume, env: Env, name: CString): (r: Result)
    requires v.Safe()
    ensures r.vol.Safe() && r.vol.g == v.g
  {
    var hit := Find(v.dir, Format(name));
    if hit.Miss? then Result(v, false) else
    var e := v.dir[hit.slot];
    FreedInside(v.table, e.first);
    var t1 := if e.first >= 2 then Freed(v.table, e.first) else v.table;
    FlushBoth(v.(table := t1, dir := v.dir[hit.slot := e.(name := [DELETED] + e.name[1..])]), env)
  }

  // fat12_read_file: the bytes, or nothing when the file is empty or a transfer fails.
  ghost function ReadFile(v: Volume, env: Env, e: Dirent): (r: Fetched)
    requires v.Formed()
  {
    var f := GetChain(v.disk, env, v.g, v.table, e.first, e.size);
    if e.size == 0 then Fetched(v.disk, false, []) else f
  }

  // ---------------------------------------------------------------- mounting

  // Read `n` sectors from `base` on into one buffer.
  function GetRun(d: Disk, env: Env, base: nat, n: nat): (r: Fetched)
    ensures r.disk.sectors == d.sectors
    ensures r.ok ==> |r.data| == 512 * n
  {
    if n == 0 then Fetched(d, true, []) else
    var front := GetRun(d, env, base, n - 1);
    if !front.ok then front else
    var f := Get(front.disk, env, base + n - 1);
    Fetched(f.disk, f.ok, front.data + f.data)
  }

  // The BIOS parameter block, for the sector and cluster sizes and FAT count of this model.
  predicate BpbSupported(boot: Sector) {
    Le16(boot, 11) == 512 && boot[13] == 1 && boot[16] == 2
  }

  function ParseBpb(boot: Sector): (g: Geometry) {
    Geometry(Le16(boot, 14), Le16(boot, 22), Le16(boot, 17),
             if Le16(boot, 19) != 0 then Le16(boot, 19) else Le32(boot, 32))
  }

  datatype Mounted = Mounted(vol: Volume) | NotMounted

  // fat12_mount: the boot sector, then the first FAT copy, then the root directory.
  ghost function Mount(d: Disk, env: Env): (m: Mounted) {
    var b := Get(d, env, 0);
    if !b.ok || !BpbSupported(b.data) then NotMounted else
    var g := ParseBpb(b.data);
    var f := GetRun(b.disk, env, g.FatStart(0), g.fatSectors);
    if !f.ok then NotMounted else
    var r := GetRun(f.disk, env, g.RootStart(), g.RootSectors());
    if !r.ok then NotMounted else
    Mounted(Volume(g, Unpack(f.data), Slack(f.data),
                   Slots(r.data[..32 * g.rootEntries], g.rootEntries), r.disk))
  }

  // ---------------------------------------------------------------- runs

  datatype Op =
    | Create(name: CString)
    | Write(name: CString, data: seq<byte>)
    | Mkdir(name: CString)
    | Delete(name: CString)
  {
    predicate Valid() { Write? ==> |data| < TWO32 }
  }

  ghost function Step(v: Volume, env: Env, op: Op): (r: Result)
    requires v.Safe() && op.Valid()
    ensures r.vol.Safe() && r.vol.g == v.g
  {
    match op
    case Create(name) => CreateFile(v, env, name)
    case Write(name, data) => WriteFile(v, env, name, data)
    case Mkdir(name) => CreateDir(v, env, name)
    case Delete(name) => DeleteFile(v, env, name)
  }

  // The volume after a run of operations, whatever each of them returned.
  ghost function Run(v: Volume, env: Env, ops: seq<Op>): (r: Volume)
    requires v.Safe() && forall i :: 0 <= i < |ops| ==> ops[i].Valid()
    ensures r.Safe() && r.g == v.g
    decreases |ops|
  {
    if ops == [] then v else Run(Step(v, env, ops[0]).vol, env, ops[1..])
  }
}

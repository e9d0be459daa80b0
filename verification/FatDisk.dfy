/**
 What flushing and data writing do to the sectors of the disk.
 */
module FatDisk {
  import opened Bytes
  import opened FatTable
  import opened FatChains
  import opened FatVolume

  ghost predicate AllDone(env: Env) {
    forall n :: env(n).Done?
  }

  // ---------------------------------------------------------------- runs of sectors

  lemma {:induction false} PutRunFrame(d: Disk, env: Env, base: nat, bytes: seq<byte>, n: nat, k: nat)
    requires |bytes| == 512 * n && k <= n
    ensures forall j :: 0 <= j < |d.sectors| && !(base + k <= j < base + n) ==>
              PutRun(d, env, base, bytes, n, k).disk.sectors[j] == d.sectors[j]
    decreases n - k
  {
    if k < n {
      var w := Put(d, env, base + k, Chunk(bytes, k));
      if w.ok { PutRunFrame(w.disk, env, base, bytes, n, k + 1); }
    }
  }

  // A run reported complete has stored every sector.
  lemma {:induction false} PutRunStores(d: Disk, env: Env, base: nat, bytes: seq<byte>, n: nat, k: nat, j: nat)
    requires |bytes| == 512 * n && k <= j < n
    requires PutRun(d, env, base, bytes, n, k).ok
    ensures base + j < |d.sectors|
    ensures PutRun(d, env, base, bytes, n, k).disk.sectors[base + j] == Chunk(bytes, j)
    decreases n - k
  {
    var w := Put(d, env, base + k, Chunk(bytes, k));
    if k < j {
      PutRunStores(w.disk, env, base, bytes, n, k + 1, j);
    } else {
      PutRunFrame(w.disk, env, base, bytes, n, k + 1);
    }
  }

  lemma {:induction false} PutRunSucceeds(d: Disk, env: Env, base: nat, bytes: seq<byte>, n: nat, k: nat)
    requires |bytes| == 512 * n && k <= n && base + n <= |d.sectors| && AllDone(env)
    ensures PutRun(d, env, base, bytes, n, k).ok
    decreases n - k
  {
    if k < n {
      var w := Put(d, env, base + k, Chunk(bytes, k));
      PutRunSucceeds(w.disk, env, base, bytes, n, k + 1);
    }
  }

  // A run stores its sectors in order up to the first failed transfer, and nothing behind it.
  lemma {:induction false} PutRunPrefix(d: Disk, env: Env, base: nat, bytes: seq<byte>, n: nat, k: nat)
    returns (m: nat)
    requires |bytes| == 512 * n && k <= n && base + n <= |d.sectors|
    ensures k <= m <= n
    ensures var r := PutRun(d, env, base, bytes, n, k);
            && (r.ok <==> m == n)
            && (forall j :: base + k <= j < base + m ==> r.disk.sectors[j] == Chunk(bytes, j - base))
            && (forall j :: base + m < j < |d.sectors| ==> r.disk.sectors[j] == d.sectors[j])
    decreases n - k
  {
    if k == n {
      return n;
    }
    var w := Put(d, env, base + k, Chunk(bytes, k));
    if !w.ok {
      return k;
    }
    m := PutRunPrefix(w.disk, env, base, bytes, n, k + 1);
    PutRunFrame(w.disk, env, base, bytes, n, k + 1);
  }

  // ---------------------------------------------------------------- flushing

  ghost predicate SameData(v: Volume, v2: Volume) {
    && |v2.disk.sectors| == |v.disk.sectors|
    && forall j :: v.g.DataStart() <= j < |v.disk.sectors| ==> v2.disk.sectors[j] == v.disk.sectors[j]
  }

  // Sector `j` is outside both FAT copies and the root directory.
  predicate Elsewhere(g: Geometry, j: nat) {
    j < g.reserved || g.DataStart() <= j
  }

  lemma {:induction false} FlushFatFrame(v: Volume, env: Env)
    requires v.Formed()
    ensures forall j :: 0 <= j < |v.disk.sectors| && !(v.g.reserved <= j < v.g.RootStart()) ==>
              FlushFat(v, env).vol.disk.sectors[j] == v.disk.sectors[j]
  {
    hide PutRun;
    var g := v.g;
    var a := PutRun(v.disk, env, g.FatStart(0), v.Fat(), g.fatSectors, 0);
    PutRunFrame(v.disk, env, g.FatStart(0), v.Fat(), g.fatSectors, 0);
    PutRunFrame(a.disk, env, g.FatStart(1), v.Fat(), g.fatSectors, 0);
  }

  lemma {:induction false} FlushRootFrame(v: Volume, env: Env)
    requires v.Formed()
    ensures forall j :: 0 <= j < |v.disk.sectors| && !(v.g.RootStart() <= j < v.g.DataStart()) ==>
              FlushRoot(v, env).vol.disk.sectors[j] == v.disk.sectors[j]
  {
    PutRunFrame(v.disk, env, v.g.RootStart(), v.Root(), v.g.RootSectors(), 0);
  }

  // Persisting writes only FAT and root sectors: not the boot area, not a file's data.
  lemma {:induction false} FlushKeepsData(v: Volume, env: Env)
    requires v.Formed()
    ensures SameData(v, FlushFat(v, env).vol)
    ensures SameData(v, FlushRoot(v, env).vol)
    ensures SameData(v, FlushBoth(v, env).vol)
    ensures forall j :: 0 <= j < |v.disk.sectors| && Elsewhere(v.g, j) ==>
              FlushBoth(v, env).vol.disk.sectors[j] == v.disk.sectors[j]
  {
    hide FlushFat, FlushRoot;
    FlushFatFrame(v, env);
    FlushRootFrame(v, env);
    FlushRootFrame(FlushFat(v, env).vol, env);
  }

  // ---------------------------------------------------------------- the data area

  lemma ClusterOnDisk(g: Geometry, c: nat)
    requires g.Valid() && 2 <= c < g.MaxCluster()
    ensures g.DataStart() <= g.Lba(c) < g.totalSectors
  {
  }

  // The first `size` bytes stored along `cs`.
  ghost function Content(sectors: seq<Sector>, g: Geometry, cs: seq<nat>, size: nat): (r: seq<byte>)
    requires g.Valid() && |sectors| >= g.totalSectors && Within(cs, 2, g.MaxCluster())
    ensures |r| <= size
    ensures size <= 512 * |cs| ==> |r| == size
    decreases |cs|
  {
    if cs == [] || size == 0 then [] else
    var n := if size < 512 then size else 512;
    ClusterOnDisk(g, cs[0]);
    sectors[g.Lba(cs[0])][..n] + Content(sectors, g, cs[1..], size - n)
  }

  lemma {:induction false} ContentKept(sectors: seq<Sector>, after: seq<Sector>, g: Geometry, cs: seq<nat>, size: nat)
    requires g.Valid() && |sectors| >= g.totalSectors && |after| >= g.totalSectors && Within(cs, 2, g.MaxCluster())
    requires forall c :: c in cs ==> 0 <= g.Lba(c) < g.totalSectors && after[g.Lba(c)] == sectors[g.Lba(c)]
    ensures Content(after, g, cs, size) == Content(sectors, g, cs, size)
    decreases |cs|
  {
    if cs != [] && size > 0 {
      assert cs[0] in cs;
      ContentKept(sectors, after, g, cs[1..], size - if size < 512 then size else 512);
    }
  }

  // The part of a chain that starts at position `i`, as the walks see it.
  ghost predicate ChainFrom(t: seq<u12>, max: nat, cs: seq<nat>) {
    cs == [] || IsChain(t, max, cs)
  }

  lemma {:induction false} RestOfChain(t: seq<u12>, max: nat, cs: seq<nat>)
    requires IsChain(t, max, cs)
    ensures ChainFrom(t, max, cs[1..])
    ensures if |cs| == 1 then At(t, cs[0]) >= 0xFF8 else At(t, cs[0]) == cs[1]
  {
    var r := cs[1..];
    assert forall i :: 0 <= i < |r| ==> r[i] == cs[i + 1];
    if r != [] { assert r[|r| - 1] == cs[|cs| - 1]; }
  }

  // Writing along a chain touches the chain's own sectors only, even when it fails.
  lemma {:induction false} PutChainFrame(d: Disk, env: Env, g: Geometry, t: seq<u12>, cs: seq<nat>, c: nat,
                                         data: seq<byte>)
    requires g.Valid() && |d.sectors| >= g.totalSectors
    requires ChainFrom(t, g.MaxCluster(), cs) && (if cs == [] then Stops(c) else c == cs[0])
    ensures forall j :: 0 <= j < |d.sectors| && (forall x :: x in cs ==> g.Lba(x) != j) ==>
              PutChain(d, env, g, t, c, data).disk.sectors[j] == d.sectors[j]
    decreases |cs|
  {
    if cs != [] && data != [] {
      var n := if |data| < 512 then |data| else 512;
      var w := Put(d, env, g.Lba(c), Padded(data[..n]));
      if w.ok {
        RestOfChain(t, g.MaxCluster(), cs);
        PutChainFrame(w.disk, env, g, t, cs[1..], At(t, c), data[n..]);
      }
    }
  }

  // A completed write leaves exactly the data along the chain.
  lemma {:induction false} PutChainStores(d: Disk, env: Env, g: Geometry, t: seq<u12>, cs: seq<nat>, c: nat,
                                          data: seq<byte>)
    requires g.Valid() && |d.sectors| >= g.totalSectors
    requires ChainFrom(t, g.MaxCluster(), cs) && (if cs == [] then Stops(c) else c == cs[0])
    requires |data| <= 512 * |cs|
    requires PutChain(d, env, g, t, c, data).ok
    ensures Content(PutChain(d, env, g, t, c, data).disk.sectors, g, cs, |data|) == data
    decreases |cs|
  {
    if data != [] {
      var n := if |data| < 512 then |data| else 512;
      var w := Put(d, env, g.Lba(c), Padded(data[..n]));
      RestOfChain(t, g.MaxCluster(), cs);
      var rest := cs[1..];
      PutChainStores(w.disk, env, g, t, rest, At(t, c), data[n..]);
      PutChainFrame(w.disk, env, g, t, rest, At(t, c), data[n..]);
      ClusterOnDisk(g, c);
      var final := PutChain(w.disk, env, g, t, At(t, c), data[n..]).disk.sectors;
      assert forall x :: x in rest ==> g.Lba(x) != g.Lba(c);
      assert final[g.Lba(c)] == Padded(data[..n]);
      assert Padded(data[..n])[..n] == data[..n];
      assert data == data[..n] + data[n..];
    }
  }

  // The sectors of a written chain hold the data and, in the last one, zeros behind it.
  lemma {:induction false} PutChainPads(d: Disk, env: Env, g: Geometry, t: seq<u12>, cs: seq<nat>, c: nat,
                                        data: seq<byte>, i: nat, x: nat)
    requires g.Valid() && |d.sectors| >= g.totalSectors
    requires ChainFrom(t, g.MaxCluster(), cs) && (if cs == [] then Stops(c) else c == cs[0])
    requires PutChain(d, env, g, t, c, data).ok
    requires i < |cs| && 512 * i < |data| && x < 512
    ensures g.Lba(cs[i]) < |d.sectors|
    ensures PutChain(d, env, g, t, c, data).disk.sectors[g.Lba(cs[i])][x]
            == if 512 * i + x < |data| then data[512 * i + x] else 0
    decreases |cs|
  {
    var n := if |data| < 512 then |data| else 512;
    var w := Put(d, env, g.Lba(c), Padded(data[..n]));
    ClusterOnDisk(g, c);
    RestOfChain(t, g.MaxCluster(), cs);
    if i > 0 {
      PutChainPads(w.disk, env, g, t, cs[1..], At(t, c), data[n..], i - 1, x);
    } else {
      PutChainFrame(w.disk, env, g, t, cs[1..], At(t, c), data[n..]);
    }
  }

  lemma {:induction false} PutChainSucceeds(d: Disk, env: Env, g: Geometry, t: seq<u12>, cs: seq<nat>, c: nat,
                                            data: seq<byte>)
    requires g.Valid() && |d.sectors| >= g.totalSectors && AllDone(env)
    requires ChainFrom(t, g.MaxCluster(), cs) && (if cs == [] then Stops(c) else c == cs[0])
    ensures PutChain(d, env, g, t, c, data).ok
    decreases |cs|
  {
    if cs != [] && data != [] {
      var n := if |data| < 512 then |data| else 512;
      var w := Put(d, env, g.Lba(c), Padded(data[..n]));
      ClusterOnDisk(g, c);
      RestOfChain(t, g.MaxCluster(), cs);
      PutChainSucceeds(w.disk, env, g, t, cs[1..], At(t, c), data[n..]);
    }
  }

  // Reading along a chain returns what is stored there, or reports failure.
  lemma {:induction false} GetChainReads(d: Disk, env: Env, g: Geometry, t: seq<u12>, cs: seq<nat>, c: nat, size: nat)
    requires g.Valid() && |d.sectors| >= g.totalSectors
    requires ChainFrom(t, g.MaxCluster(), cs) && (if cs == [] then c >= 0xFF8 else c == cs[0])
    ensures var r := GetChain(d, env, g, t, c, size);
            (r.ok ==> r.data == Content(d.sectors, g, cs, size)) && (AllDone(env) ==> r.ok)
    decreases |cs|
  {
    if cs != [] && size > 0 {
      var n := if size < 512 then size else 512;
      var f := Get(d, env, g.Lba(c));
      ClusterOnDisk(g, c);
      RestOfChain(t, g.MaxCluster(), cs);
      GetChainReads(f.disk, env, g, t, cs[1..], At(t, c), size - n);
    }
  }
}

/**
 The FAT12 driver as a store of files: over every run of admissible operations with working
 transfers, the volume behaves as a map from names to contents with room for so many clusters
 and entries.
 */
module FatFiles {
  import opened Bytes
  import opened Common
  import opened FatTable
  import opened FatChains
  import opened FatDirectory
  import opened FatVolume
  import opened FatDisk
  import opened FatInvariant
  import opened FatSteps
  import opened FatSync
  import opened FatTheorems

  // ---------------------------------------------------------------- the store

  datatype File = File(attr: byte, data: seq<byte>, clusters: nat)

  // Files by folded name, the free clusters, and the directory slots that may be handed out.
  datatype Store = Store(files: map<Name, File>, room: nat, slots: nat)

  datatype Answer = Answer(store: Store, ok: bool)

  predicate HasRoom(s: Store, size: nat) {
    size <= 512 * s.room
  }

  // One cluster for every 512 bytes begun.
  function Clusters(size: nat): (n: nat) {
    if size == 0 then 0 else 1 + Clusters(if size < 512 then 0 else size - 512)
  }

  // The least number of clusters that holds `size` bytes.
  lemma {:induction false} ClustersLeast(size: nat, n: nat)
    ensures Clusters(size) <= n <==> size <= 512 * n
  {
    if size != 0 && n != 0 {
      ClustersLeast(if size < 512 then 0 else size - 512, n - 1);
    }
  }

  // A new entry. Under a name that starts with the deletion mark it is as good as deleted.
  function Enter(s: Store, n: Name, f: File): (r: Store)
    requires s.slots > 0 && f.clusters <= s.room
  {
    if n[0] == DELETED then s else Store(s.files[n := f], s.room - f.clusters, s.slots - 1)
  }

  // New space is taken before old space is given back.
  function Apply(s: Store, op: Op): (r: Answer)
    requires op.Valid()
  {
    var n := Format(op.name);
    match op
    case Create(_) =>
      if n in s.files || s.slots == 0 then Answer(s, false) else Answer(Enter(s, n, File(ATTR_FILE, [], 0)), true)
    case Write(_, data) =>
      var k := Clusters(|data|);
      ClustersLeast(|data|, s.room);
      if !HasRoom(s, |data|) || (n !in s.files && s.slots == 0) then Answer(s, false)
      else if n !in s.files then Answer(Enter(s, n, File(ATTR_FILE, data, k)), true)
      else Answer(s.(files := s.files[n := File(s.files[n].attr, data, k)], room := s.room - k + s.files[n].clusters),
                  true)
    case Mkdir(_) =>
      if n in s.files || s.slots == 0 || s.room == 0 then Answer(s, false)
      else Answer(Enter(s, n, File(ATTR_DIR, [], 1)), true)
    case Delete(_) =>
      if n !in s.files then Answer(s, false)
      else Answer(Store(s.files - {n}, s.room + s.files[n].clusters, s.slots + 1), true)
  }

  function ApplyAll(s: Store, ops: seq<Op>): (r: Store)
    requires forall i :: 0 <= i < |ops| ==> ops[i].Valid()
    decreases |ops|
  {
    if ops == [] then s else ApplyAll(Apply(s, ops[0]).store, ops[1..])
  }

  // ---------------------------------------------------------------- what a volume holds

  // The file in a live slot.
  ghost function FileIn(v: Volume, chains: seq<seq<nat>>, i: nat): (f: File)
    requires OwnedBy(v, chains) && i < |v.dir| && v.dir[i].Live()
    ensures f.attr == v.dir[i].attr && f.clusters == |chains[i]|
  {
    File(v.dir[i].attr, Content(v.disk.sectors, v.g, chains[i], v.dir[i].size), |chains[i]|)
  }

  function Key(e: Dirent): (n: Name) { UpperAll(e.name) }

  function Vacancies(s: seq<Dirent>): (n: nat) {
    if s == [] then 0 else Vacancies(s[..|s| - 1]) + if s[|s| - 1].Vacant() then 1 else 0
  }

  ghost predicate Lists(v: Volume, chains: seq<seq<nat>>, files: map<Name, File>)
    requires OwnedBy(v, chains)
  {
    && (forall i :: 0 <= i < |v.dir| && v.dir[i].Live() ==>
          Key(v.dir[i]) in files && files[Key(v.dir[i])] == FileIn(v, chains, i))
    && forall n :: n in files ==> exists i :: 0 <= i < |v.dir| && v.dir[i].Live() && Key(v.dir[i]) == n
  }

  // The volume is this store.
  ghost predicate Shows(v: Volume, chains: seq<seq<nat>>, s: Store) {
    && OwnedBy(v, chains) && Lists(v, chains, s.files)
    && s.room == FreeCount(v.table, 2, v.g.MaxCluster()) && s.slots == Vacancies(v.dir)
  }

  // A sound volume has one assignment of chains, and so is exactly one store.
  lemma {:induction false} ChainsUnique(v: Volume, a: seq<seq<nat>>, b: seq<seq<nat>>)
    requires OwnedBy(v, a) && OwnedBy(v, b)
    ensures a == b
  {
    forall i | 0 <= i < |a|
      ensures a[i] == b[i]
    {
      SameChain(v.table, v.g.MaxCluster(), v.dir[i], a[i], b[i]);
    }
  }

  lemma {:induction false} SameChain(t: seq<u12>, max: nat, e: Dirent, a: seq<nat>, b: seq<nat>)
    requires Holds(t, max, e, a) && Holds(t, max, e, b) && max <= 0xFF0
    ensures a == b
  {
    if a != [] && b != [] {
      ChainsAgree(t, max, a, b, |a| - 1);
      ChainsAgree(t, max, b, a, |b| - 1);
      forall k | 0 <= k < |a|
        ensures a[k] == b[k]
      {
        ChainsAgree(t, max, a, b, k);
      }
    }
  }

  lemma {:induction false} ListsOnce(v: Volume, chains: seq<seq<nat>>, a: map<Name, File>, b: map<Name, File>)
    requires OwnedBy(v, chains) && Lists(v, chains, a) && Lists(v, chains, b)
    ensures a == b
  {
    hide FileIn, OwnedBy;
    forall n
      ensures n in a <==> n in b
      ensures n in a && n in b ==> a[n] == b[n]
    {
    }
  }

  lemma {:induction false} ShowsOnce(v: Volume, chains: seq<seq<nat>>, a: Store, chains2: seq<seq<nat>>, b: Store)
    requires Shows(v, chains, a) && Shows(v, chains2, b)
    ensures a == b
  {
    hide Lists, OwnedBy;
    ChainsUnique(v, chains, chains2);
    ListsOnce(v, chains, a.files, b.files);
  }

  lemma KeysDiffer(s: seq<Dirent>)
    requires NamesUnique(s)
    ensures forall i, j :: 0 <= i < |s| && 0 <= j < |s| && s[i].Live() && s[j].Live() && Key(s[i]) == Key(s[j]) ==>
              i == j
  {
  }

  lemma {:induction false} ShowsSome(v: Volume, chains: seq<seq<nat>>) returns (s: Store)
    requires OwnedBy(v, chains)
    ensures Shows(v, chains, s)
  {
    hide FileIn, Owned, FreeCount, Key, UpperAll;
    KeysDiffer(v.dir);
    var files := map i | 0 <= i < |v.dir| && v.dir[i].Live() :: Key(v.dir[i]) := FileIn(v, chains, i);
    forall i | 0 <= i < |v.dir| && v.dir[i].Live()
      ensures Key(v.dir[i]) in files && files[Key(v.dir[i])] == FileIn(v, chains, i)
    {
    }
    s := Store(files, FreeCount(v.table, 2, v.g.MaxCluster()), Vacancies(v.dir));
  }

  // What a sound volume holds.
  ghost function Contents(v: Volume): (s: Store)
    requires Inv(v)
    ensures exists chains :: Shows(v, chains, s)
  {
    var chains :| OwnedBy(v, chains);
    SomeStore(v, chains);
    var s :| Shows(v, chains, s);
    s
  }

  lemma {:induction false} SomeStore(v: Volume, chains: seq<seq<nat>>)
    requires OwnedBy(v, chains)
    ensures exists s :: Shows(v, chains, s)
  {
    var s := ShowsSome(v, chains);
  }

  lemma {:induction false} ContentsIs(v: Volume, chains: seq<seq<nat>>, s: Store)
    requires Inv(v) && Shows(v, chains, s)
    ensures Contents(v) == s
  {
    hide Shows, Contents;
    var other :| Shows(v, other, Contents(v));
    ShowsOnce(v, chains, s, other, Contents(v));
  }

  // ---------------------------------------------------------------- the frame

  lemma {:induction false} KeptFile(v: Volume, v2: Volume, chains: seq<seq<nat>>, chains2: seq<seq<nat>>, i: nat)
    requires OwnedBy(v, chains) && OwnedBy(v2, chains2) && v2.g == v.g && i < |v.dir| && v.dir[i].Live()
    requires SlotKept(v, v2, chains, chains2, i)
    ensures FileIn(v2, chains2, i) == FileIn(v, chains, i)
  {
    hide Content;
    ContentKept(v.disk.sectors, v2.disk.sectors, v.g, chains[i], v.dir[i].size);
  }

  // What `files` says of name `n` is so.
  ghost predicate ListsOne(v: Volume, chains: seq<seq<nat>>, files: map<Name, File>, n: Name)
    requires OwnedBy(v, chains)
  {
    && (forall i :: 0 <= i < |v.dir| && v.dir[i].Live() && Key(v.dir[i]) == n ==>
          n in files && files[n] == FileIn(v, chains, i))
    && (n in files ==> exists i :: 0 <= i < |v.dir| && v.dir[i].Live() && Key(v.dir[i]) == n)
  }

  ghost predicate AgreeBut(a: map<Name, File>, b: map<Name, File>, n: Name) {
    forall x: Name :: x != n ==> (x in a <==> x in b) && (x in a ==> a[x] == b[x])
  }

  // Slots that are not `n`'s keep their files.
  lemma {:induction false} OtherSlot(v: Volume, v2: Volume, chains: seq<seq<nat>>, chains2: seq<seq<nat>>, n: Name,
                                     i: nat)
    requires Effect(v, v2, chains, chains2, n) && UpperAll(n) == n && i < |v.dir|
    requires (v.dir[i].Live() && Key(v.dir[i]) != n) || (v2.dir[i].Live() && Key(v2.dir[i]) != n)
    ensures v2.dir[i] == v.dir[i] && v.dir[i].Live() && FileIn(v2, chains2, i) == FileIn(v, chains, i)
  {
    hide FileIn;
    assert SlotKept(v, v2, chains, chains2, i);
    KeptFile(v, v2, chains, chains2, i);
  }

  lemma {:induction false} OthersListed(v: Volume, v2: Volume, chains: seq<seq<nat>>, chains2: seq<seq<nat>>, n: Name,
                                        files: map<Name, File>, files2: map<Name, File>)
    requires Effect(v, v2, chains, chains2, n) && UpperAll(n) == n
    requires Lists(v, chains, files) && ListsOne(v2, chains2, files2, n) && AgreeBut(files, files2, n)
    ensures Lists(v2, chains2, files2)
  {
    hide FileIn, Key;
    forall i | 0 <= i < |v2.dir| && v2.dir[i].Live()
      ensures Key(v2.dir[i]) in files2 && files2[Key(v2.dir[i])] == FileIn(v2, chains2, i)
    {
      if Key(v2.dir[i]) != n {
        OtherSlot(v, v2, chains, chains2, n, i);
      }
    }
    forall x | x in files2 && x != n
      ensures exists i :: 0 <= i < |v2.dir| && v2.dir[i].Live() && Key(v2.dir[i]) == x
    {
      var i :| 0 <= i < |v.dir| && v.dir[i].Live() && Key(v.dir[i]) == x;
      OtherSlot(v, v2, chains, chains2, n, i);
      assert v2.dir[i].Live() && Key(v2.dir[i]) == x;
    }
  }

  // The search finds what is listed.
  lemma {:induction false} FoundIffListed(v: Volume, chains: seq<seq<nat>>, files: map<Name, File>, name: CString)
    requires OwnedBy(v, chains) && Lists(v, chains, files)
    ensures var n, hit := Format(name), Find(v.dir, Format(name));
            && UpperAll(n) == n && (hit.Hit? <==> n in files)
            && (hit.Hit? ==> Key(v.dir[hit.slot]) == n && files[n] == FileIn(v, chains, hit.slot))
            && (n in files ==> n[0] != DELETED)
  {
    hide FileIn, Format;
    var n, hit := Format(name), Find(v.dir, Format(name));
    FormatIsFolded(name);
    FindIsComplete(v.dir, n, 0);
    if hit.Hit? {
      MatchNotDeleted(v.dir[hit.slot], n);
    }
  }

  lemma {:induction false} MatchNotDeleted(e: Dirent, wanted: Name)
    requires e.Live() && Matches(e.name, wanted)
    ensures wanted[0] != DELETED
  {
    assert UpperAll(e.name)[0] == UpperAll(wanted)[0];
  }

  // ---------------------------------------------------------------- slots and clusters

  lemma {:induction false} OneSlot(s: seq<Dirent>, k: nat, e: Dirent)
    requires k < |s|
    ensures Vacancies(s[k := e]) + (if s[k].Vacant() then 1 else 0) == Vacancies(s) + if e.Vacant() then 1 else 0
    decreases |s|
  {
    var m := |s| - 1;
    if k == m {
      assert s[k := e][..m] == s[..m];
    } else {
      OneSlot(s[..m], k, e);
      assert s[k := e][..m] == s[..m][k := e];
    }
  }

  lemma {:induction false} SlotIffVacancy(s: seq<Dirent>)
    ensures VacantSlot(s).Hit? <==> Vacancies(s) > 0
  {
    if VacantSlot(s).Hit? {
      SomeVacancy(s, VacantSlot(s).slot);
    } else {
      NoVacancy(s);
    }
  }

  lemma {:induction false} SomeVacancy(s: seq<Dirent>, k: nat)
    requires k < |s| && s[k].Vacant()
    ensures Vacancies(s) > 0
    decreases |s|
  {
    if k < |s| - 1 {
      SomeVacancy(s[..|s| - 1], k);
    }
  }

  lemma {:induction false} NoVacancy(s: seq<Dirent>)
    requires forall j :: 0 <= j < |s| ==> !s[j].Vacant()
    ensures Vacancies(s) == 0
    decreases |s|
  {
    if s != [] {
      NoVacancy(s[..|s| - 1]);
    }
  }

  ghost function FreeSet(t: seq<u12>, lo: nat, hi: nat): (r: set<nat>) {
    set c | lo <= c < hi && At(t, c) == 0
  }

  lemma {:induction false} FreeSetSize(t: seq<u12>, lo: nat, hi: nat)
    ensures |FreeSet(t, lo, hi)| == FreeCount(t, lo, hi)
    decreases hi - lo
  {
    if lo < hi {
      FreeSetSize(t, lo + 1, hi);
      assert FreeSet(t, lo, hi) == FreeSet(t, lo + 1, hi) + if At(t, lo) == 0 then {lo} else {};
    } else {
      assert FreeSet(t, lo, hi) == {};
    }
  }

  // Clusters `cs` taken, clusters `old` given back.
  lemma {:induction false} Exchanged(t: seq<u12>, t2: seq<u12>, max: nat, cs: seq<nat>, past: seq<nat>)
    requires Distinct(cs) && Distinct(past) && Within(cs, 2, max) && Within(past, 2, max)
    requires forall c :: c in cs ==> At(t, c) == 0 && At(t2, c) != 0
    requires forall c :: c in past ==> At(t, c) != 0
    requires forall c :: 2 <= c < max && c !in cs ==> At(t2, c) == if c in past then 0 else At(t, c)
    ensures FreeCount(t2, 2, max) + |cs| == FreeCount(t, 2, max) + |past|
  {
    hide FreeSet, Elements, FreeCount;
    FreeSetSize(t, 2, max);
    FreeSetSize(t2, 2, max);
    ElementCount(cs);
    ElementCount(past);
    ExchangedSets(t, t2, max, cs, past);
    SizesAgree(FreeSet(t2, 2, max), Elements(cs), FreeSet(t, 2, max), Elements(past));
  }

  lemma {:induction false} SizesAgree(a: set<nat>, b: set<nat>, c: set<nat>, d: set<nat>)
    requires a + b == c + d && a !! b && c !! d
    ensures |a| + |b| == |c| + |d|
  {
    assert |a + b| == |a| + |b|;
    assert |c + d| == |c| + |d|;
  }

  lemma {:induction false} ExchangedSets(t: seq<u12>, t2: seq<u12>, max: nat, cs: seq<nat>, past: seq<nat>)
    requires Within(cs, 2, max) && Within(past, 2, max)
    requires forall c :: c in cs ==> At(t, c) == 0 && At(t2, c) != 0
    requires forall c :: c in past ==> At(t, c) != 0
    requires forall c :: 2 <= c < max && c !in cs ==> At(t2, c) == if c in past then 0 else At(t, c)
    ensures FreeSet(t2, 2, max) + Elements(cs) == FreeSet(t, 2, max) + Elements(past)
    ensures FreeSet(t2, 2, max) !! Elements(cs) && FreeSet(t, 2, max) !! Elements(past)
  {
    hide FreeSet, Elements;
    forall c: nat
      ensures c in FreeSet(t2, 2, max) || c in Elements(cs) <==> c in FreeSet(t, 2, max) || c in Elements(past)
      ensures !(c in FreeSet(t2, 2, max) && c in Elements(cs)) && !(c in FreeSet(t, 2, max) && c in Elements(past))
    {
      TakenOrGiven(t, t2, max, cs, past, c);
    }
  }

  lemma TakenOrGiven(t: seq<u12>, t2: seq<u12>, max: nat, cs: seq<nat>, past: seq<nat>, c: nat)
    requires Within(cs, 2, max) && Within(past, 2, max)
    requires c in cs ==> At(t, c) == 0 && At(t2, c) != 0
    requires c in past ==> At(t, c) != 0
    requires 2 <= c < max && c !in cs ==> At(t2, c) == if c in past then 0 else At(t, c)
    ensures c in FreeSet(t2, 2, max) || c in Elements(cs) <==> c in FreeSet(t, 2, max) || c in Elements(past)
    ensures !(c in FreeSet(t2, 2, max) && c in Elements(cs)) && !(c in FreeSet(t, 2, max) && c in Elements(past))
  {
  }

  lemma {:induction false} CountBound(t: seq<u12>, lo: nat, hi: nat)
    requires lo <= hi
    ensures FreeCount(t, lo, hi) <= hi - lo
    decreases hi - lo
  {
    if lo < hi {
      CountBound(t, lo + 1, hi);
    }
  }

  // The driver's own count is that least number, unless its 32-bit sum wraps: then it is 0.
  lemma {:induction false} ClustersForIs(size: u32)
    ensures ClustersFor(size) == if size <= TWO32 - 512 then Clusters(size) else 0
  {
    if size <= TWO32 - 512 {
      var n := ClustersFor(size);
      ClustersLeast(size, n);
      if n > 0 {
        ClustersLeast(size, n - 1);
      }
    }
  }

  // A file of `size` bytes finds space exactly when it is no larger than the free clusters.
  lemma {:induction false} FitsIffRoom(v: Volume, s: Store, size: u32)
    requires v.Formed() && s.room == FreeCount(v.table, 2, v.g.MaxCluster())
    ensures Fits(v, size) <==> HasRoom(s, size)
    ensures Fits(v, size) ==> |Space(v, size)| == Clusters(size)
  {
    hide FreeCount, Picks, Clusters, ClustersFor;
    var max := v.g.MaxCluster();
    if 2 < max {
      CountBound(v.table, 2, max);
    } else {
      assert s.room == 0 by {
        FreeCountEmpty(v.table, max);
      }
    }
    PicksCount(v.table, 2, max, ClustersFor(size));
    ClustersForIs(size);
    ClustersLeast(size, s.room);
    ClustersLeast(size, 0);
  }

  lemma FreeCountEmpty(t: seq<u12>, max: nat)
    requires max <= 2
    ensures FreeCount(t, 2, max) == 0
  {
  }

  // ---------------------------------------------------------------- one slot

  // The entry with name `n` is in slot `k`.
  lemma {:induction false} ListedAt(v: Volume, chains: seq<seq<nat>>, files: map<Name, File>, n: Name, k: nat)
    requires OwnedBy(v, chains) && k < |v.dir| && v.dir[k].Live() && Key(v.dir[k]) == n
    requires n in files && files[n] == FileIn(v, chains, k)
    ensures ListsOne(v, chains, files, n)
  {
    hide FileIn, Key, Owned;
    KeysDiffer(v.dir);
  }

  lemma SlotListed(v: Volume, chains: seq<seq<nat>>, files: map<Name, File>, k: nat)
    requires OwnedBy(v, chains) && Lists(v, chains, files) && k < |v.dir| && v.dir[k].Live()
    ensures Key(v.dir[k]) in files && files[Key(v.dir[k])] == FileIn(v, chains, k)
  {
    hide FileIn, Owned, DirectoryOk;
  }

  lemma SameKey(a: Dirent, b: Dirent)
    requires a.name == b.name
    ensures Key(a) == Key(b)
  {
  }

  // An entry was made in slot `k`.
  lemma {:induction false} Entered(v: Volume, v2: Volume, chains: seq<seq<nat>>, chains2: seq<seq<nat>>, s: Store,
                                   k: nat, n: Name, f: File)
    requires Shows(v, chains, s) && Effect(v, v2, chains, chains2, n) && UpperAll(n) == n && n !in s.files
    requires k < |v.dir| && v.dir[k].Vacant() && v2.dir == v.dir[k := v2.dir[k]]
    requires v2.dir[k].name == n && v2.dir[k].attr != ATTR_LFN && n[0] != FREE
    requires FreeCount(v2.table, 2, v.g.MaxCluster()) + f.clusters == s.room
    requires if n[0] == DELETED then f.clusters == 0 else FileIn(v2, chains2, k) == f
    ensures s.slots > 0 && Shows(v2, chains2, Enter(s, n, f))
  {
    hide FileIn, FreeCount, Vacancies, Lists, Owned, DirectoryOk, Effect;
    EffectOwned(v, v2, chains, chains2, n);
    SlotIffVacancy(v.dir);
    OneSlot(v.dir, k, v2.dir[k]);
    if n[0] == DELETED {
      forall i | 0 <= i < |v2.dir| && v2.dir[i].Live() && Key(v2.dir[i]) == n
        ensures false
      {
        DeletedNeverMatches(v2.dir[i], n);
      }
      OthersListed(v, v2, chains, chains2, n, s.files, s.files);
    } else {
      ListedAt(v2, chains2, s.files[n := f], n, k);
      OthersListed(v, v2, chains, chains2, n, s.files, s.files[n := f]);
    }
  }

  lemma NoClusters(v: Volume, chains: seq<seq<nat>>, k: nat)
    requires OwnedBy(v, chains) && k < |v.dir| && v.dir[k].Live() && v.dir[k].first == 0 && v.dir[k].size == 0
    ensures FileIn(v, chains, k) == File(v.dir[k].attr, [], 0)
  {
  }

  lemma {:induction false} CreateRefines(v: Volume, env: Env, name: CString, chains: seq<seq<nat>>, s: Store)
    returns (chains2: seq<seq<nat>>)
    requires Shows(v, chains, s) && AllDone(env)
    ensures var r, a := CreateFile(v, env, name), Apply(s, Create(name));
            r.ok == a.ok && Shows(r.vol, chains2, a.store)
  {
    hide FlushRoot, Format, FileIn, Lists, FreeCount, Vacancies, Enter, VacantSlot, Find, Owned, DirectoryOk, Shows;
    var n, place := Format(name), VacantSlot(v.dir);
    ShownParts(v, chains, s);
    FoundIffListed(v, chains, s.files, name);
    SlotIffVacancy(v.dir);
    chains2 := chains;
    if n !in s.files && s.slots > 0 {
      chains2 := CreateFileEffect(v, env, name, chains);
      var v1 := v.(dir := v.dir[place.slot := Dirent(n, ATTR_FILE, Zeros(14), 0, 0)]);
      FlushRootStores(v1, env);
      FormatIsFolded(name);
      var v2 := CreateFile(v, env, name).vol;
      if n[0] != DELETED {
        NoClusters(v2, chains2, place.slot);
      }
      Entered(v, v2, chains, chains2, s, place.slot, n, File(ATTR_FILE, [], 0));
    }
  }

  lemma ShownParts(v: Volume, chains: seq<seq<nat>>, s: Store)
    requires Shows(v, chains, s)
    ensures OwnedBy(v, chains) && Lists(v, chains, s.files)
    ensures s.room == FreeCount(v.table, 2, v.g.MaxCluster()) && s.slots == Vacancies(v.dir)
  {
  }

  // ---------------------------------------------------------------- write

  lemma {:induction false} ChainTaken(t: seq<u12>, max: nat, cs: seq<nat>)
    requires cs == [] || IsChain(t, max, cs)
    ensures Distinct(cs) && Within(cs, 2, max) && forall c :: c in cs ==> At(t, c) != 0
  {
    forall c | c in cs
      ensures At(t, c) != 0
    {
      ChainEntriesUsed(t, max, cs, c);
    }
  }

  lemma HeldChain(v: Volume, chains: seq<seq<nat>>, k: nat)
    requires OwnedBy(v, chains) && k < |v.dir|
    ensures chains[k] == [] || IsChain(v.table, v.g.MaxCluster(), chains[k])
  {
  }

  // With working transfers a write commits exactly when there is a slot and room.
  lemma {:induction false} CommitsIff(v: Volume, env: Env, name: CString, data: seq<byte>)
    requires v.Safe() && AllDone(env) && |data| < TWO32
    ensures Commits(v, env, name, data) <==>
              (Find(v.dir, Format(name)).Hit? || VacantSlot(v.dir).Hit?) && Fits(v, |data|)
    ensures Commits(v, env, name, data) ==> WriteFile(v, env, name, data).ok
  {
    hide Find, VacantSlot, Format, Linked, PutChain, FlushBoth, Committed;
    if Fits(v, |data|) {
      var cs := Space(v, |data|);
      Grown(v.table, v.g.MaxCluster(), cs);
      PutChainSucceeds(v.disk, env, v.g, Linked(v.table, cs), cs, Head(cs), data);
      if Commits(v, env, name, data) {
        var t1 := Linked(v.table, cs);
        var d := PutChain(v.disk, env, v.g, t1, Head(cs), data).disk;
        CommittedIs(v, env, name, data);
        FlushBothSyncs(Committed(v.(disk := d), SlotOf(v, name), Find(v.dir, Format(name)).Miss?, Format(name), t1,
                                 Head(cs), |data|), env);
      }
    }
  }

  // ... that is, exactly when the data is no larger than the free clusters and the name has an
  // entry or some slot can be handed out.
  lemma {:induction false} WriteSucceedsIff(v: Volume, env: Env, name: CString, data: seq<byte>)
    requires v.Safe() && EndMarked(v.dir) && AllDone(env) && |data| < TWO32
    ensures WriteFile(v, env, name, data).ok
            <==> && |data| <= 512 * FreeCount(v.table, 2, v.g.MaxCluster())
                 && exists i :: 0 <= i < |v.dir|
                                && (v.dir[i].Vacant() || (v.dir[i].Live() && Matches(v.dir[i].name, Format(name))))
  {
    hide Format, Matches, Fits, FreeCount, FlushBoth, FlushFat, Space, Linked, PutChain, Committed;
    var wanted := Format(name);
    CommitsIff(v, env, name, data);
    FitsIffRoom(v, Store(map[], FreeCount(v.table, 2, v.g.MaxCluster()), 0), |data|);
    FindIsComplete(v.dir, wanted, 0);
    var hit, free := Find(v.dir, wanted), VacantSlot(v.dir);
    assert hit.Hit? ==> v.dir[hit.slot].Live();
    assert free.Hit? ==> v.dir[free.slot].Vacant();
  }

  // The file a committed write leaves in its slot, and the clusters it takes and gives back.
  lemma {:induction false} WrittenFile(v: Volume, env: Env, name: CString, data: seq<byte>, chains: seq<seq<nat>>)
    returns (chains2: seq<seq<nat>>)
    requires OwnedBy(v, chains) && |data| < TWO32 && Commits(v, env, name, data)
    requires SlotClean(v, name, |data|) && (Format(name)[0] != DELETED || data == [])
    ensures var v2, k, max := WriteFile(v, env, name, data).vol, SlotOf(v, name), v.g.MaxCluster();
            && Effect(v, v2, chains, chains2, Format(name)) && k < |v.dir| && v2.dir == v.dir[k := v2.dir[k]]
            && (Find(v.dir, Format(name)).Miss? ==>
                  v2.dir[k].name == Format(name) && v2.dir[k].attr == ATTR_FILE && chains[k] == [])
            && (Find(v.dir, Format(name)).Hit? ==>
                  v2.dir[k].name == v.dir[k].name && v2.dir[k].attr == v.dir[k].attr)
            && FreeCount(v2.table, 2, max) + |Space(v, |data|)| == FreeCount(v.table, 2, max) + |chains[k]|
            && (v2.dir[k].Live() ==> FileIn(v2, chains2, k) == File(v2.dir[k].attr, data, |Space(v, |data|)|))
  {
    hide Find, VacantSlot, Format, WriteFile, Space, Content, SlotOf, FreeCount, Commits;
    var k, cs, max := SlotOf(v, name), Space(v, |data|), v.g.MaxCluster();
    var v2 := WriteFile(v, env, name, data).vol;
    chains2 := WriteFileEffect(v, env, name, data, chains);
    CommitOutcome(v, env, name, data, chains);
    WrittenContent(v, env, name, data);
    ChainTaken(v2.table, max, cs);
    HeldChain(v, chains, k);
    ChainTaken(v.table, max, chains[k]);
    Exchanged(v.table, v2.table, max, cs, chains[k]);
  }

  lemma {:induction false} WriteRefines(v: Volume, env: Env, name: CString, data: seq<byte>, chains: seq<seq<nat>>,
                                        s: Store)
    returns (chains2: seq<seq<nat>>)
    requires Shows(v, chains, s) && AllDone(env) && |data| < TWO32 && Admissible(v, env, Write(name, data))
    ensures var r, a := WriteFile(v, env, name, data), Apply(s, Write(name, data));
            r.ok == a.ok && Shows(r.vol, chains2, a.store)
  {
    hide Format, FileIn, Lists, FreeCount, Vacancies, VacantSlot, Find, Owned, DirectoryOk, Shows, WriteFile, Commits,
         Fits, Effect, SlotClean, Space;
    var n, hit := Format(name), Find(v.dir, Format(name));
    ShownParts(v, chains, s);
    FoundIffListed(v, chains, s.files, name);
    SlotIffVacancy(v.dir);
    FitsIffRoom(v, s, |data|);
    CommitsIff(v, env, name, data);
    FormatIsFolded(name);
    if !Commits(v, env, name, data) {
      UncommittedWrite(v, env, name, data, chains);
      chains2 := chains;
      DiskOnlyShows(v, WriteFile(v, env, name, data).vol.disk, chains, s);
    } else {
      chains2 := WrittenFile(v, env, name, data, chains);
      var v2, k := WriteFile(v, env, name, data).vol, SlotOf(v, name);
      if hit.Miss? {
        Entered(v, v2, chains, chains2, s, k, n, File(ATTR_FILE, data, Clusters(|data|)));
      } else {
        Exchange(v, v2, chains, chains2, s, k, n, File(v.dir[k].attr, data, Clusters(|data|)));
      }
    }
  }

  lemma {:induction false} DiskOnlyShows(v: Volume, d: Disk, chains: seq<seq<nat>>, s: Store)
    requires Shows(v, chains, s) && OwnedDataKept(v, d, chains)
    ensures Shows(v.(disk := d), chains, s)
  {
    hide FileIn, SlotKept, Owned, DirectoryOk, OwnedDataKept;
    var v2 := v.(disk := d);
    DiskOnly(v, d, chains, Zeros(11));
    forall i | 0 <= i < |v.dir| && v.dir[i].Live()
      ensures FileIn(v2, chains, i) == FileIn(v, chains, i)
    {
      DiskOnlySlot(v, d, chains, i);
      KeptFile(v, v2, chains, chains, i);
    }
  }

  // The file in slot `k` was exchanged for another of the same name.
  lemma {:induction false} Exchange(v: Volume, v2: Volume, chains: seq<seq<nat>>, chains2: seq<seq<nat>>, s: Store,
                                     k: nat, n: Name, f: File)
    requires Shows(v, chains, s) && Effect(v, v2, chains, chains2, n) && UpperAll(n) == n
    requires k < |v.dir| && v.dir[k].Live() && Key(v.dir[k]) == n && v2.dir == v.dir[k := v2.dir[k]]
    requires v2.dir[k].name == v.dir[k].name && v2.dir[k].attr == v.dir[k].attr && FileIn(v2, chains2, k) == f
    requires FreeCount(v2.table, 2, v.g.MaxCluster()) + f.clusters == s.room + FileIn(v, chains, k).clusters
    ensures n in s.files
    ensures Shows(v2, chains2, Store(s.files[n := f], s.room - f.clusters + s.files[n].clusters, s.slots))
  {
    hide FileIn, FreeCount, Vacancies, Lists, Owned, DirectoryOk, Effect, Key;
    EffectOwned(v, v2, chains, chains2, n);
    SlotListed(v, chains, s.files, k);
    OneSlot(v.dir, k, v2.dir[k]);
    assert Key(v2.dir[k]) == n by { SameKey(v.dir[k], v2.dir[k]); }
    ListedAt(v2, chains2, s.files[n := f], n, k);
    OthersListed(v, v2, chains, chains2, n, s.files, s.files[n := f]);
  }

  // ---------------------------------------------------------------- mkdir and delete

  lemma {:induction false} MkdirRefines(v: Volume, env: Env, name: CString, chains: seq<seq<nat>>, s: Store)
    returns (chains2: seq<seq<nat>>)
    requires Shows(v, chains, s) && AllDone(env) && Admissible(v, env, Mkdir(name))
    ensures var r, a := CreateDir(v, env, name), Apply(s, Mkdir(name));
            r.ok == a.ok && Shows(r.vol, chains2, a.store)
  {
    hide Format, FileIn, Lists, FreeCount, Vacancies, VacantSlot, Find, Owned, DirectoryOk, Shows, CreateDir, Effect,
         Enter, Space, Linked, Fits, MakesDir, At;
    var n, place := Format(name), VacantSlot(v.dir);
    ShownParts(v, chains, s);
    FoundIffListed(v, chains, s.files, name);
    SlotIffVacancy(v.dir);
    FitsIffRoom(v, s, 512);
    FormatIsFolded(name);
    chains2 := chains;
    if n in s.files || s.slots == 0 || s.room == 0 {
      NoMkdir(v, env, name);
    } else {
      MkdirMakes(v, env, name);
      chains2 := CreateDirEffect(v, env, name, chains);
      var v2 := CreateDir(v, env, name).vol;
      EffectOwned(v, v2, chains, chains2, n);
      MadeDir(v, v2, chains, chains2, place.slot, n);
      Entered(v, v2, chains, chains2, s, place.slot, n, File(ATTR_DIR, [], 1));
    }
  }

  lemma EffectOwned(v: Volume, v2: Volume, chains: seq<seq<nat>>, chains2: seq<seq<nat>>, n: Name)
    requires Effect(v, v2, chains, chains2, n)
    ensures OwnedBy(v2, chains2) && v2.g == v.g
  {
    hide OwnedBy;
  }

  lemma NoMkdir(v: Volume, env: Env, name: CString)
    requires v.Safe() && (Find(v.dir, Format(name)).Hit? || VacantSlot(v.dir).Miss? || !Fits(v, 512))
    ensures CreateDir(v, env, name) == Result(v, false)
  {
    hide Find, VacantSlot, Format, Linked, FlushBoth;
  }

  lemma PutSucceeds(d: Disk, env: Env, lba: int, s: Sector)
    requires AllDone(env) && 0 <= lba < |d.sectors|
    ensures Put(d, env, lba, s).ok
  {
  }

  lemma {:induction false} MkdirMakes(v: Volume, env: Env, name: CString)
    requires v.Safe() && AllDone(env)
    requires Find(v.dir, Format(name)).Miss? && VacantSlot(v.dir).Hit? && Fits(v, 512)
    ensures MakesDir(v, env, name) && CreateDir(v, env, name).ok
    ensures var v2, k, cs := CreateDir(v, env, name).vol, VacantSlot(v.dir).slot, Space(v, 512);
            v2.table == Linked(v.table, cs) && v2.dir == v.dir[k := Dirent(Format(name), ATTR_DIR, Zeros(14), cs[0], 0)]
  {
    hide Find, VacantSlot, Format, Linked, FlushBoth, DirBody, Put;
    var cs, place := Space(v, 512), VacantSlot(v.dir);
    LinkedInside(v.table, cs);
    ClusterOnDisk(v.g, cs[0]);
    PutSucceeds(v.disk, env, v.g.Lba(cs[0]), DirBody(cs[0]));
    var w := Put(v.disk, env, v.g.Lba(cs[0]), DirBody(cs[0]));
    var e := Dirent(Format(name), ATTR_DIR, Zeros(14), cs[0], 0);
    FlushBothSyncs(v.(disk := w.disk, table := Linked(v.table, cs), dir := v.dir[place.slot := e]), env);
  }

  lemma {:induction false} MadeDir(v: Volume, v2: Volume, chains: seq<seq<nat>>, chains2: seq<seq<nat>>, k: nat,
                                   n: Name)
    requires OwnedBy(v, chains) && OwnedBy(v2, chains2) && v2.g == v.g && Fits(v, 512) && k < |v.dir|
    requires v2.table == Linked(v.table, Space(v, 512)) && n[0] != FREE && n[0] != DELETED
    requires v2.dir == v.dir[k := Dirent(n, ATTR_DIR, Zeros(14), Space(v, 512)[0], 0)]
    ensures FreeCount(v2.table, 2, v.g.MaxCluster()) + 1 == FreeCount(v.table, 2, v.g.MaxCluster())
    ensures FileIn(v2, chains2, k) == File(ATTR_DIR, [], 1)
  {
    hide FreeCount, Linked, Space;
    var cs, max := Space(v, 512), v.g.MaxCluster();
    DirCluster(v, v2.dir[k]);
    SameChain(v2.table, max, v2.dir[k], cs, chains2[k]);
    ChainTaken(v2.table, max, cs);
    Exchanged(v.table, v2.table, max, cs, []);
  }

  lemma {:induction false} DeleteRefines(v: Volume, env: Env, name: CString, chains: seq<seq<nat>>, s: Store)
    returns (chains2: seq<seq<nat>>)
    requires Shows(v, chains, s) && AllDone(env)
    ensures var r, a := DeleteFile(v, env, name), Apply(s, Delete(name));
            r.ok == a.ok && Shows(r.vol, chains2, a.store)
  {
    hide Format, FileIn, Lists, FreeCount, Vacancies, VacantSlot, Find, Owned, DirectoryOk, Shows, DeleteFile, Effect;
    var n, hit := Format(name), Find(v.dir, Format(name));
    ShownParts(v, chains, s);
    FoundIffListed(v, chains, s.files, name);
    chains2 := chains;
    if n !in s.files {
      NoDelete(v, env, name);
    } else {
      chains2 := DeleteFileEffect(v, env, name, chains);
      Deleted(v, env, name, chains);
      DeleteThenFind(v, env, name);
      Removed(v, DeleteFile(v, env, name).vol, chains, chains2, s, hit.slot, name);
    }
  }

  lemma NoDelete(v: Volume, env: Env, name: CString)
    requires v.Safe() && Find(v.dir, Format(name)).Miss?
    ensures DeleteFile(v, env, name) == Result(v, false)
  {
    hide Find, Format, FlushBoth;
  }

  lemma {:induction false} Deleted(v: Volume, env: Env, name: CString, chains: seq<seq<nat>>)
    requires OwnedBy(v, chains) && AllDone(env) && Find(v.dir, Format(name)).Hit?
    ensures var r, k, max := DeleteFile(v, env, name), Find(v.dir, Format(name)).slot, v.g.MaxCluster();
            && r.ok && r.vol.dir == v.dir[k := r.vol.dir[k]] && r.vol.dir[k].Vacant()
            && FreeCount(r.vol.table, 2, max) == FreeCount(v.table, 2, max) + |chains[k]|
  {
    hide Find, Format, FlushBoth, FreeCount, Owned;
    var k, max := Find(v.dir, Format(name)).slot, v.g.MaxCluster();
    var e := v.dir[k];
    FreedInside(v.table, e.first);
    var t1 := if e.first >= 2 then Freed(v.table, e.first) else v.table;
    FlushBothSyncs(v.(table := t1, dir := v.dir[k := e.(name := [DELETED] + e.name[1..])]), env);
    GivenBack(v, chains, k);
  }

  lemma {:induction false} GivenBack(v: Volume, chains: seq<seq<nat>>, k: nat)
    requires OwnedBy(v, chains) && k < |v.dir| && v.dir[k].Live()
    ensures var f, max := v.dir[k].first, v.g.MaxCluster();
            var t1 := if f >= 2 then Freed(v.table, f) else v.table;
            FreeCount(t1, 2, max) == FreeCount(v.table, 2, max) + |chains[k]|
  {
    hide FreeCount, DirectoryOk;
    var f, max := v.dir[k].first, v.g.MaxCluster();
    HeldChain(v, chains, k);
    if chains[k] != [] {
      FreedChain(v.table, max, chains[k]);
      ChainTaken(v.table, max, chains[k]);
      Exchanged(v.table, Freed(v.table, f), max, [], chains[k]);
    }
  }

  lemma {:induction false} Removed(v: Volume, v2: Volume, chains: seq<seq<nat>>, chains2: seq<seq<nat>>, s: Store,
                                   k: nat, name: CString)
    requires Shows(v, chains, s) && Effect(v, v2, chains, chains2, Format(name)) && k < |v.dir|
    requires v.dir[k].Live() && Key(v.dir[k]) == Format(name) && v2.dir == v.dir[k := v2.dir[k]] && v2.dir[k].Vacant()
    requires FreeCount(v2.table, 2, v.g.MaxCluster()) == s.room + FileIn(v, chains, k).clusters
    requires Find(v2.dir, Format(name)).Miss?
    ensures var n := Format(name);
            n in s.files && Shows(v2, chains2, Store(s.files - {n}, s.room + s.files[n].clusters, s.slots + 1))
  {
    hide FileIn, FreeCount, Vacancies, Format, Lists, Owned, Effect;
    var n := Format(name);
    FormatIsFolded(name);
    EffectOwned(v, v2, chains, chains2, n);
    SlotListed(v, chains, s.files, k);
    OneSlot(v.dir, k, v2.dir[k]);
    FindIsComplete(v2.dir, n, 0);
    OthersListed(v, v2, chains, chains2, n, s.files, s.files - {n});
  }

  // ---------------------------------------------------------------- runs

  lemma {:induction false} StepRefines(v: Volume, env: Env, op: Op, chains: seq<seq<nat>>, s: Store)
    returns (chains2: seq<seq<nat>>)
    requires Shows(v, chains, s) && AllDone(env) && op.Valid() && Admissible(v, env, op)
    ensures var r, a := Step(v, env, op), Apply(s, op);
            r.ok == a.ok && Shows(r.vol, chains2, a.store)
  {
    hide Shows, Apply;
    match op
    case Create(name) => chains2 := CreateRefines(v, env, name, chains, s);
    case Write(name, data) => chains2 := WriteRefines(v, env, name, data, chains, s);
    case Mkdir(name) => chains2 := MkdirRefines(v, env, name, chains, s);
    case Delete(name) => chains2 := DeleteRefines(v, env, name, chains, s);
  }

  // What each operation of a run reports.
  ghost function Reports(v: Volume, env: Env, ops: seq<Op>): (r: seq<bool>)
    requires v.Safe() && forall i :: 0 <= i < |ops| ==> ops[i].Valid()
    decreases |ops|
  {
    if ops == [] then [] else [Step(v, env, ops[0]).ok] + Reports(Step(v, env, ops[0]).vol, env, ops[1..])
  }

  function Expected(s: Store, ops: seq<Op>): (r: seq<bool>)
    requires forall i :: 0 <= i < |ops| ==> ops[i].Valid()
    decreases |ops|
  {
    if ops == [] then [] else [Apply(s, ops[0]).ok] + Expected(Apply(s, ops[0]).store, ops[1..])
  }

  // Over every admissible run with working transfers, the volume holds what the store holds after
  // the same operations, and every operation reports what the store's does.
  lemma {:induction false} RunRefinesStore(v: Volume, env: Env, ops: seq<Op>)
    requires v.Safe() && Inv(v) && AllDone(env) && forall i :: 0 <= i < |ops| ==> ops[i].Valid()
    requires RunAdmissible(v, env, ops)
    ensures Inv(Run(v, env, ops)) && Contents(Run(v, env, ops)) == ApplyAll(Contents(v), ops)
    ensures Reports(v, env, ops) == Expected(Contents(v), ops)
    decreases |ops|
  {
    hide Shows, Contents, Step, Apply, OwnedBy, Admissible;
    if ops != [] {
      var chains :| Shows(v, chains, Contents(v));
      var chains2 := StepRefines(v, env, ops[0], chains, Contents(v));
      var v1 := Step(v, env, ops[0]).vol;
      ShownParts(v1, chains2, Apply(Contents(v), ops[0]).store);
      ContentsIs(v1, chains2, Apply(Contents(v), ops[0]).store);
      RunRefinesStore(v1, env, ops[1..]);
    }
  }

  // So does the volume that a later mount finds on the disk.
  lemma {:induction false} RemountHoldsStore(v: Volume, env: Env, ops: seq<Op>, env2: Env)
    requires v.Safe() && Inv(v) && AllDone(env) && forall i :: 0 <= i < |ops| ==> ops[i].Valid()
    requires RunAdmissible(v, env, ops) && Synced(v) && Described(v) && AllDone(env2)
    ensures var m := Mount(Run(v, env, ops).disk, env2);
            m.Mounted? && Inv(m.vol) && Contents(m.vol) == ApplyAll(Contents(v), ops)
  {
    hide Shows, Contents, OwnedBy, Admissible, Mount, Run;
    RunRefinesStore(v, env, ops);
    RunThenRemount(v, env, ops, env2);
    var after, m := Run(v, env, ops), Mount(Run(v, env, ops).disk, env2).vol;
    var chains :| Shows(after, chains, Contents(after));
    SameSectorsShow(after, m.disk, chains, Contents(after));
    ShownParts(m, chains, Contents(after));
    ContentsIs(m, chains, Contents(after));
  }

  lemma {:induction false} SameSectorsShow(v: Volume, d: Disk, chains: seq<seq<nat>>, s: Store)
    requires Shows(v, chains, s) && d.sectors == v.disk.sectors
    ensures Shows(v.(disk := d), chains, s)
  {
    hide Lists, Owned, DirectoryOk;
    DiskOnlyShows(v, d, chains, s);
  }

  // Finding and reading a file gives what the store holds.
  lemma {:induction false} ReadsStore(v: Volume, env: Env, name: CString)
    requires Inv(v)
    ensures var n, hit := Format(name), Find(v.dir, Format(name));
            && (hit.Hit? <==> n in Contents(v).files)
            && (hit.Hit? ==>
                  var r, data := ReadFile(v, env, v.dir[hit.slot]), Contents(v).files[n].data;
                  && |data| == v.dir[hit.slot].size
                  && (r.ok ==> r.data == data)
                  && (AllDone(env) ==> r.ok == (data != [])))
  {
    hide Contents, Format, Lists, ReadFile, Content;
    var chains :| Shows(v, chains, Contents(v));
    FoundIffListed(v, chains, Contents(v).files, name);
    var hit := Find(v.dir, Format(name));
    if hit.Hit? {
      if v.dir[hit.slot].size > 0 {
        OwnedChain(v, chains, hit.slot);
        ReadsContent(v, env, hit.slot, chains[hit.slot]);
      } else {
        EmptyReadsNothing(v, env, v.dir[hit.slot]);
      }
    }
  }
}

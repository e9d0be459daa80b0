/**
 How a stale slot comes about: three operations on an empty volume leave one, and a fourth then
 breaks the volume.
 */
module FatStale {
  import opened Bytes
  import opened Common
  import opened FatTable
  import opened FatChains
  import opened FatDirectory
  import opened FatVolume
  import opened FatDisk
  import opened FatInvariant
  import opened FatSteps
  import opened FatTheorems
  import opened FatFiles

  // A small volume with nothing on it.
  const SMALL: Geometry := Geometry(1, 1, 16, 30)
  const BLANK: Volume :=
    Volume(SMALL, seq(341, _ => 0), 0, seq(16, _ => Unused()), Disk(seq(30, _ => Zeros(512)), 0))

  const A: CString := [0x41]
  const C: CString := [0x43]

  // A one-cluster file is written, written again, and deleted.
  function Prelude(a: seq<byte>, b: seq<byte>): (ops: seq<Op>) {
    [Write(A, a), Write(A, b), Delete(A)]
  }

  lemma {:induction false} BlankIsSound()
    ensures OwnedBy(BLANK, seq(16, _ => []))
    ensures VacantSlot(BLANK.dir) == Hit(0) && Find(BLANK.dir, Format(A)).Miss?
  {
    hide Format;
    assert BLANK.dir[0] == Unused();
  }

  lemma {:induction false} FormatOfA()
    ensures Format(A)[0] == 0x41
  {
    assert DotIndex(A) == 1;
  }

  // Only slot 0 is in use: by the file `A`, in cluster `c`.
  ghost predicate OneFile(v: Volume, chains: seq<seq<nat>>, c: nat) {
    && OwnedBy(v, chains) && v.g == SMALL && |v.dir| == 16
    && v.dir[0].Live() && v.dir[0].name == Format(A) && v.dir[0].first == c && chains[0] == [c]
    && (forall i :: 0 < i < 16 ==> v.dir[i].name[0] == FREE)
    && forall d :: 2 <= d < SMALL.MaxCluster() && d != c ==> At(v.table, d) == 0
  }

  // A write of at most a cluster takes the lowest free one.
  lemma {:induction false} LowestTaken(v: Volume, env: Env, name: CString, data: seq<byte>, c: nat)
    requires v.Safe() && AllDone(env) && 0 < |data| <= 512
    requires Find(v.dir, Format(name)).Hit? || VacantSlot(v.dir).Hit?
    requires 2 <= c < v.g.MaxCluster() && At(v.table, c) == 0 && forall d :: 2 <= d < c ==> At(v.table, d) != 0
    ensures Space(v, |data|) == [c] && Commits(v, env, name, data) && WriteFile(v, env, name, data).ok
  {
    hide Find, VacantSlot, Format, WriteFile, Commits;
    assert ClustersFor(|data|) == 1;
    PicksStep(v.table, 2, v.g.MaxCluster(), 1);
    PicksStep(v.table, c + 1, v.g.MaxCluster(), 0);
    CommitsIff(v, env, name, data);
  }

  lemma {:induction false} FirstWrite(env: Env, a: seq<byte>) returns (chains: seq<seq<nat>>)
    requires AllDone(env) && 0 < |a| <= 512
    ensures BLANK.Safe() && Admissible(BLANK, env, Write(A, a)) && WriteFile(BLANK, env, A, a).ok
    ensures OneFile(WriteFile(BLANK, env, A, a).vol, chains, 2)
  {
    hide Find, VacantSlot, Format, WriteFile, Commits, Space, Owned, DirectoryOk;
    var none: seq<seq<nat>> := seq(16, _ => []);
    BlankIsSound();
    FormatOfA();
    LowestTaken(BLANK, env, A, a, 2);
    NeverUsedSlotIsClean(BLANK, A, |a|);
    chains := WriteFileEffect(BLANK, env, A, a, none);
    CommitOutcome(BLANK, env, A, a, none);
  }

  lemma {:induction false} SecondWrite(v: Volume, env: Env, b: seq<byte>, chains: seq<seq<nat>>)
    returns (chains2: seq<seq<nat>>)
    requires OneFile(v, chains, 2) && AllDone(env) && 0 < |b| <= 512
    ensures Admissible(v, env, Write(A, b)) && WriteFile(v, env, A, b).ok
    ensures OneFile(WriteFile(v, env, A, b).vol, chains2, 3)
  {
    hide Find, VacantSlot, Format, WriteFile, Commits, Space, Owned;
    FormatOfA();
    FoundIsUnique(v.dir, Format(A), 0);
    TakenCluster(v, chains, 2);
    LowestTaken(v, env, A, b, 3);
    chains2 := WriteFileEffect(v, env, A, b, chains);
    CommitOutcome(v, env, A, b, chains);
  }

  lemma {:induction false} TakenCluster(v: Volume, chains: seq<seq<nat>>, c: nat)
    requires OneFile(v, chains, c)
    ensures At(v.table, c) != 0
  {
    hide Format;
    HeldChain(v, chains, 0);
    ChainEntriesUsed(v.table, v.g.MaxCluster(), chains[0], c);
  }

  // The deleted slot keeps the number of a cluster that is free now.
  ghost predicate StaleSlot(v: Volume) {
    && v.Safe() && Inv(v) && v.g == SMALL && |v.dir| == 16
    && v.dir[0].name[0] == DELETED && v.dir[0].first == 3 && (forall i :: 0 < i < 16 ==> v.dir[i].name[0] == FREE)
    && forall d :: 2 <= d < SMALL.MaxCluster() ==> At(v.table, d) == 0
  }

  lemma {:induction false} DeleteLeavesStale(v: Volume, env: Env, chains: seq<seq<nat>>)
    requires OneFile(v, chains, 3) && AllDone(env)
    ensures DeleteFile(v, env, A).ok && StaleSlot(DeleteFile(v, env, A).vol)
  {
    hide Find, Format, DeleteFile, Owned, Freed, Effect, At, FreeCount;
    FormatOfA();
    FoundIsUnique(v.dir, Format(A), 0);
    Deleted(v, env, A, chains);
    var chains2 := DeleteFileEffect(v, env, A, chains);
    EffectOwned(v, DeleteFile(v, env, A).vol, chains, chains2, Format(A));
    DeleteIs(v, env, 0);
    TableCleared(v, chains);
  }

  lemma {:induction false} TableCleared(v: Volume, chains: seq<seq<nat>>)
    requires OneFile(v, chains, 3)
    ensures forall d :: 2 <= d < SMALL.MaxCluster() ==> At(Freed(v.table, 3), d) == 0
  {
    hide Format, Freed, DirectoryOk;
    HeldChain(v, chains, 0);
    FreedChain(v.table, v.g.MaxCluster(), chains[0]);
    forall d | 2 <= d < SMALL.MaxCluster()
      ensures At(Freed(v.table, 3), d) == 0
    {
      assert d < |v.table| && Freed(v.table, chains[0][0])[d] == if d in chains[0] then 0 else v.table[d];
      assert At(v.table, d) == v.table[d];
    }
  }

  lemma DeleteIs(v: Volume, env: Env, k: nat)
    requires v.Safe() && Find(v.dir, Format(A)) == Hit(k) && k < |v.dir| && v.dir[k].first >= 2
    ensures var v2 := DeleteFile(v, env, A).vol;
            && v2.table == Freed(v.table, v.dir[k].first)
            && v2.dir == v.dir[k := v.dir[k].(name := [DELETED] + v.dir[k].name[1..])]
  {
    hide Find, Format, FlushBoth, Freed;
  }

  lemma {:induction false} NoneTaken(t: seq<u12>, lo: nat, hi: nat)
    requires lo <= hi && forall d :: lo <= d < hi ==> At(t, d) == 0
    ensures FreeCount(t, lo, hi) == hi - lo
    decreases hi - lo
  {
    if lo < hi { NoneTaken(t, lo + 1, hi); }
  }

  lemma {:induction false} StaleBreaks(v: Volume, env: Env, data: seq<byte>)
    requires StaleSlot(v) && AllDone(env) && |data| == 1024
    ensures Commits(v, env, C, data) && !Inv(WriteFile(v, env, C, data).vol)
  {
    hide Format, WriteFile, Commits, Inv;
    assert Find(v.dir, Format(C)).Miss? && VacantSlot(v.dir) == Hit(0);
    assert ClustersFor(1024) == 2;
    NoneTaken(v.table, 2, 3);
    NoneTaken(v.table, 2, v.g.MaxCluster());
    PicksCount(v.table, 2, v.g.MaxCluster(), 2);
    CommitsIff(v, env, C, data);
    UncleanSlotBreaks(v, env, C, data);
  }

  // For instance a volume whose first slot was deleted while its file started at cluster 3.
  const STALE: Dirent := Dirent([DELETED] + seq(10, _ => SPACE), ATTR_FILE, Zeros(14), 3, 100)
  const STALE_VOLUME: Volume := BLANK.(dir := [STALE] + seq(15, _ => Unused()))

  lemma StaleVolumeIsSound()
    ensures OwnedBy(STALE_VOLUME, seq(16, _ => []))
  {
  }

  // The invariant does fail: writing two clusters under a fresh name takes clusters 2 and 3 and
  // then frees cluster 3 through the stale field.
  lemma {:induction false} StaleSlotExample(env: Env, data: seq<byte>)
    requires AllDone(env) && |data| == 1024
    ensures Inv(STALE_VOLUME)
    ensures !Inv(WriteFile(STALE_VOLUME, env, C, data).vol)
  {
    hide WriteFile, Commits, Format, Owned;
    StaleVolumeIsSound();
    StaleBreaks(STALE_VOLUME, env, data);
  }

  // Every operation reports success, the first three keep the volume sound, and the fourth, an
  // ordinary write of two clusters under a new name, does not.
  lemma {:induction false} StaleSlotIsReached(env: Env, a: seq<byte>, b: seq<byte>, data: seq<byte>)
    requires AllDone(env) && 0 < |a| <= 512 && 0 < |b| <= 512 && |data| == 1024
    ensures BLANK.Safe() && Inv(BLANK) && RunAdmissible(BLANK, env, Prelude(a, b))
    ensures var v := Run(BLANK, env, Prelude(a, b));
            && Inv(v) && v.dir[0].first == 3 && WriteFile(v, env, C, data).ok
            && !Inv(WriteFile(v, env, C, data).vol)
  {
    hide WriteFile, DeleteFile, OneFile, Format, Admissible, OwnedBy, Commits;
    BlankIsSound();
    var chains := FirstWrite(env, a);
    var v1 := WriteFile(BLANK, env, A, a).vol;
    OneFileIsSafe(v1, chains, 2);
    chains := SecondWrite(v1, env, b, chains);
    var v2 := WriteFile(v1, env, A, b).vol;
    OneFileIsSafe(v2, chains, 3);
    DeleteLeavesStale(v2, env, chains);
    var v := DeleteFile(v2, env, A).vol;
    ThreeSteps(BLANK, env, a, b);
    StaleBreaks(v, env, data);
    CommitsIff(v, env, C, data);
  }

  lemma OneFileIsSafe(v: Volume, chains: seq<seq<nat>>, c: nat)
    requires OneFile(v, chains, c)
    ensures v.Safe()
  {
    hide Format;
  }

  lemma {:induction false} ThreeSteps(v: Volume, env: Env, a: seq<byte>, b: seq<byte>)
    requires v.Safe() && |a| < TWO32 && |b| < TWO32
    ensures var v1 := WriteFile(v, env, A, a).vol;
            var v2 := WriteFile(v1, env, A, b).vol;
            && Run(v, env, Prelude(a, b)) == DeleteFile(v2, env, A).vol
            && (RunAdmissible(v, env, Prelude(a, b)) <==>
                  Admissible(v, env, Write(A, a)) && Admissible(v1, env, Write(A, b)))
  {
    hide WriteFile, DeleteFile, Format, Commits;
    var ops := Prelude(a, b);
    assert ops[1..] == [Write(A, b), Delete(A)] && ops[1..][1..] == [Delete(A)] && [Delete(A)][1..] == [];
    var v1 := Step(v, env, ops[0]).vol;
    var v2 := Step(v1, env, ops[1]).vol;
    assert Run(v2, env, [Delete(A)]) == DeleteFile(v2, env, A).vol;
    assert RunAdmissible(v2, env, [Delete(A)]);
    assert Run(v1, env, ops[1..]) == Run(v2, env, [Delete(A)]);
  }
}

/**
 A built floppy image in closed form: what the builder accepts, where each file lies, and the
 bytes the boot loader and the driver rely on.
 */
module ImageLayout {
  import opened Bytes
  import opened FatTable
  import opened FatChains
  import opened FatDirectory
  import opened FatVolume
  import opened FatDisk
  import opened FatInvariant
  import opened FatSync
  import opened FatFormat
  import opened MkImage

  // The least positive number of clusters that holds `size` bytes.
  lemma ClustersLeast(size: nat, n: nat)
    ensures Clusters(size) <= n <==> 1 <= n && size <= 512 * n
  {
  }

  // A display name: one to eight characters, and after a dot up to three, none of them a dot.
  ghost predicate Is83(name: Display, base: Display, ext: Display) {
    && 1 <= |base| <= 8 && |ext| <= 3 && DOT !in base && DOT !in ext
    && (name == base + [DOT] + ext || (name == base && ext == []))
  }

  lemma {:induction false} ValidNameIff(name: Display)
    ensures ValidName(name) <==> exists base: Display, ext: Display :: Is83(name, base, ext)
  {
    if ValidName(name) {
      var k := DotIndex(name);
      var base: Display := name[..k];
      if k < |name| {
        var ext: Display := name[k + 1..];
        assert name == base + [DOT] + ext;
        assert Is83(name, base, ext);
      } else {
        assert Is83(name, base, []);
      }
    }
    forall base: Display, ext: Display | Is83(name, base, ext)
      ensures ValidName(name)
    {
      FirstDot(base, ext);
      if name != base {
        assert name[|base| + 1..] == ext;
      }
    }
  }

  // ---------------------------------------------------------------- where files start

  // The clusters of the first `k` programs.
  function Before(programs: seq<Program>, k: nat): (n: nat)
    requires k <= |programs|
  {
    if k == 0 then 0 else Before(programs, k - 1) + Clusters(|programs[k - 1].content|)
  }

  lemma {:induction false} BeforeShift(programs: seq<Program>, k: nat)
    requires k < |programs|
    ensures Before(programs, k + 1) == Clusters(|programs[0].content|) + Before(programs[1..], k)
  {
    if k > 0 {
      BeforeShift(programs, k - 1);
    }
  }

  // With the programs laid out back to back from cluster `start` on, program `k` starts on the
  // floppy and its chain stays inside the FAT.
  ghost predicate Placeable(start: nat, programs: seq<Program>, k: nat)
    requires k < |programs|
  {
    && ValidName(programs[k].name) && start + Before(programs, k) <= 2848
    && start + Before(programs, k + 1) <= 3072
  }

  lemma {:induction false} PlaceableNext(start: nat, programs: seq<Program>, k: nat)
    requires 1 <= k < |programs|
    ensures Placeable(start, programs, k)
            <==> Placeable(start + Clusters(|programs[0].content|), programs[1..], k - 1)
  {
    hide Clusters, ValidName;
    BeforeShift(programs, k - 1);
    BeforeShift(programs, k);
  }

  ghost predicate AllPlaceable(start: nat, programs: seq<Program>) {
    forall k :: 0 <= k < |programs| ==> Placeable(start, programs, k)
  }

  lemma {:induction false} OneByOne(start: nat, programs: seq<Program>)
    requires programs != []
    ensures AllPlaceable(start, programs)
            <==> && Placeable(start, programs, 0)
                 && AllPlaceable(start + Clusters(|programs[0].content|), programs[1..])
  {
    hide Placeable, Clusters;
    var next, rest := start + Clusters(|programs[0].content|), programs[1..];
    forall k | 1 <= k < |programs|
      ensures Placeable(start, programs, k) <==> Placeable(next, rest, k - 1)
    {
      PlaceableNext(start, programs, k);
    }
    forall k | 0 <= k < |rest|
      ensures Placeable(next, rest, k) <==> Placeable(start, programs, k + 1)
    {
      PlaceableNext(start, programs, k + 1);
    }
  }

  lemma {:induction false} AcceptsIff(files: seq<File>, programs: seq<Program>)
    ensures Accepts(files, programs)
            <==> (programs == [] || |files| + |programs| < 224) && AllPlaceable(NextFree(files), programs)
    decreases |programs|
  {
    hide NextFree, Clusters, ValidName, Split83, AllPlaceable, Placeable, Accepts;
    if programs == [] {
      NoneAccepted(files);
    } else {
      FirstPlaceable(NextFree(files), programs);
      OneByOne(NextFree(files), programs);
      FirstAccepted(files, programs);
      if ValidName(programs[0].name) {
        var f := File(Split83(programs[0].name), programs[0].content);
        LastCluster(files, f);
        AcceptsIff(files + [f], programs[1..]);
      }
    }
  }

  lemma NoneAccepted(files: seq<File>)
    ensures Accepts(files, []) && AllPlaceable(NextFree(files), [])
  {
  }

  lemma FirstAccepted(files: seq<File>, programs: seq<Program>)
    requires programs != []
    ensures var p := programs[0];
            Accepts(files, programs)
            <==> && ValidName(p.name) && NextFree(files) <= 2848 && NextFree(files) + Clusters(|p.content|) <= 3072
                 && |files| + 1 < 224 && Accepts(files + [File(Split83(p.name), p.content)], programs[1..])
  {
    hide NextFree, Clusters, ValidName, Split83;
  }

  lemma FirstPlaceable(start: nat, programs: seq<Program>)
    requires programs != []
    ensures Placeable(start, programs, 0)
            <==> ValidName(programs[0].name) && start <= 2848 && start + Clusters(|programs[0].content|) <= 3072
  {
    assert Before(programs, 1) == Clusters(|programs[0].content|);
  }

  // What the builder accepts: a kernel that fits, and at most 222 programs with 8.3 names, each
  // starting on the floppy. Only the first cluster of a program is held against the floppy.
  lemma {:induction false} AcceptedIff(kernel: seq<byte>, programs: seq<Program>)
    ensures Accepted(kernel, programs)
            <==> && |kernel| <= 512 * 2847 && |programs| <= 222
                 && AllPlaceable(2 + Clusters(|kernel|), programs)
  {
    hide Accepts, AllPlaceable;
    var files := [File(KERNEL_NAME, kernel)];
    AcceptsIff(files, programs);
    NextFreeIs(kernel);
  }

  lemma NextFreeIs(kernel: seq<byte>)
    ensures NextFree([File(KERNEL_NAME, kernel)]) == 2 + Clusters(|kernel|)
  {
    LastCluster([], File(KERNEL_NAME, kernel));
    assert [] + [File(KERNEL_NAME, kernel)] == [File(KERNEL_NAME, kernel)];
  }

  // The first cluster of file `k` of a build, and the first behind the last.
  lemma {:induction false} PlacedAt(files: seq<File>, programs: seq<Program>, k: nat)
    requires Accepts(files, programs) && k <= |programs|
    ensures |AllFiles(files, programs)| == |files| + |programs|
    ensures NextFree(AllFiles(files, programs)[..|files| + k]) == NextFree(files) + Before(programs, k)
    decreases |programs|
  {
    hide NextFree, Clusters, ValidName, Split83;
    AllFilesPrefix(files, programs, |files|);
    if k == 0 {
      assert files[..|files|] == files;
    } else {
      var f := File(Split83(programs[0].name), programs[0].content);
      LastCluster(files, f);
      PlacedAt(files + [f], programs[1..], k - 1);
      BeforeShift(programs, k - 1);
    }
  }

  // ---------------------------------------------------------------- what the image holds

  // `content` lies in one piece from sector `lba` on, with zeros up to the end of its last sector.
  ghost predicate Contiguous(image: seq<byte>, content: seq<byte>, lba: nat) {
    var n := (|content| + 511) / 512 * 512;
    512 * lba + n <= |image| && image[512 * lba..512 * lba + n] == content + Zeros(n - |content|)
  }

  lemma {:induction false} StoredIsContiguous(image: seq<byte>, content: seq<byte>, first: nat)
    requires FileStored(image, content, first)
    ensures Contiguous(image, content, 31 + first)
  {
    hide Piece;
    var lba, n := LbaOf(first), 512 * Pieces(content);
    var s := image[512 * lba..512 * lba + n];
    forall x | 0 <= x < n
      ensures s[x] == (content + Zeros(n - |content|))[x]
    {
      var j, y := x / 512, x % 512;
      assert Chunk(image, lba + j) == Piece(content, j);
      assert Chunk(image, lba + j)[y] == image[512 * (lba + j) + y];
      PieceAt(content, j, y);
    }
    assert s == content + Zeros(n - |content|);
  }

  lemma PieceAt(content: seq<byte>, j: nat, y: nat)
    requires 512 * j < |content| && y < 512
    ensures Piece(content, j)[y] == if 512 * j + y < |content| then content[512 * j + y] else 0
  {
  }

  // The layout of a built image: boot sector, two equal FATs beginning with the media mark, ...
  lemma {:induction false} ImageStarts(image: seq<byte>, boot: Sector, files: seq<File>)
    requires Layable(files) && ImageHolds(image, boot, files)
    ensures |image| >= 2880 * 512 && image[0..512] == boot
    ensures image[512..515] == [0xF0, 0xFF, 0xFF] && image[5120..9728] == image[512..5120]
  {
    hide TableOf, DirOf, NextFree, TableBytes, SlotBytes;
    ImageSize(image, boot, files);
    assert Chunk(image, 0) == image[0..512];
    MediaMark(files);
    assert image[512..515] == image[512..5120][0..3];
  }

  // ... the kernel's record first in the root directory, and the kernel in one piece from sector
  // 33 on, which is where the boot loader takes cluster 2 to be.
  lemma {:induction false} KernelBytes(image: seq<byte>, boot: Sector, kernel: seq<byte>, programs: seq<Program>)
    requires Accepted(kernel, programs)
    requires var files := AllFiles([File(KERNEL_NAME, kernel)], programs);
             Layable(files) && ImageHolds(image, boot, files)
    ensures |image| >= 9760
    ensures image[9728..9760] == [0x4B, 0x45, 0x52, 0x4E, 0x45, 0x4C, 0x20, 0x20, 0x42, 0x49, 0x4E, 0x20]
                                     + Zeros(14) + [2, 0] + Le32Bytes(|kernel|)
    ensures Contiguous(image, kernel, 33)
  {
    hide Accepts, AllFiles, TableOf, DirOf, NextFree, TableBytes, Contiguous, FileStored, SlotBytes;
    var first := [File(KERNEL_NAME, kernel)];
    var files := AllFiles(first, programs);
    AllFilesPrefix(first, programs, 1);
    assert files[0] == files[..1][0] == first[0] && files[..0] == [];
    ImageSize(image, boot, files);
    NoFiles();
    assert FileStored(image, files[0].content, NextFree(files[..0]));
    StoredIsContiguous(image, kernel, 2);
    LaidOutAt(files, 0);
    assert EntryOf(files, 0) == Dirent(KERNEL_NAME, 0x20, Zeros(14), 2, |kernel|);
    FirstRecord(image, files);
  }

  lemma {:induction false} FirstRecord(image: seq<byte>, files: seq<File>)
    requires Layable(files) && |image| >= DATA_OFF && image[ROOT_OFF..DATA_OFF] == SlotBytes(DirOf(files))
    ensures image[9728..9760] == DirentBytes(DirOf(files)[0])
  {
    hide SlotBytes, DirentBytes, DirOf;
    SlotBytesAt(DirOf(files), 0);
    assert image[9728..9760] == image[ROOT_OFF..DATA_OFF][0..32];
  }

  lemma NoFiles()
    ensures NextFree([]) == 2
  {
  }

  lemma {:induction false} MediaMark(files: seq<File>)
    requires Layable(files)
    ensures TableBytes(4608, TableOf(files), 0)[0..3] == [0xF0, 0xFF, 0xFF]
  {
    hide Unpack, TableBytes, TableOf;
    var t := TableBytes(4608, TableOf(files), 0);
    FirstEntries(files);
    TableBytesRoundTrip(4608, TableOf(files), 0);
    ThreeBytes(t, 0);
    MarkBytes(t[0], t[1], t[2]);
  }

  lemma MarkBytes(a: byte, b: byte, c: byte)
    requires a as int + 0x100 * (b as int % 16) == 0xFF0 && b as int / 16 + 16 * c as int == 0xFFF
    ensures a == 0xF0 && b == 0xFF && c == 0xFF
  {
  }

  lemma {:induction false} FirstEntries(files: seq<File>)
    requires Layable(files)
    ensures TableOf(files)[0] == 0xFF0 && TableOf(files)[1] == 0xFFF
    decreases |files|
  {
    if files != [] {
      NextFreeGrows(files, |files| - 1);
      FirstEntries(files[..|files| - 1]);
    }
  }

  // A program lies in one piece behind the kernel and the programs before it.
  lemma {:induction false} ProgramBytes(image: seq<byte>, boot: Sector, kernel: seq<byte>, programs: seq<Program>,
                                        i: nat)
    requires Accepted(kernel, programs) && i < |programs|
    requires var files := AllFiles([File(KERNEL_NAME, kernel)], programs);
             Layable(files) && ImageHolds(image, boot, files)
    ensures Contiguous(image, programs[i].content, 33 + Clusters(|kernel|) + Before(programs, i))
  {
    hide Accepts, AllFiles, TableOf, DirOf, NextFree, TableBytes, Contiguous, FileStored, Format;
    var first := [File(KERNEL_NAME, kernel)];
    var files := AllFiles(first, programs);
    AllFilesAt(first, programs, i + 1);
    PlacedAt(first, programs, i);
    NextFreeIs(kernel);
    StoredIsContiguous(image, files[i + 1].content, NextFree(files[..i + 1]));
  }

  // A program of an accepted build is found by its name on the mounted image and reads back its
  // bytes if and only if kernel and programs up to it take at most 2847 clusters; the volume is
  // sound if and only if all of them do.
  lemma {:induction false} BuildReadsBackIff(boot: Sector, kernel: seq<byte>, programs: seq<Program>,
                                             image: seq<byte>, i: nat, env: Env, env2: Env)
    requires Accepted(kernel, programs) && NamesDistinct(programs)
    requires var files := AllFiles([File(KERNEL_NAME, kernel)], programs);
             Layable(files) && ImageHolds(image, boot, files)
    requires FloppyBoot(boot) && AllDone(env) && AllDone(env2)
    requires i < |programs| && programs[i].content != []
    ensures var m := Mount(DiskOf(image), env);
            && m.Mounted? && Synced(m.vol)
            && (ReadsAs(m.vol, Format(programs[i].name), i + 1, env2, programs[i].content)
                <==> Clusters(|kernel|) + Before(programs, i + 1) <= 2847)
            && (Inv(m.vol) <==> Clusters(|kernel|) + Before(programs, |programs|) <= 2847)
  {
    hide Format, AllFiles, Accepts, Mount, ReadsAs, DiskOf, Inv, Synced, ImageHolds, FloppyBoot, NextFree, Layable;
    var first := [File(KERNEL_NAME, kernel)];
    var files := AllFiles(first, programs);
    ProgramReadsBackIff(boot, kernel, programs, image, i, env, env2);
    PlacedAt(first, programs, i + 1);
    PlacedAt(first, programs, |programs|);
    assert files[..1 + |programs|] == files;
    NextFreeIs(kernel);
  }
}

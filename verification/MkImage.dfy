/**
 The floppy image builder, and that what it builds mounts as a sound volume from which the kernel
 reads back every file.
 */
module MkImage {
  import opened Bytes
  import opened Common
  import opened FatTable
  import opened FatChains
  import opened FatDirectory
  import opened FatVolume
  import opened FatDisk
  import opened FatInvariant
  import opened FatSync
  import opened FatFormat
  import opened FatTheorems

  const FLOPPY: Geometry := Geometry(1, 9, 224, 2880)
  const IMAGE_SIZE: nat := 2880 * 512
  const TOTAL_CLUSTERS: nat := 2880 - 1 - 2 * 9 - 14

  lemma FloppyGeometry()
    ensures FLOPPY.RootSectors() == 14 && FLOPPY.RootStart() == 19 && FLOPPY.DataStart() == 33
    ensures FLOPPY.MaxCluster() == 2849 && Capacity(512 * 9) == 3072 && FLOPPY.Valid()
  {
  }

  // ---------------------------------------------------------------- the builder's FAT

  // fat12_write: through one 16-bit word.
  function WordWrite(word: u16, cluster: nat, value: nat): (r: u16) {
    if cluster % 2 == 1 then word % 16 + value * 16 % 0x1_0000 else word / 0x1000 * 0x1000 + value % 0x1000
  }

  // The word form stores the same bytes as the driver's byte form.
  lemma {:induction false} WordWriteIsStore(table: seq<byte>, cluster: nat, value: u16)
    requires InTable(|table|, cluster)
    ensures var o := Offset(cluster);
            var w := WordWrite(Le16(table, o), cluster, value);
            table[o := w % 0x100][o + 1 := w / 0x100] == WithEntry(table, cluster, value)
  {
    var o := Offset(cluster);
    if cluster % 2 == 1 { OddWord(table[o], table[o + 1], value); } else { EvenWord(table[o], table[o + 1], value); }
  }

  lemma {:induction false} OddWord(b0: byte, b1: byte, value: u16)
    ensures var w := (b0 as int + b1 as int * 0x100) % 16 + value * 16 % 0x1_0000;
            w % 0x100 == b0 % 16 + value % 16 * 16 && w / 0x100 == value / 16 % 0x100
  {
    var hi, lo := value / 16, value % 16;
    assert (b0 as int + b1 as int * 0x100) % 16 == b0 % 16;
    assert value * 16 % 0x1_0000 == hi % 0x100 * 0x100 + lo * 16 by {
      assert value * 16 == hi * 0x100 + lo * 16;
      assert hi == hi / 0x100 * 0x100 + hi % 0x100;
      Base64K(hi / 0x100, hi % 0x100 * 0x100 + lo * 16);
    }
    Base256(hi % 0x100, b0 % 16 + lo * 16);
  }

  lemma Base64K(q: int, r: int)
    requires 0 <= r < 0x1_0000
    ensures (0x1_0000 * q + r) % 0x1_0000 == r
  {
  }

  lemma {:induction false} EvenWord(b0: byte, b1: byte, value: u16)
    ensures var w := (b0 as int + b1 as int * 0x100) / 0x1000 * 0x1000 + value % 0x1000;
            w % 0x100 == value % 0x100 && w / 0x100 == b1 / 16 * 16 + value / 0x100 % 16
  {
    assert (b0 as int + b1 as int * 0x100) / 0x1000 == b1 / 16;
    var v := value % 0x1000;
    assert v == v / 0x100 * 0x100 + v % 0x100;
    assert v % 0x100 == value % 0x100 && v / 0x100 == value / 0x100 % 16;
  }

  method Fat12Write(table: array<byte>, cluster: nat, value: u12)
    requires cluster < Capacity(table.Length)
    modifies table
    ensures table[..] == WithEntry(old(table[..]), cluster, value)
  {
    var off := cluster + cluster / 2;
    assert off == Offset(cluster);
    ghost var before: seq<byte> := table[..];
    WordWriteIsStore(before, cluster, value);
    assert Le16(before, off) == table[off] as int + table[off + 1] as int * 0x100;
    var word := table[off] as int + table[off + 1] as int * 0x100;
    word := WordWrite(word, cluster, value);
    var lo: byte, hi: byte := word % 0x100, word / 0x100;
    table[off] := lo;
    table[off + 1] := hi;
    assert table[..] == before[off := lo][off + 1 := hi];
  }

  // At least one cluster per file.
  function Clusters(size: nat): (n: nat)
    ensures n >= 1 && size <= 512 * n
  {
    if size == 0 then 1 else (size + 511) / 512
  }

  function Range(a: nat, n: nat): (cs: seq<nat>)
    ensures |cs| == n && forall i :: 0 <= i < n ==> cs[i] == a + i
  {
    seq(n, i requires i >= 0 => a + i)
  }

  // chain_file after `i` of its rounds.
  function ChainedUpTo(t: seq<u12>, start: nat, n: nat, i: nat): (r: seq<u12>)
    requires start + n <= |t| && |t| <= 0x1000 && i <= n
    ensures |r| == |t|
    ensures forall d :: 0 <= d < |t| ==>
              r[d] == if start <= d < start + i then (if d == start + n - 1 then 0xFFF else d + 1) else t[d]
  {
    if i == 0 then t
    else ChainedUpTo(t, start, n, i - 1)[start + i - 1 := if i == n then 0xFFF else start + i]
  }

  // The builder links a file exactly as the driver links an allocated chain.
  lemma {:induction false} ChainedIsLinked(t: seq<u12>, start: nat, n: nat)
    requires start + n <= |t| && |t| <= 0x1000
    ensures ChainedUpTo(t, start, n, n) == Linked(t, Range(start, n))
  {
    var cs := Range(start, n);
    LinkedChain(t, cs);
    forall d | 0 <= d < |t|
      ensures ChainedUpTo(t, start, n, n)[d] == Linked(t, cs)[d]
    {
      if start <= d < start + n {
        assert cs[d - start] == d;
        if d < start + n - 1 { assert cs[d - start + 1] == d + 1; }
      } else {
        assert d !in cs;
      }
    }
  }

  method ChainFile(fat: array<byte>, start: nat, size: nat) returns (next: nat)
    requires start + Clusters(size) <= Capacity(fat.Length) <= 0x1000
    modifies fat
    ensures next == start + Clusters(size)
    ensures Unpack(fat[..]) == Linked(old(Unpack(fat[..])), Range(start, Clusters(size)))
    ensures Slack(fat[..]) == old(Slack(fat[..]))
  {
    hide Unpack, Slack, ChainedUpTo, Linked, WithEntry, Range;
    var n := Clusters(size);
    ghost var t := Unpack(fat[..]);
    assert ChainedUpTo(t, start, n, 0) == t by { ChainedNone(t, start, n); }
    for i := 0 to n
      invariant Unpack(fat[..]) == ChainedUpTo(t, start, n, i)
      invariant Slack(fat[..]) == old(Slack(fat[..]))
    {
      var cluster := start + i;
      var value := if i < n - 1 then cluster + 1 else 0xFFF;
      StoreUnpacked(fat[..], cluster, value);
      ChainedOne(t, start, n, i);
      Fat12Write(fat, cluster, value);
    }
    ChainedIsLinked(t, start, n);
    return start + n;
  }

  lemma ChainedNone(t: seq<u12>, start: nat, n: nat)
    requires start + n <= |t| && |t| <= 0x1000
    ensures ChainedUpTo(t, start, n, 0) == t
  {
  }

  lemma ChainedOne(t: seq<u12>, start: nat, n: nat, i: nat)
    requires start + n <= |t| && |t| <= 0x1000 && i < n
    ensures ChainedUpTo(t, start, n, i + 1)
            == ChainedUpTo(t, start, n, i)[start + i := if i < n - 1 then start + i + 1 else 0xFFF]
  {
  }

  // ---------------------------------------------------------------- names

  // A display name: ASCII, as given on the command line.
  type Display = s: seq<byte> | forall i :: 0 <= i < |s| ==> 0 < s[i] < 0x80 witness []

  predicate ValidName(name: Display) {
    var k := DotIndex(name);
    && 0 < k <= 8
    && (k < |name| ==> |name| - k - 1 <= 3 && DOT !in name[k + 1..])
  }

  // split_83: base and extension in upper case, each filled up with spaces on the right.
  function Ljust(s: seq<byte>, width: nat): (r: seq<byte>) {
    if |s| >= width then s else s + seq(width - |s|, _ => SPACE)
  }

  function Split83(name: Display): (r: Name)
    requires ValidName(name)
  {
    var k := DotIndex(name);
    var ext := if k < |name| then name[k + 1..] else [];
    LjustLength(UpperAll(name[..k]), 8);
    LjustLength(UpperAll(ext), 3);
    Ljust(UpperAll(name[..k]), 8) + Ljust(UpperAll(ext), 3)
  }

  lemma LjustLength(s: seq<byte>, width: nat)
    requires |s| <= width
    ensures |Ljust(s, width)| == width
  {
  }

  lemma LjustIsField(s: seq<byte>, width: nat)
    requires |s| <= width
    ensures Ljust(UpperAll(s), width) == Field(s, width)
  {
  }

  // The builder and the driver agree on the stored form of every name the builder accepts.
  lemma {:induction false} Split83IsFormat(name: Display)
    requires ValidName(name)
    ensures 0 !in name && Split83(name) == Format(name)
    ensures Split83(name)[0] != FREE && Split83(name)[0] != DELETED
  {
    var k := DotIndex(name);
    var ext := if k < |name| then name[k + 1..] else [];
    LjustIsField(name[..k], 8);
    LjustIsField(ext, 3);
    assert name[..k][0] == name[0];
  }

  // ---------------------------------------------------------------- the layout

  datatype File = File(name: Name, content: seq<byte>)

  // First cluster after the files, which are laid out back to back from cluster 2.
  function NextFree(files: seq<File>): (n: nat)
    ensures n >= 2
  {
    if files == [] then 2 else NextFree(files[..|files| - 1]) + Clusters(|files[|files| - 1].content|)
  }

  lemma {:induction false} NextFreeGrows(files: seq<File>, k: nat)
    requires k < |files|
    ensures NextFree(files[..k]) + Clusters(|files[k].content|) <= NextFree(files)
  {
    var m := |files| - 1;
    if k < m {
      NextFreeGrows(files[..m], k);
      assert files[..m][..k] == files[..k];
    }
  }

  // Media descriptor and reserved entry, everything else free.
  function StartTable(): (t: seq<u12>) {
    seq(3072, i => if i == 0 then 0xFF0 else if i == 1 then 0xFFF else 0)
  }

  function BlankDir(): (s: seq<Dirent>)
    ensures |s| == 224 && forall i :: 0 <= i < 224 ==> s[i] == Unused()
  {
    seq(224, _ => Unused())
  }

  // The FAT, the root directory and the owners the builder lays out for `files`.
  function TableOf(files: seq<File>): (r: seq<u12>)
    requires NextFree(files) <= 3072
    ensures |r| == 3072
    ensures forall c :: NextFree(files) <= c < 3072 ==> r[c] == 0
  {
    if files == [] then StartTable() else
    var m := |files| - 1;
    var t := TableOf(files[..m]);
    var first := NextFree(files[..m]);
    var n := Clusters(|files[m].content|);
    ChainedUpTo(t, first, n, n)
  }

  function EntryOf(files: seq<File>, k: nat): (e: Dirent)
    requires k < |files| && NextFree(files) <= 3072 && |files[k].content| < TWO32
    ensures e.Valid()
  {
    NextFreeGrows(files, k);
    Dirent(files[k].name, ATTR_FILE, Zeros(14), NextFree(files[..k]), |files[k].content|)
  }

  ghost predicate Layable(files: seq<File>) {
    && |files| <= 224 && NextFree(files) <= 3072
    && forall k :: 0 <= k < |files| ==> |files[k].content| < TWO32
  }

  ghost function DirOf(files: seq<File>): (s: seq<Dirent>)
    requires Layable(files)
    ensures |s| == 224 && forall i :: 0 <= i < 224 ==> s[i].Valid()
    ensures forall i :: |files| <= i < 224 ==> s[i] == Unused()
  {
    if files == [] then BlankDir() else
    var m := |files| - 1;
    NextFreeGrows(files, m);
    DirOf(files[..m])[m := EntryOf(files, m)]
  }

  ghost function ChainsOf(files: seq<File>): (chains: seq<seq<nat>>)
    requires |files| <= 224
    ensures |chains| == 224 && forall i :: |files| <= i < 224 ==> chains[i] == []
  {
    if files == [] then seq(224, _ => []) else
    var m := |files| - 1;
    ChainsOf(files[..m])[m := Range(NextFree(files[..m]), Clusters(|files[m].content|))]
  }

  // Usable, distinct names.
  ghost predicate NamesOk(files: seq<File>) {
    && (forall i :: 0 <= i < |files| ==> files[i].name[0] != FREE && files[i].name[0] != DELETED)
    && (forall i, j :: 0 <= i < j < |files| ==> !Matches(files[i].name, files[j].name))
  }

  lemma {:induction false} LaidOutAt(files: seq<File>, k: nat)
    requires Layable(files) && k < |files|
    ensures DirOf(files)[k] == EntryOf(files, k)
    ensures ChainsOf(files)[k] == Range(NextFree(files[..k]), Clusters(|files[k].content|))
    decreases |files|
  {
    var m := |files| - 1;
    NextFreeGrows(files, m);
    if k < m {
      LaidOutAt(files[..m], k);
      assert files[..m][..k] == files[..k];
    }
  }

  // One more file, on clusters not yet used, in a slot not yet used.
  lemma {:induction false} FileAdded(t: seq<u12>, s: seq<Dirent>, chains: seq<seq<nat>>, m: nat, first: nat, n: nat,
                                     e: Dirent)
    requires |t| == 3072 && Owned(t, 2849, s, chains) && m < |s| && chains[m] == []
    requires 2 <= first && 1 <= n && first + n <= 2849
    requires forall c :: first <= c < first + n ==> t[c] == 0
    requires e.Live() && e.first == first && e.size <= 512 * n
    ensures Owned(ChainedUpTo(t, first, n, n), 2849, s[m := e], chains[m := Range(first, n)])
  {
    hide ChainedUpTo;
    var cs := Range(first, n);
    Grown(t, 2849, cs);
    ChainedIsLinked(t, first, n);
    Reassign(t, 2849, s, chains, m, Linked(t, cs), e, cs);
  }

  lemma NothingOwned()
    ensures Owned(StartTable(), 2849, BlankDir(), seq(224, _ => []))
  {
  }

  // What the builder lays out satisfies the driver's invariant, when all files fit entirely.
  lemma {:induction false} LayoutIsOwned(files: seq<File>)
    requires Layable(files) && NamesOk(files) && NextFree(files) <= 2849
    ensures Owned(TableOf(files), 2849, DirOf(files), ChainsOf(files))
    decreases |files|
  {
    hide Owned, ChainedUpTo, StartTable;
    if files == [] {
      NothingOwned();
    } else {
      var m := |files| - 1;
      var front := files[..m];
      NextFreeGrows(files, m);
      LayoutIsOwned(front);
      FileAdded(TableOf(front), DirOf(front), ChainsOf(front), m, NextFree(front),
                Clusters(|files[m].content|), EntryOf(files, m));
    }
  }

  // ---------------------------------------------------------------- the image

  // Python slice assignment s[a:b] = x on a bytearray, which may lengthen it.
  function SliceAssign(s: seq<byte>, a: nat, b: nat, x: seq<byte>): (r: seq<byte>)
    requires a <= b
  {
    s[..if a < |s| then a else |s|] + x + s[if b < |s| then b else |s|..]
  }

  lemma SliceInside(s: seq<byte>, a: nat, x: seq<byte>)
    requires a + |x| <= |s|
    ensures SliceAssign(s, a, a + |x|, x) == Splice(s, a, x)
  {
  }

  lemma SliceAtEnd(s: seq<byte>, b: nat, x: seq<byte>)
    requires |s| <= b
    ensures SliceAssign(s, |s|, b, x) == s + x
  {
  }

  // Sector `j` of a file's data, zero-padded.
  function Piece(data: seq<byte>, j: nat): (s: Sector)
    requires 512 * j <= |data|
  {
    Padded(data[512 * j..if 512 * j + 512 < |data| then 512 * j + 512 else |data|])
  }

  function Pieces(data: seq<byte>): (n: nat)
    ensures 512 * (n - 1) < |data| <= 512 * n || (n == 0 && data == [])
    ensures n <= Clusters(|data|)
  {
    (|data| + 511) / 512
  }

  // fat12_cluster_lba
  function LbaOf(cluster: nat): int { 33 + cluster - 2 }

  // write_data_clusters after `i` of its rounds
  function Written(image: seq<byte>, data: seq<byte>, start: nat, i: nat): (r: seq<byte>)
    requires 2 <= start && i <= Pieces(data)
  {
    if i == 0 then image else
    var off := 512 * LbaOf(start + i - 1);
    SliceAssign(Written(image, data, start, i - 1), off, off + 512, Piece(data, i - 1))
  }

  method WriteDataClusters(image: seq<byte>, data: seq<byte>, start: nat) returns (r: seq<byte>)
    requires 2 <= start
    ensures r == Written(image, data, start, Pieces(data))
  {
    hide SliceAssign, Piece;
    var padded := data + Zeros(512 * Pieces(data) - |data|);
    r := image;
    for i := 0 to Pieces(data)
      invariant r == Written(image, data, start, i)
    {
      var off := 512 * LbaOf(start + i);
      PaddedPiece(data, i);
      r := SliceAssign(r, off, off + 512, padded[512 * i..512 * i + 512]);
    }
  }

  lemma {:induction false} PaddedPiece(data: seq<byte>, i: nat)
    requires i < Pieces(data)
    ensures (data + Zeros(512 * Pieces(data) - |data|))[512 * i..512 * i + 512] == Piece(data, i)
  {
    var s := (data + Zeros(512 * Pieces(data) - |data|))[512 * i..512 * i + 512];
    forall x | 0 <= x < 512
      ensures s[x] == Piece(data, i)[x]
    {
    }
  }

  // The data of a file is in the sectors of its clusters.
  ghost predicate FileStored(image: seq<byte>, content: seq<byte>, first: nat) {
    && 2 <= first && 512 * (LbaOf(first) + Pieces(content)) <= |image|
    && forall j {:trigger Piece(content, j)} :: 0 <= j < Pieces(content) ==>
         Chunk(image, LbaOf(first) + j) == Piece(content, j)
  }

  // What an image of `size` bytes grows to when it gets sectors up to number `end`.
  function Size(size: nat, end: nat): (n: nat) { if 512 * end <= size then size else 512 * end }

  // One sector inside the image, or right at its end.
  lemma {:induction false} OnePiece(image: seq<byte>, k: nat, p: Sector)
    requires |image| % 512 == 0 && 512 * k <= |image|
    ensures var r := SliceAssign(image, 512 * k, 512 * k + 512, p);
            && |r| == Size(|image|, k + 1) && 512 * k + 512 <= |r| && Chunk(r, k) == p
            && forall x :: 0 <= x < |image| && !(512 * k <= x < 512 * k + 512) ==> r[x] == image[x]
  {
    hide SliceAssign, Splice;
    var r := SliceAssign(image, 512 * k, 512 * k + 512, p);
    if 512 * k < |image| {
      SliceInside(image, 512 * k, p);
    } else {
      SliceAtEnd(image, 512 * k + 512, p);
    }
    assert forall x :: 0 <= x < 512 ==> r[512 * k + x] == p[x];
    assert Chunk(r, k) == p;
  }

  lemma {:induction false} WrittenElsewhere(image: seq<byte>, data: seq<byte>, start: nat, i: nat)
    requires 2 <= start && i <= Pieces(data) && |image| % 512 == 0 && 512 * LbaOf(start) <= |image|
    ensures var r := Written(image, data, start, i);
            && |r| == Size(|image|, LbaOf(start) + i)
            && (forall x :: 0 <= x < |image| && !(512 * LbaOf(start) <= x < 512 * (LbaOf(start) + i)) ==>
                  r[x] == image[x])
    decreases i
  {
    hide Piece, SliceAssign, Chunk;
    if i > 0 {
      WrittenElsewhere(image, data, start, i - 1);
      var before := Written(image, data, start, i - 1);
      OnePiece(before, LbaOf(start + i - 1), Piece(data, i - 1));
    }
  }

  lemma {:induction false} WrittenPiece(image: seq<byte>, data: seq<byte>, start: nat, i: nat, j: nat)
    requires 2 <= start && j < i <= Pieces(data) && |image| % 512 == 0 && 512 * LbaOf(start) <= |image|
    ensures |Written(image, data, start, i)| == Size(|image|, LbaOf(start) + i)
    ensures Chunk(Written(image, data, start, i), LbaOf(start) + j) == Piece(data, j)
    decreases i
  {
    hide Piece, SliceAssign;
    var before, r := Written(image, data, start, i - 1), Written(image, data, start, i);
    WrittenElsewhere(image, data, start, i - 1);
    OnePiece(before, LbaOf(start + i - 1), Piece(data, i - 1));
    if j < i - 1 {
      WrittenPiece(image, data, start, i - 1, j);
      assert Chunk(r, LbaOf(start) + j) == Chunk(before, LbaOf(start) + j);
    }
  }

  // Writing data from inside the image or its end stores all of it, lengthening the image where it
  // has to, and leaves every other byte alone.
  lemma {:induction false} WrittenStores(image: seq<byte>, data: seq<byte>, start: nat)
    requires 2 <= start && |image| % 512 == 0 && 512 * LbaOf(start) <= |image|
    ensures var r := Written(image, data, start, Pieces(data));
            && |r| == Size(|image|, LbaOf(start) + Pieces(data)) && FileStored(r, data, start)
            && (forall x :: 0 <= x < |image| && !(512 * LbaOf(start) <= x < 512 * (LbaOf(start) + Pieces(data))) ==>
                  r[x] == image[x])
  {
    hide Written, Piece;
    WrittenElsewhere(image, data, start, Pieces(data));
    forall j | 0 <= j < Pieces(data)
      ensures Chunk(Written(image, data, start, Pieces(data)), LbaOf(start) + j) == Piece(data, j)
    {
      WrittenPiece(image, data, start, Pieces(data), j);
    }
  }

  const ROOT_OFF: nat := 19 * 512
  const DATA_OFF: nat := 33 * 512

  // Boot sector, root directory and the data of the files from number `k` on are in place.
  ghost predicate PartHolds(image: seq<byte>, boot: Sector, files: seq<File>, k: nat)
    requires Layable(files)
  {
    && |image| == Size(IMAGE_SIZE, LbaOf(NextFree(files)))
    && Chunk(image, 0) == boot
    && image[ROOT_OFF..DATA_OFF] == SlotBytes(DirOf(files))
    && forall i :: k <= i < |files| ==> FileStored(image, files[i].content, NextFree(files[..i]))
  }

  // The finished image.
  ghost predicate ImageHolds(image: seq<byte>, boot: Sector, files: seq<File>)
    requires Layable(files)
  {
    && PartHolds(image, boot, files, 0)
    && image[512..5120] == TableBytes(4608, TableOf(files), 0)
    && image[5120..ROOT_OFF] == TableBytes(4608, TableOf(files), 0)
  }

  // put_root_entry
  function PutRootEntry(image: seq<byte>, slot: nat, e: Dirent): (r: seq<byte>)
    requires e.Valid()
  {
    var off := ROOT_OFF + slot * 32;
    SliceAssign(image, off, off + 32, DirentBytes(e))
  }

  lemma {:induction false} RootEntryPut(image: seq<byte>, s: seq<Dirent>, slot: nat, e: Dirent)
    requires |image| >= IMAGE_SIZE && |s| == 224 && slot < 224 && e.Valid()
    requires forall i :: 0 <= i < 224 ==> s[i].Valid()
    requires image[ROOT_OFF..DATA_OFF] == SlotBytes(s)
    ensures var r := PutRootEntry(image, slot, e);
            && |r| == |image|
            && r[ROOT_OFF..DATA_OFF] == SlotBytes(s[slot := e])
            && (forall x :: 0 <= x < |image| && !(ROOT_OFF <= x < DATA_OFF) ==> r[x] == image[x])
  {
    hide DirentBytes, SlotBytes, SliceAssign;
    var b, off := DirentBytes(e), ROOT_OFF + slot * 32;
    SliceInside(image, off, b);
    SlotStored(s, slot, e);
    var r := Splice(image, off, b);
    var root2 := Splice(SlotBytes(s), 32 * slot, b);
    assert |r[ROOT_OFF..DATA_OFF]| == |root2|;
    forall x | 0 <= x < |root2|
      ensures r[ROOT_OFF + x] == root2[x]
    {
      assert image[ROOT_OFF + x] == image[ROOT_OFF..DATA_OFF][x];
      if 32 * slot <= x < 32 * slot + 32 {
        assert r[off + (x - 32 * slot)] == b[x - 32 * slot];
        assert root2[32 * slot + (x - 32 * slot)] == b[x - 32 * slot];
      }
    }
  }

  // Stored data survives changes elsewhere.
  lemma {:induction false} StoredSurvives(image: seq<byte>, after: seq<byte>, content: seq<byte>, first: nat)
    requires FileStored(image, content, first) && |after| >= |image|
    requires forall x :: 512 * LbaOf(first) <= x < 512 * (LbaOf(first) + Pieces(content)) ==> after[x] == image[x]
    ensures FileStored(after, content, first)
  {
    forall j | 0 <= j < Pieces(content)
      ensures Chunk(after, LbaOf(first) + j) == Piece(content, j)
    {
      assert Chunk(image, LbaOf(first) + j) == Piece(content, j);
      assert Chunk(after, LbaOf(first) + j) == Chunk(image, LbaOf(first) + j);
    }
  }

  // The data of one more file.
  lemma {:induction false} DataGrows(image: seq<byte>, boot: Sector, files: seq<File>)
    requires files != [] && Layable(files) && NextFree(files[..|files| - 1]) <= TOTAL_CLUSTERS + 1
    requires Layable(files[..|files| - 1]) && PartHolds(image, boot, files[..|files| - 1], 1)
    ensures var content, first := files[|files| - 1].content, NextFree(files[..|files| - 1]);
            var r := Written(image, content, first, Pieces(content));
            && |r| == Size(IMAGE_SIZE, LbaOf(NextFree(files)))
            && (forall x :: 0 <= x < DATA_OFF ==> r[x] == image[x])
            && forall i :: 1 <= i < |files| ==> FileStored(r, files[i].content, NextFree(files[..i]))
  {
    hide Written, Piece, FileStored, SlotBytes, DirOf, NextFree;
    var m := |files| - 1;
    var front := files[..m];
    var content, first := files[m].content, NextFree(front);
    assert files[..m + 1] == files;
    LastOfPrefix(files, m);
    WrittenStores(image, content, first);
    var r := Written(image, content, first, Pieces(content));
    forall i | 1 <= i < |files|
      ensures FileStored(r, files[i].content, NextFree(files[..i]))
    {
      if i < m {
        assert front[..i] == files[..i];
        NextFreeGrows(front, i);
        PiecesFit(image, files[i].content, NextFree(files[..i]));
        StoredSurvives(image, r, files[i].content, NextFree(files[..i]));
      }
    }
  }

  // The root entry and the data of one more file.
  lemma {:induction false} PartGrows(image: seq<byte>, boot: Sector, files: seq<File>)
    requires files != [] && Layable(files) && NextFree(files[..|files| - 1]) <= TOTAL_CLUSTERS + 1
    requires Layable(files[..|files| - 1]) && PartHolds(image, boot, files[..|files| - 1], 1)
    ensures var m := |files| - 1;
            var content, first := files[m].content, NextFree(files[..m]);
            var withData := Written(image, content, first, Pieces(content));
            PartHolds(PutRootEntry(withData, m, EntryOf(files, m)), boot, files, 1)
  {
    hide Written, PutRootEntry, SlotBytes, DirentBytes, EntryOf, FileStored, NextFree;
    var m := |files| - 1;
    var content, first := files[m].content, NextFree(files[..m]);
    DataGrows(image, boot, files);
    var withData := Written(image, content, first, Pieces(content));
    assert withData[ROOT_OFF..DATA_OFF] == image[ROOT_OFF..DATA_OFF];
    var e := EntryOf(files, m);
    RootEntryPut(withData, DirOf(files[..m]), m, e);
    var r := PutRootEntry(withData, m, e);
    assert Chunk(r, 0) == Chunk(image, 0);
    forall i | 1 <= i < |files|
      ensures FileStored(r, files[i].content, NextFree(files[..i]))
    {
      PiecesFit(withData, files[i].content, NextFree(files[..i]));
      StoredSurvives(withData, r, files[i].content, NextFree(files[..i]));
    }
  }

  lemma PiecesFit(image: seq<byte>, content: seq<byte>, first: nat)
    requires FileStored(image, content, first)
    ensures 33 <= LbaOf(first) && 512 * (LbaOf(first) + Pieces(content)) <= |image|
  {
    hide Piece;
  }

  lemma {:induction false} BlankBytes(s: seq<Dirent>)
    requires forall i :: 0 <= i < |s| ==> s[i].Valid() && s[i] == Unused()
    ensures SlotBytes(s) == Zeros(32 * |s|)
  {
    if s != [] {
      BlankBytes(s[..|s| - 1]);
      assert DirentBytes(Unused()) == Zeros(32);
    }
  }

  // Boot sector and the kernel's root entry on a blank image.
  lemma {:induction false} PartStarts(boot: Sector, kernel: File)
    requires Layable([kernel]) && NextFree([kernel]) <= 2849
    ensures var image := SliceAssign(Zeros(IMAGE_SIZE), 0, 512, boot);
            PartHolds(PutRootEntry(image, 0, EntryOf([kernel], 0)), boot, [kernel], 1)
  {
    hide PutRootEntry, SlotBytes, DirentBytes, EntryOf, SliceAssign;
    var image := SliceAssign(Zeros(IMAGE_SIZE), 0, 512, boot);
    SliceInside(Zeros(IMAGE_SIZE), 0, boot);
    BlankBytes(BlankDir());
    assert image[ROOT_OFF..DATA_OFF] == Zeros(32 * 224);
    var e := EntryOf([kernel], 0);
    RootEntryPut(image, BlankDir(), 0, e);
    var r := PutRootEntry(image, 0, e);
    assert Chunk(r, 0) == image[..512] == boot;
    assert [kernel][..0] == [];
    assert DirOf([kernel]) == BlankDir()[0 := e];
  }

  // Both FAT copies, then the kernel's data.
  lemma {:induction false} PartEnds(image: seq<byte>, boot: Sector, files: seq<File>, fat: seq<byte>)
    requires files != [] && Layable(files) && Pieces(files[0].content) <= TOTAL_CLUSTERS
    requires PartHolds(image, boot, files, 1)
    requires |fat| == 4608 && fat == TableBytes(4608, TableOf(files), 0)
    ensures var one := SliceAssign(image, 512, 5120, fat);
            var two := SliceAssign(one, 5120, ROOT_OFF, fat);
            ImageHolds(Written(two, files[0].content, 2, Pieces(files[0].content)), boot, files)
  {
    hide Written, SlotBytes, SliceAssign, TableBytes, TableOf, Piece;
    var one := SliceAssign(image, 512, 5120, fat);
    SliceInside(image, 512, fat);
    var two := SliceAssign(one, 5120, ROOT_OFF, fat);
    SliceInside(one, 5120, fat);
    var content := files[0].content;
    assert files[..0] == [];
    NextFreeGrows(files, 0);
    WrittenStores(two, content, 2);
    var r := Written(two, content, 2, Pieces(content));
    assert Chunk(r, 0) == Chunk(image, 0);
    assert r[ROOT_OFF..DATA_OFF] == image[ROOT_OFF..DATA_OFF];
    assert r[512..5120] == fat && r[5120..ROOT_OFF] == fat;
    forall i | 0 <= i < |files|
      ensures FileStored(r, files[i].content, NextFree(files[..i]))
    {
      if i > 0 {
        AfterFirst(files, i);
        StoredSurvives(image, r, files[i].content, NextFree(files[..i]));
      }
    }
  }

  // Later files lie behind the first one.
  lemma {:induction false} AfterFirst(files: seq<File>, i: nat)
    requires 0 < i < |files|
    ensures 2 + Pieces(files[0].content) <= NextFree(files[..i])
  {
    NextFreeGrows(files[..i], 0);
    assert files[..i][..0] == [];
  }

  // ---------------------------------------------------------------- build_image

  datatype Program = Program(name: Display, content: seq<byte>)

  datatype Built = Image(bytes: seq<byte>) | Refused

  const KERNEL_NAME: Name := [0x4B, 0x45, 0x52, 0x4E, 0x45, 0x4C, 0x20, 0x20, 0x42, 0x49, 0x4E]

  // The files placed for the programs from number `i` on, after `files`: what the builder
  // accepts. Only the first cluster of a program is checked against the floppy; a chain that
  // leaves the FAT buffer raises an index error.
  predicate Accepts(files: seq<File>, programs: seq<Program>)
    decreases |programs|
  {
    programs == [] ||
    (var p := programs[0];
     && ValidName(p.name)
     && NextFree(files) <= TOTAL_CLUSTERS + 1
     && NextFree(files) + Clusters(|p.content|) <= 3072
     && |files| + 1 < 224
     && Accepts(files + [File(Split83(p.name), p.content)], programs[1..]))
  }

  function AllFiles(files: seq<File>, programs: seq<Program>): (r: seq<File>)
    requires Accepts(files, programs)
    decreases |programs|
  {
    if programs == [] then files
    else AllFiles(files + [File(Split83(programs[0].name), programs[0].content)], programs[1..])
  }

  lemma LastCluster(files: seq<File>, f: File)
    ensures NextFree(files + [f]) == NextFree(files) + Clusters(|f.content|)
    ensures (files + [f])[..|files|] == files
  {
  }

  lemma {:induction false} AllFilesLayable(files: seq<File>, programs: seq<Program>)
    requires Accepts(files, programs) && Layable(files)
    ensures Layable(AllFiles(files, programs))
    ensures NextFree(files) <= NextFree(AllFiles(files, programs))
    decreases |programs|
  {
    if programs != [] {
      var f := File(Split83(programs[0].name), programs[0].content);
      LastCluster(files, f);
      AllFilesLayable(files + [f], programs[1..]);
    }
  }

  lemma ZeroTable(fat: seq<byte>)
    requires |fat| == 4608 && forall i :: 0 <= i < 4608 ==> fat[i] == 0
    ensures Unpack(fat)[0 := 0xFF0][1 := 0xFFF] == StartTable() && Slack(fat) == 0
  {
  }

  predicate Accepted(kernel: seq<byte>, programs: seq<Program>) {
    Pieces(kernel) <= TOTAL_CLUSTERS && Accepts([File(KERNEL_NAME, kernel)], programs)
  }

  lemma {:induction false} KernelFits(kernel: seq<byte>)
    requires Pieces(kernel) <= TOTAL_CLUSTERS
    ensures var files := [File(KERNEL_NAME, kernel)];
            && NextFree(files) == 2 + Clusters(|kernel|) <= 2849 && Layable(files)
            && TableOf(files) == ChainedUpTo(StartTable(), 2, Clusters(|kernel|), Clusters(|kernel|))
  {
    var files := [File(KERNEL_NAME, kernel)];
    assert files[..0] == [];
  }

  // The state of the builder after some programs.
  ghost predicate Building(image: seq<byte>, boot: Sector, files: seq<File>, t: seq<u12>, next: nat)
  {
    && files != [] && Layable(files) && next == NextFree(files) && t == TableOf(files)
    && PartHolds(image, boot, files, 1)
  }

  lemma {:induction false} BuildingStarts(boot: Sector, kernel: seq<byte>)
    requires Pieces(kernel) <= TOTAL_CLUSTERS
    ensures var n := Clusters(|kernel|);
            var image := SliceAssign(Zeros(IMAGE_SIZE), 0, 512, boot);
            var e := Dirent(KERNEL_NAME, ATTR_FILE, Zeros(14), 2, |kernel|);
            && 2 + n <= 3072
            && Building(PutRootEntry(image, 0, e), boot, [File(KERNEL_NAME, kernel)],
                        Linked(StartTable(), Range(2, n)), 2 + n)
  {
    hide PutRootEntry, SliceAssign, PartHolds, Linked, ChainedUpTo, StartTable;
    KernelFits(kernel);
    PartStarts(boot, File(KERNEL_NAME, kernel));
    ChainedIsLinked(StartTable(), 2, Clusters(|kernel|));
    assert [File(KERNEL_NAME, kernel)][..0] == [];
  }

  lemma {:induction false} BuildingGrows(image: seq<byte>, boot: Sector, files: seq<File>, t: seq<u12>, next: nat,
                                         f: File)
    requires Building(image, boot, files, t, next) && |files| < 224
    requires next <= TOTAL_CLUSTERS + 1 && next + Clusters(|f.content|) <= 3072
    ensures var n := Clusters(|f.content|);
            var e := Dirent(f.name, ATTR_FILE, Zeros(14), next, |f.content|);
            && |f.content| < TWO32
            && Building(PutRootEntry(Written(image, f.content, next, Pieces(f.content)), |files|, e), boot, files + [f],
                        Linked(t, Range(next, n)), next + n)
  {
    hide PutRootEntry, Written, PartHolds, Linked, ChainedUpTo;
    var more := files + [f];
    LastCluster(files, f);
    ChainedIsLinked(t, next, Clusters(|f.content|));
    assert Layable(more);
    PartGrows(image, boot, more);
  }

  lemma BuildingNext(image: seq<byte>, boot: Sector, files: seq<File>, t: seq<u12>, next: nat)
    requires Building(image, boot, files, t, next)
    ensures next == NextFree(files) >= 2 && |t| == 3072
  {
  }

  lemma {:induction false} BuildingEnds(image: seq<byte>, boot: Sector, files: seq<File>, fat: seq<byte>, next: nat,
                                        kernel: seq<byte>)
    requires |fat| == 4608 && Slack(fat) == 0 && Building(image, boot, files, Unpack(fat), next)
    requires files[0].content == kernel && Pieces(kernel) <= TOTAL_CLUSTERS
    ensures Layable(files)
    ensures var one := SliceAssign(image, 512, 5120, fat);
            var two := SliceAssign(one, 5120, ROOT_OFF, fat);
            ImageHolds(Written(two, kernel, 2, Pieces(kernel)), boot, files)
  {
    hide SliceAssign, Written, ImageHolds, PartHolds, TableBytes, Unpack, Slack, TableOf;
    UnpackRoundTrip(fat);
    PartEnds(image, boot, files, fat);
  }

  // The FAT with its two reserved entries.
  method NewFat() returns (fat: array<byte>)
    ensures fresh(fat) && fat.Length == 4608
    ensures Unpack(fat[..]) == StartTable() && Slack(fat[..]) == 0
  {
    hide Unpack, Slack, StartTable, WithEntry;
    fat := new byte[4608](_ => 0);
    ZeroTable(fat[..]);
    StoreUnpacked(fat[..], 0, 0xFF0);
    Fat12Write(fat, 0, 0xFF0);
    StoreUnpacked(fat[..], 1, 0xFFF);
    Fat12Write(fat, 1, 0xFFF);
  }

  // The body of the program loop once a program is accepted: chain, data, root entry.
  method AddFile(image: seq<byte>, fat: array<byte>, f: File, at: nat, slot: nat, ghost boot: Sector,
                 ghost files: seq<File>)
      returns (r: seq<byte>, next: nat)
    requires fat.Length == 4608 && Building(image, boot, files, Unpack(fat[..]), at)
    requires slot == |files| < 224 && at <= TOTAL_CLUSTERS + 1 && at + Clusters(|f.content|) <= 3072
    modifies fat
    ensures Building(r, boot, files + [f], Unpack(fat[..]), next)
    ensures Slack(fat[..]) == old(Slack(fat[..]))
  {
    hide PutRootEntry, Written, Building, Linked, Unpack, Slack;
    BuildingNext(image, boot, files, Unpack(fat[..]), at);
    BuildingGrows(image, boot, files, Unpack(fat[..]), at, f);
    next := ChainFile(fat, at, |f.content|);
    r := WriteDataClusters(image, f.content, at);
    r := PutRootEntry(r, slot, Dirent(f.name, ATTR_FILE, Zeros(14), at, |f.content|));
  }

  // build_image. A refusal stands for every SystemExit and IndexError of the original.
  method BuildImage(boot: Sector, kernel: seq<byte>, programs: seq<Program>) returns (r: Built)
    ensures r.Image? <==> Accepted(kernel, programs)
    ensures r.Image? ==>
              var files := AllFiles([File(KERNEL_NAME, kernel)], programs);
              Layable(files) && ImageHolds(r.bytes, boot, files)
  {
    hide PutRootEntry, Written, SliceAssign, Building, PartHolds, ImageHolds, Linked, StartTable, Unpack, Slack,
         Split83, TableBytes, NextFree, Layable;
    var image := SliceAssign(Zeros(IMAGE_SIZE), 0, 512, boot);
    if Pieces(kernel) > TOTAL_CLUSTERS {
      return Refused;
    }
    BuildingStarts(boot, kernel);
    var fat := NewFat();
    var next: nat := ChainFile(fat, 2, |kernel|);
    image := PutRootEntry(image, 0, Dirent(KERNEL_NAME, ATTR_FILE, Zeros(14), 2, |kernel|));
    var slot: nat := 1;
    ghost var first := [File(KERNEL_NAME, kernel)];
    ghost var files := first;
    for i := 0 to |programs|
      invariant Building(image, boot, files, Unpack(fat[..]), next) && slot == |files| < 224 && fresh(fat)
      invariant files[0] == File(KERNEL_NAME, kernel) && Slack(fat[..]) == 0
      invariant Accepts(first, programs) == Accepts(files, programs[i..])
      invariant Accepts(first, programs) ==> AllFiles(first, programs) == AllFiles(files, programs[i..])
    {
      var p := programs[i];
      assert programs[i..][0] == p && programs[i..][1..] == programs[i + 1..];
      BuildingNext(image, boot, files, Unpack(fat[..]), next);
      if !ValidName(p.name) || next > TOTAL_CLUSTERS + 1 || next + Clusters(|p.content|) > 3072 {
        return Refused;
      }
      var f := File(Split83(p.name), p.content);
      image, next := AddFile(image, fat, f, next, slot, boot, files);
      files := files + [f];
      slot := slot + 1;
      if slot >= 224 {
        return Refused;
      }
    }
    assert programs[|programs|..] == [];
    BuildingEnds(image, boot, files, fat[..], next, kernel);
    image := SliceAssign(image, 512, 5120, fat[..]);
    image := SliceAssign(image, 5120, ROOT_OFF, fat[..]);
    image := WriteDataClusters(image, kernel, 2);
    r := Image(image);
  }

  // ---------------------------------------------------------------- mounting what was built

  // The floppy takes the first 2880 sectors of the image.
  ghost function DiskOf(image: seq<byte>): (d: Disk)
    requires |image| >= IMAGE_SIZE
    ensures |d.sectors| == 2880 && forall k :: 0 <= k < 2880 ==> d.sectors[k] == Chunk(image, k)
  {
    Disk(seq(2880, k requires 0 <= k < 2880 => Chunk(image, k)), 0)
  }

  ghost function VolumeOf(image: seq<byte>, files: seq<File>): (v: Volume)
    requires |image| >= IMAGE_SIZE && Layable(files)
    ensures v.Formed()
  {
    FloppyGeometry();
    Volume(FLOPPY, TableOf(files), 0, DirOf(files), DiskOf(image))
  }

  lemma {:induction false} LayoutDirectory(files: seq<File>)
    requires Layable(files) && NamesOk(files) && NextFree(files) <= 2849
    ensures DirectoryOk(DirOf(files), 2849)
  {
    hide DirOf, NextFree, Matches;
    var s := DirOf(files);
    forall i | 0 <= i < |files|
      ensures s[i].name == files[i].name && 2 <= s[i].first < 2849
    {
      LaidOutAt(files, i);
      NextFreeGrows(files, i);
    }
  }

  lemma {:induction false} LinksInTable(files: seq<File>)
    requires NextFree(files) <= 3072
    ensures LinksInside(TableOf(files))
    decreases |files|
  {
    if files != [] {
      var m := |files| - 1;
      LinksInTable(files[..m]);
    }
  }

  // The built volume satisfies the driver's invariant.
  lemma {:induction false} BuiltIsOwned(image: seq<byte>, files: seq<File>)
    requires |image| >= IMAGE_SIZE && Layable(files) && NamesOk(files) && NextFree(files) <= 2849
    ensures OwnedBy(VolumeOf(image, files), ChainsOf(files))
  {
    hide TableOf, DirOf, ChainsOf, Owned, NextFree, DirectoryOk;
    FloppyGeometry();
    LayoutIsOwned(files);
    LayoutDirectory(files);
    LinksInTable(files);
    FirstsInTable(files);
  }

  lemma {:induction false} FirstsInTable(files: seq<File>)
    requires Layable(files) && NextFree(files) <= 2849
    ensures forall i :: 0 <= i < 224 ==> Stops(DirOf(files)[i].first) || DirOf(files)[i].first < 3072
  {
    hide DirOf, NextFree;
    forall i | 0 <= i < |files|
      ensures DirOf(files)[i].first < 3072
    {
      LaidOutAt(files, i);
      NextFreeGrows(files, i);
    }
  }

  // Consecutive sectors of the image hold the chunks of a stored buffer.
  lemma {:induction false} RegionStored(image: seq<byte>, base: nat, n: nat, bytes: seq<byte>)
    requires |image| >= IMAGE_SIZE && |bytes| == 512 * n && base + n <= 2880
    requires image[512 * base..512 * (base + n)] == bytes
    ensures Stored(DiskOf(image).sectors, base, bytes, n)
  {
    forall k | 0 <= k < n
      ensures DiskOf(image).sectors[base + k] == Chunk(bytes, k)
    {
      var a, b := Chunk(image, base + k), Chunk(bytes, k);
      forall x | 0 <= x < 512
        ensures a[x] == b[x]
      {
        assert image[512 * base..512 * (base + n)][512 * k + x] == image[512 * base + (512 * k + x)];
      }
      assert a == b;
    }
  }

  lemma {:induction false} BuiltIsSynced(image: seq<byte>, boot: Sector, files: seq<File>)
    requires Layable(files) && ImageHolds(image, boot, files)
    ensures Synced(VolumeOf(image, files))
    ensures VolumeOf(image, files).disk.sectors[0] == boot
  {
    hide TableOf, DirOf, TableBytes, SlotBytes, Stored, DiskOf, FileStored;
    FloppyGeometry();
    var v := VolumeOf(image, files);
    RegionStored(image, 1, 9, v.Fat());
    RegionStored(image, 10, 9, v.Fat());
    RegionStored(image, 19, 14, v.Root());
  }

  // The sectors of a stored file, read along its clusters, are the file.
  lemma {:induction false} StoredContent(image: seq<byte>, content: seq<byte>, first: nat, n: nat, j: nat)
    requires |image| >= IMAGE_SIZE && FileStored(image, content, first)
    requires Pieces(content) <= n && first + n <= 2849 && j <= n && 512 * j <= |content| + 511
    ensures FLOPPY.Valid() && Within(Range(first + j, n - j), 2, FLOPPY.MaxCluster())
    ensures var from := if 512 * j <= |content| then 512 * j else |content|;
            Content(DiskOf(image).sectors, FLOPPY, Range(first + j, n - j), |content| - from) == content[from..]
    decreases n - j
  {
    hide DiskOf, FileStored;
    FloppyGeometry();
    PiecesFit(image, content, first);
    var cs := Range(first + j, n - j);
    if 512 * j < |content| {
      StoredContent(image, content, first, n, j + 1);
      assert cs[1..] == Range(first + (j + 1), n - (j + 1));
      var size := |content| - 512 * j;
      var m := if size < 512 then size else 512;
      SectorOf(image, content, first, j);
      assert content[512 * j..] == content[512 * j..512 * j + m] + content[512 * j + m..];
    }
  }

  lemma {:induction false} SectorOf(image: seq<byte>, content: seq<byte>, first: nat, j: nat)
    requires |image| >= IMAGE_SIZE && FileStored(image, content, first)
    requires 512 * j < |content| && first + Pieces(content) <= 2849
    ensures var m := if |content| - 512 * j < 512 then |content| - 512 * j else 512;
            DiskOf(image).sectors[LbaOf(first) + j][..m] == content[512 * j..512 * j + m]
  {
    var m := if |content| - 512 * j < 512 then |content| - 512 * j else 512;
    assert Chunk(image, LbaOf(first) + j) == Piece(content, j);
    assert Piece(content, j)[..m] == content[512 * j..512 * j + m];
  }

  // A built image mounts, as the volume that was laid out.
  lemma {:induction false} BuiltMounts(image: seq<byte>, boot: Sector, files: seq<File>, env: Env)
    requires Layable(files) && ImageHolds(image, boot, files)
    requires FloppyBoot(boot) && AllDone(env)
    ensures var m := Mount(DiskOf(image), env);
            && m.Mounted? && m.vol == VolumeOf(image, files).(disk := m.vol.disk)
            && m.vol.disk.sectors == DiskOf(image).sectors && Synced(m.vol)
            && (NamesOk(files) && NextFree(files) <= 2849 ==> OwnedBy(m.vol, ChainsOf(files)) && Inv(m.vol))
  {
    hide TableOf, DirOf, ChainsOf, NextFree, Mount, Owned, Synced, ParseBpb, BpbSupported, FloppyBoot, DiskOf,
         DirectoryOk, NamesOk;
    FloppyBootReads(boot);
    FloppyGeometry();
    var v := VolumeOf(image, files);
    BuiltIsSynced(image, boot, files);
    RemountRebuilds(v, env);
    SyncedElsewhere(v, Mount(DiskOf(image), env).vol);
    if NamesOk(files) && NextFree(files) <= 2849 {
      BuiltIsOwned(image, files);
    }
  }

  // Later files leave the links of earlier ones alone.
  lemma {:induction false} LinksKept(files: seq<File>, c: nat)
    requires files != [] && NextFree(files) <= 3072 && c < NextFree(files[..|files| - 1])
    ensures NextFree(files[..|files| - 1]) <= 3072 && TableOf(files)[c] == TableOf(files[..|files| - 1])[c]
  {
    hide ChainedUpTo;
  }

  lemma {:induction false} LastLinks(files: seq<File>, c: nat)
    requires files != [] && NextFree(files[..|files| - 1]) <= c < NextFree(files) <= 3072
    ensures TableOf(files)[c] == if c + 1 == NextFree(files) then 0xFFF else c + 1
  {
    hide ChainedUpTo;
  }

  // The links of file `k`: each cluster to the next, the last to the end mark.
  lemma {:induction false} LinksOf(files: seq<File>, k: nat, c: nat)
    requires NextFree(files) <= 3072 && k < |files|
    requires NextFree(files[..k]) <= c < NextFree(files[..k + 1])
    ensures c < 3072 && TableOf(files)[c] == if c + 1 == NextFree(files[..k + 1]) then 0xFFF else c + 1
    decreases |files|
  {
    hide TableOf, NextFree;
    var m := |files| - 1;
    if k < m {
      var front := files[..m];
      assert front[..k] == files[..k] && front[..k + 1] == files[..k + 1];
      LastOfPrefix(files, m);
      assert files[..m + 1] == files;
      NextFreeGrows(front, k);
      LastOfPrefix(front, k);
      LinksOf(front, k, c);
      LinksKept(files, c);
    } else {
      assert files[..k + 1] == files;
      LastLinks(files, c);
    }
  }

  // A file that fits the floppy is one whole chain.
  lemma {:induction false} ChainOf(files: seq<File>, k: nat)
    requires NextFree(files) <= 3072 && k < |files| && NextFree(files[..k + 1]) <= 2849
    ensures IsChain(TableOf(files), 2849, Range(NextFree(files[..k]), Clusters(|files[k].content|)))
  {
    hide TableOf;
    var cs := Range(NextFree(files[..k]), Clusters(|files[k].content|));
    assert files[..k + 1][..k] == files[..k];
    forall i | 0 <= i < |cs|
      ensures At(TableOf(files), cs[i]) == if i + 1 == |cs| then 0xFFF else cs[i] + 1
    {
      LinksOf(files, k, cs[i]);
    }
  }

  // The name is found in slot `k`, with the right size, and reading it gives `content` (or
  // reports a failed transfer).
  ghost predicate ReadsAs(v: Volume, name: Name, k: nat, env: Env, content: seq<byte>) {
    && v.Formed() && Find(v.dir, name) == Hit(k) && k < |v.dir|
    && v.dir[k].size == |content|
    && (ReadFile(v, env, v.dir[k]).ok ==> ReadFile(v, env, v.dir[k]).data == content)
    && (AllDone(env) ==> ReadFile(v, env, v.dir[k]).ok)
  }

  // Mounting a built image and reading a file that fits by its stored name returns exactly its
  // bytes.
  lemma {:induction false} BuiltReadsBack(image: seq<byte>, boot: Sector, files: seq<File>, k: nat, env: Env, env2: Env)
    requires Layable(files) && NamesOk(files) && ImageHolds(image, boot, files)
    requires FloppyBoot(boot) && AllDone(env)
    requires k < |files| && files[k].content != [] && NextFree(files[..k + 1]) <= 2849
    ensures var m := Mount(DiskOf(image), env);
            m.Mounted? && ReadsAs(m.vol, files[k].name, k, env2, files[k].content)
  {
    hide TableOf, DirOf, NextFree, ReadFile, Mount, Find, ImageHolds, Synced, ParseBpb, BpbSupported, FloppyBoot, DiskOf,
         Content, IsChain, Range, EntryOf, OwnedBy, NamesOk;
    FloppyGeometry();
    ImageSize(image, boot, files);
    BuiltMounts(image, boot, files, env);
    var m := Mount(DiskOf(image), env).vol;
    FoundAt(m.dir, files, k);
    FirstOf(files, k);
    FitsContent(image, boot, files, k);
    ReadsContent(m, env2, k, Range(NextFree(files[..k]), Clusters(|files[k].content|)));
  }

  lemma FirstOf(files: seq<File>, k: nat)
    requires Layable(files) && k < |files|
    ensures EntryOf(files, k).first == NextFree(files[..k]) && EntryOf(files, k).size == |files[k].content|
  {
    hide NextFree;
  }

  // The sectors of a file that fits, along its chain, are the file.
  lemma {:induction false} FitsContent(image: seq<byte>, boot: Sector, files: seq<File>, k: nat)
    requires Layable(files) && ImageHolds(image, boot, files) && |image| >= IMAGE_SIZE
    requires k < |files| && NextFree(files[..k + 1]) <= 2849
    ensures var content, cs := files[k].content, Range(NextFree(files[..k]), Clusters(|files[k].content|));
            && FLOPPY.Valid() && FLOPPY.MaxCluster() == 2849 && IsChain(TableOf(files), 2849, cs)
            && cs[0] == NextFree(files[..k])
            && Content(DiskOf(image).sectors, FLOPPY, cs, |content|) == content
  {
    hide TableOf, DirOf, NextFree, FileStored, DiskOf, Content, TableBytes, SlotBytes;
    FloppyGeometry();
    var content, first, n := files[k].content, NextFree(files[..k]), Clusters(|files[k].content|);
    LastOfPrefix(files, k);
    ChainOf(files, k);
    StoredContent(image, content, first, n, 0);
    assert content[0..] == content;
  }

  lemma {:induction false} LastOfPrefix(files: seq<File>, k: nat)
    requires k < |files|
    ensures NextFree(files[..k + 1]) == NextFree(files[..k]) + Clusters(|files[k].content|)
  {
    assert files[..k + 1][..k] == files[..k];
  }

  // File `k` has slot `k`.
  lemma {:induction false} FoundAt(s: seq<Dirent>, files: seq<File>, k: nat)
    requires Layable(files) && NamesOk(files) && k < |files| && s == DirOf(files)
    ensures Find(s, files[k].name) == Hit(k) && s[k] == EntryOf(files, k)
  {
    hide DirOf, NextFree, Find, EntryOf;
    forall i | 0 <= i < |files|
      ensures s[i].name == files[i].name && s[i].attr == ATTR_FILE
    {
      LaidOutAt(files, i);
      EntryName(files, i);
    }
    LaidOutAt(files, k);
    FoundIsUnique(s, files[k].name, k);
  }

  lemma EntryName(files: seq<File>, i: nat)
    requires Layable(files) && i < |files|
    ensures EntryOf(files, i).name == files[i].name && EntryOf(files, i).attr == ATTR_FILE
  {
  }

  // ---------------------------------------------------------------- beyond the floppy

  // Reading along consecutive clusters fails at the end of the medium.
  lemma {:induction false} ChainLeaves(d: Disk, env: Env, t: seq<u12>, c: nat, size: nat)
    requires |d.sectors| == 2880 && 2 <= c <= 2849 && size > 512 * (2849 - c)
    requires forall x :: c <= x < 2849 ==> At(t, x) == x + 1
    ensures !GetChain(d, env, FLOPPY, t, c, size).ok
    decreases 2849 - c
  {
    FloppyGeometry();
    if c < 2849 {
      var f := Get(d, env, FLOPPY.Lba(c));
      ChainLeaves(f.disk, env, t, c + 1, size - 512);
    }
  }

  lemma {:induction false} OverflowLinks(files: seq<File>, k: nat)
    requires NextFree(files) <= 3072 && k < |files| && NextFree(files[..k]) <= 2848 && NextFree(files[..k + 1]) > 2849
    ensures forall x :: NextFree(files[..k]) <= x < 2849 ==> At(TableOf(files), x) == x + 1
    ensures |files[k].content| > 512 * (2849 - NextFree(files[..k]))
  {
    hide TableOf;
    LastOfPrefix(files, k);
    forall x | NextFree(files[..k]) <= x < 2849
      ensures At(TableOf(files), x) == x + 1
    {
      LinksOf(files, k, x);
    }
  }

  // The name is found in slot `k`, but cannot be read.
  ghost predicate Unreadable(v: Volume, name: Name, k: nat, env: Env) {
    v.Formed() && Find(v.dir, name) == Hit(k) && k < |v.dir| && !ReadFile(v, env, v.dir[k]).ok
  }

  // A file that leaves the floppy cannot be read.
  lemma {:induction false} OverflowIsLost(image: seq<byte>, boot: Sector, files: seq<File>, k: nat, env: Env, env2: Env)
    requires Layable(files) && NamesOk(files) && ImageHolds(image, boot, files)
    requires FloppyBoot(boot) && AllDone(env)
    requires k < |files| && NextFree(files[..k]) <= 2848 && NextFree(files[..k + 1]) > 2849
    ensures var m := Mount(DiskOf(image), env); m.Mounted? && Unreadable(m.vol, files[k].name, k, env2)
  {
    hide TableOf, DirOf, NextFree, Mount, Find, FileStored, Synced, ParseBpb, BpbSupported, FloppyBoot, DiskOf,
         GetChain;
    FloppyGeometry();
    BuiltMounts(image, boot, files, env);
    var m := Mount(DiskOf(image), env).vol;
    FoundAt(m.dir, files, k);
    OverflowLinks(files, k);
    ChainLeaves(m.disk, env2, m.table, NextFree(files[..k]), |files[k].content|);
  }

  // Nor does it leave a sound volume.
  lemma {:induction false} NoWholeChain(t: seq<u12>, first: nat, cs: seq<nat>, j: nat)
    requires 2 <= first && first + j <= 2848 && IsChain(t, 2849, cs) && cs[0] == first
    requires forall x :: first <= x < 2849 ==> At(t, x) == x + 1
    ensures j + 1 < |cs| && cs[j + 1] == first + j + 1
    decreases j
  {
    if j > 0 {
      NoWholeChain(t, first, cs, j - 1);
    }
  }

  lemma {:induction false} OverflowIsUnsound(v: Volume, files: seq<File>, k: nat, chains: seq<seq<nat>>)
    requires Layable(files) && NamesOk(files) && v.g == FLOPPY && v.table == TableOf(files) && v.dir == DirOf(files)
    requires k < |files| && NextFree(files[..k]) <= 2848 && NextFree(files[..k + 1]) > 2849
    ensures !OwnedBy(v, chains)
  {
    hide TableOf, DirOf, NextFree;
    FloppyGeometry();
    if OwnedBy(v, chains) {
      FoundAt(v.dir, files, k);
      OverflowLinks(files, k);
      OwnedChain(v, chains, k);
      NoWholeChain(v.table, NextFree(files[..k]), chains[k], 2848 - NextFree(files[..k]));
    }
  }

  lemma SyncedElsewhere(v: Volume, m: Volume)
    requires Synced(v) && m == v.(disk := m.disk) && m.disk.sectors == v.disk.sectors
    ensures Synced(m)
  {
  }

  // ---------------------------------------------------------------- by display name

  ghost predicate NamesDistinct(programs: seq<Program>) {
    && (forall i :: 0 <= i < |programs| ==> Format(programs[i].name) != KERNEL_NAME)
    && (forall i, j :: 0 <= i < j < |programs| ==> Format(programs[i].name) != Format(programs[j].name))
  }

  lemma {:induction false} AllFilesAt(files: seq<File>, programs: seq<Program>, i: nat)
    requires Accepts(files, programs) && i < |files| + |programs|
    ensures |AllFiles(files, programs)| == |files| + |programs|
    ensures AllFiles(files, programs)[i]
            == if i < |files| then files[i]
               else File(Format(programs[i - |files|].name), programs[i - |files|].content)
    ensures i >= |files| ==>
              Format(programs[i - |files|].name)[0] != FREE && Format(programs[i - |files|].name)[0] != DELETED
    decreases |programs|
  {
    hide Format, Split83, ValidName;
    if programs != [] {
      var f := File(Split83(programs[0].name), programs[0].content);
      Split83IsFormat(programs[0].name);
      AllFilesAt(files + [f], programs[1..], i);
    }
  }

  lemma {:induction false} AcceptedNames(kernel: seq<byte>, programs: seq<Program>)
    requires Accepted(kernel, programs) && NamesDistinct(programs)
    ensures NamesOk(AllFiles([File(KERNEL_NAME, kernel)], programs))
  {
    hide Format, AllFiles, Accepts;
    var first := [File(KERNEL_NAME, kernel)];
    var files := AllFiles(first, programs);
    AllFilesAt(first, programs, 0);
    forall i | 0 <= i < |files|
      ensures files[i].name[0] != FREE && files[i].name[0] != DELETED
      ensures UpperAll(files[i].name) == files[i].name
    {
      AllFilesAt(first, programs, i);
      if i > 0 { FormatIsFolded(programs[i - 1].name); }
    }
    forall i, j | 0 <= i < j < |files|
      ensures !Matches(files[i].name, files[j].name)
    {
      AllFilesAt(first, programs, i);
      AllFilesAt(first, programs, j);
    }
  }

  // Builder and driver agree: every program of an accepted build that fits entirely is found by
  // its display name on the mounted image and reads back exactly its bytes.
  lemma {:induction false} ProgramReadsBack(boot: Sector, kernel: seq<byte>, programs: seq<Program>,
                                            image: seq<byte>, i: nat, env: Env, env2: Env)
    requires Accepted(kernel, programs) && NamesDistinct(programs)
    requires var files := AllFiles([File(KERNEL_NAME, kernel)], programs);
             Layable(files) && NextFree(files) <= 2849 && ImageHolds(image, boot, files)
    requires FloppyBoot(boot) && AllDone(env)
    requires i < |programs| && programs[i].content != []
    ensures var m := Mount(DiskOf(image), env);
            && m.Mounted? && Inv(m.vol) && Synced(m.vol)
            && ReadsAs(m.vol, Format(programs[i].name), i + 1, env2, programs[i].content)
  {
    hide Format, AllFiles, Accepts, Mount, ReadsAs, DiskOf, Inv, Synced, ImageHolds, ParseBpb, BpbSupported, FloppyBoot;
    var first := [File(KERNEL_NAME, kernel)];
    var files := AllFiles(first, programs);
    AcceptedNames(kernel, programs);
    AllFilesAt(first, programs, i + 1);
    BuiltMounts(image, boot, files, env);
    PrefixGrows(files, i + 2);
    BuiltReadsBack(image, boot, files, i + 1, env, env2);
  }

  lemma {:induction false} PrefixGrows(files: seq<File>, k: nat)
    requires k <= |files|
    ensures NextFree(files[..k]) <= NextFree(files)
  {
    if k < |files| {
      NextFreeGrows(files, k);
    } else {
      assert files[..k] == files;
    }
  }

  // ---------------------------------------------------------------- when a build reads back

  // Every file but the kernel starts on the floppy, so only the last can leave it.
  lemma {:induction false} AcceptedStarts(files: seq<File>, programs: seq<Program>, k: nat)
    requires Accepts(files, programs) && |files| <= k < |files| + |programs|
    ensures |AllFiles(files, programs)| == |files| + |programs|
    ensures NextFree(AllFiles(files, programs)[..k]) <= TOTAL_CLUSTERS + 1
    decreases |programs|
  {
    hide Split83, ValidName, NextFree;
    var f := File(Split83(programs[0].name), programs[0].content);
    if k > |files| {
      AcceptedStarts(files + [f], programs[1..], k);
    } else {
      AllFilesPrefix(files + [f], programs[1..], |files| + 1);
      AllFilesPrefix(files, programs, |files|);
      assert AllFiles(files, programs)[..k] == files;
    }
  }

  lemma {:induction false} AllFilesPrefix(files: seq<File>, programs: seq<Program>, k: nat)
    requires Accepts(files, programs) && k <= |files|
    ensures |AllFiles(files, programs)| == |files| + |programs|
    ensures AllFiles(files, programs)[..k] == files[..k]
    decreases |programs|
  {
    hide Split83, ValidName, NextFree;
    if programs != [] {
      var f := File(Split83(programs[0].name), programs[0].content);
      AllFilesPrefix(files + [f], programs[1..], k);
      assert (files + [f])[..k] == files[..k];
    }
  }

  // A program of an accepted build reads back by its display name if and only if its last cluster
  // lies on the floppy, and the mounted volume is sound if and only if this holds of all.
  lemma {:induction false} ProgramReadsBackIff(boot: Sector, kernel: seq<byte>, programs: seq<Program>,
                                               image: seq<byte>, i: nat, env: Env, env2: Env)
    requires Accepted(kernel, programs) && NamesDistinct(programs)
    requires var files := AllFiles([File(KERNEL_NAME, kernel)], programs);
             Layable(files) && ImageHolds(image, boot, files)
    requires FloppyBoot(boot) && AllDone(env) && AllDone(env2)
    requires i < |programs| && programs[i].content != []
    ensures var m, files := Mount(DiskOf(image), env), AllFiles([File(KERNEL_NAME, kernel)], programs);
            && m.Mounted? && Synced(m.vol) && |files| == |programs| + 1
            && (ReadsAs(m.vol, Format(programs[i].name), i + 1, env2, programs[i].content) <==>
                  NextFree(files[..i + 2]) <= 2849)
            && (Inv(m.vol) <==> NextFree(files) <= 2849)
  {
    hide Format, AllFiles, Accepts, Mount, DiskOf, Synced, ImageHolds, ParseBpb, BpbSupported, FloppyBoot, NextFree,
         Layable, OwnedBy, NamesOk, Find, ReadFile, Inv;
    var first := [File(KERNEL_NAME, kernel)];
    var files := AllFiles(first, programs);
    AcceptedNames(kernel, programs);
    AllFilesAt(first, programs, i + 1);
    BuiltMounts(image, boot, files, env);
    AcceptedStarts(first, programs, i + 1);
    if NextFree(files[..i + 2]) <= 2849 {
      BuiltReadsBack(image, boot, files, i + 1, env, env2);
    } else {
      OverflowIsLost(image, boot, files, i + 1, env, env2);
    }
    ImageSize(image, boot, files);
    SoundIffFits(kernel, programs, image, Mount(DiskOf(image), env).vol);
  }

  lemma ImageSize(image: seq<byte>, boot: Sector, files: seq<File>)
    requires Layable(files) && ImageHolds(image, boot, files)
    ensures |image| == Size(IMAGE_SIZE, LbaOf(NextFree(files))) >= IMAGE_SIZE
  {
  }

  lemma {:induction false} SoundIffFits(kernel: seq<byte>, programs: seq<Program>, image: seq<byte>, v: Volume)
    requires Accepted(kernel, programs) && NamesDistinct(programs) && |image| >= IMAGE_SIZE
    requires var files := AllFiles([File(KERNEL_NAME, kernel)], programs);
             Layable(files) && v == VolumeOf(image, files).(disk := v.disk) && v.Formed()
    ensures Inv(v) <==> NextFree(AllFiles([File(KERNEL_NAME, kernel)], programs)) <= 2849
  {
    hide Format, AllFiles, Accepts, DiskOf, NextFree, OwnedBy, NamesOk, TableOf, DirOf;
    var first := [File(KERNEL_NAME, kernel)];
    var files := AllFiles(first, programs);
    AcceptedNames(kernel, programs);
    KernelFits(kernel);
    if programs == [] {
      KernelAlone(kernel);
    }
    if NextFree(files) <= 2849 {
      BuiltIsOwned(image, files);
      DiskDoesNotMatter(VolumeOf(image, files), v, ChainsOf(files));
    } else {
      AcceptedStarts(first, programs, |programs|);
      assert files[..|programs| + 1] == files;
      forall chains
        ensures !OwnedBy(v, chains)
      {
        OverflowIsUnsound(v, files, |programs|, chains);
      }
    }
  }

  lemma KernelAlone(kernel: seq<byte>)
    requires Accepts([File(KERNEL_NAME, kernel)], [])
    ensures AllFiles([File(KERNEL_NAME, kernel)], []) == [File(KERNEL_NAME, kernel)]
  {
  }

  lemma DiskDoesNotMatter(v: Volume, v2: Volume, chains: seq<seq<nat>>)
    requires OwnedBy(v, chains) && v2 == v.(disk := v2.disk) && v2.Formed()
    ensures OwnedBy(v2, chains)
  {
    hide Owned, DirectoryOk;
  }

  // For instance, a kernel that leaves one cluster and a program of two are accepted, and the
  // program is lost.
  const BIG_KERNEL: seq<byte> := Zeros(512 * 2846)
  const TWO_CLUSTERS: Program := Program([0x41], Zeros(513))

  lemma {:induction false} OverflowExample()
    ensures Accepted(BIG_KERNEL, [TWO_CLUSTERS]) && NamesDistinct([TWO_CLUSTERS])
    ensures NextFree(AllFiles([File(KERNEL_NAME, BIG_KERNEL)], [TWO_CLUSTERS])) == 2850
  {
    hide Split83, Format;
    var first, f := [File(KERNEL_NAME, BIG_KERNEL)], File(Split83(TWO_CLUSTERS.name), TWO_CLUSTERS.content);
    KernelFits(BIG_KERNEL);
    assert [TWO_CLUSTERS][1..] == [];
    LastCluster(first, f);
    assert AllFiles(first + [f], []) == first + [f];
    assert Format([0x41])[0] == 0x41 by { FormatOfLetter(); }
  }

  lemma FormatOfLetter()
    ensures Format([0x41])[0] == 0x41
  {
    assert DotIndex([0x41]) == 1;
  }
}

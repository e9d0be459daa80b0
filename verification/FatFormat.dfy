/**
 The formats on the disk, byte by byte, and what the driver makes of them: the parameter block of
 the boot sector, the areas of the volume, table entries, names and directory records.
 */
module FatFormat {
  import opened Bytes
  import opened Common
  import opened FatTable
  import opened FatChains
  import opened FatDirectory
  import opened FatVolume
  import opened FatDisk

  // ---------------------------------------------------------------- the boot sector

  // The fields the driver does not use.
  datatype Drive = Drive(media: byte, sectorsPerTrack: u16, heads: u16, hidden: u32)

  // Bytes 11 to 35: sector size, sectors per cluster, reserved sectors, FAT copies, root entries,
  // sectors on the volume, media, sectors of a FAT, and, where the first field for it is 0, the
  // sectors on the volume in 32 bits.
  function BpbBytes(reserved: u16, roots: u16, total16: u16, fat: u16, total32: u32, x: Drive): (b: seq<byte>)
    ensures |b| == 25
  {
    Le16Bytes(512) + [1] + Le16Bytes(reserved) + [2] + Le16Bytes(roots) + Le16Bytes(total16) + [x.media]
    + Le16Bytes(fat) + Le16Bytes(x.sectorsPerTrack) + Le16Bytes(x.heads) + Le32Bytes(x.hidden) + Le32Bytes(total32)
  }

  lemma {:induction false} Field16(boot: Sector, b: seq<byte>, o: nat, w: u16)
    requires |b| == 25 && boot[11..36] == b && o + 2 <= 25 && b[o..o + 2] == Le16Bytes(w)
    ensures Le16(boot, 11 + o) == w
  {
    hide Le16Bytes;
    assert boot[11 + o] == b[o] && boot[11 + o + 1] == b[o + 1];
    assert b[o] == Le16Bytes(w)[0] && b[o + 1] == Le16Bytes(w)[1];
  }

  lemma {:induction false} Field32(boot: Sector, b: seq<byte>, o: nat, w: u32)
    requires |b| == 25 && boot[11..36] == b && o + 4 <= 25 && b[o..o + 4] == Le32Bytes(w)
    ensures Le32(boot, 11 + o) == w
  {
    hide Le32Bytes;
    var v := Le32Bytes(w);
    assert boot[11 + o] == b[o] == v[0] && boot[11 + o + 1] == b[o + 1] == v[1];
    assert boot[11 + o + 2] == b[o + 2] == v[2] && boot[11 + o + 3] == b[o + 3] == v[3];
  }

  // What a formatter writes is what the driver mounts.
  lemma {:induction false} BpbReads(boot: Sector, reserved: u16, roots: u16, total16: u16, fat: u16, total32: u32,
                                    x: Drive)
    requires boot[11..36] == BpbBytes(reserved, roots, total16, fat, total32, x)
    ensures BpbSupported(boot)
    ensures ParseBpb(boot) == Geometry(reserved, fat, roots, if total16 != 0 then total16 else total32)
  {
    hide Le16Bytes, Le32Bytes, Le16, Le32;
    var b := BpbBytes(reserved, roots, total16, fat, total32, x);
    BpbFields(b, reserved, roots, total16, fat, total32, x);
    Field16(boot, b, 0, 512);
    Field16(boot, b, 3, reserved);
    Field16(boot, b, 6, roots);
    Field16(boot, b, 8, total16);
    Field16(boot, b, 11, fat);
    Field32(boot, b, 21, total32);
    assert boot[13] == b[2] && boot[16] == b[5];
  }

  lemma {:induction false} BpbFields(b: seq<byte>, reserved: u16, roots: u16, total16: u16, fat: u16, total32: u32,
                                     x: Drive)
    requires b == BpbBytes(reserved, roots, total16, fat, total32, x)
    ensures b[0..2] == Le16Bytes(512) && b[2] == 1 && b[3..5] == Le16Bytes(reserved) && b[5] == 2
    ensures b[6..8] == Le16Bytes(roots) && b[8..10] == Le16Bytes(total16) && b[11..13] == Le16Bytes(fat)
    ensures b[21..25] == Le32Bytes(total32)
  {
    hide Le16Bytes, Le32Bytes;
  }

  // Only volumes with 512-byte sectors, one sector to a cluster and two FAT copies are mounted.
  lemma SupportedIff(boot: Sector)
    ensures BpbSupported(boot) <==> boot[11] == 0 && boot[12] == 2 && boot[13] == 1 && boot[16] == 2
  {
  }

  // The block in the shipped boot sector, whatever its media byte.
  predicate FloppyBoot(boot: Sector) {
    boot[11..21] == [0, 2, 1, 1, 0, 2, 224, 0, 0x40, 0x0B] && boot[22..24] == [9, 0]
  }

  lemma {:induction false} FloppyBootReads(boot: Sector)
    requires FloppyBoot(boot)
    ensures BpbSupported(boot) && ParseBpb(boot) == Geometry(1, 9, 224, 2880)
  {
    var a, b := boot[11..21], boot[22..24];
    assert boot[11] == a[0] && boot[12] == a[1] && boot[13] == a[2] && boot[14] == a[3] && boot[15] == a[4];
    assert boot[16] == a[5] && boot[17] == a[6] && boot[18] == a[7] && boot[19] == a[8] && boot[20] == a[9];
    assert boot[22] == b[0] && boot[23] == b[1];
  }

  // ---------------------------------------------------------------- the areas

  // Boot area, two FAT copies, root directory and clusters follow each other.
  lemma {:induction false} Areas(g: Geometry)
    requires g.Valid()
    ensures g.FatStart(0) == g.reserved && g.FatStart(1) == g.FatStart(0) + g.fatSectors
    ensures g.RootStart() == g.FatStart(1) + g.fatSectors
    ensures g.DataStart() == g.RootStart() + g.rootEntries / 16
    ensures g.Lba(2) == g.DataStart() && forall c :: 2 <= c ==> g.Lba(c + 1) == g.Lba(c) + 1
  {
    var k := g.rootEntries / 16;
    assert g.rootEntries * 32 == 512 * k;
  }

  // A cluster number is legal exactly when its sector is on the volume and it is no mark.
  lemma LegalCluster(g: Geometry, c: nat)
    requires g.Valid() && 2 <= c
    ensures c < g.MaxCluster() <==> g.Lba(c) < g.totalSectors && c < 0xFEF
  {
  }

  // Three bytes hold two entries.
  lemma {:induction false} ThreeBytes(t: seq<byte>, k: nat)
    requires 3 * k + 3 <= |t|
    ensures 2 * k + 1 < Capacity(|t|)
    ensures Unpack(t)[2 * k] == t[3 * k] as int + 0x100 * (t[3 * k + 1] as int % 16)
    ensures Unpack(t)[2 * k + 1] == t[3 * k + 1] as int / 16 + 16 * t[3 * k + 2] as int
  {
    assert Offset(2 * k) == 3 * k && Offset(2 * k + 1) == 3 * k + 1;
  }

  // ---------------------------------------------------------------- names

  // `small` and `capital` are the same letter in the two cases.
  predicate OneLetter(small: byte, capital: byte) {
    'a' as int <= small <= 'z' as int && small - 'a' as int == capital - 'A' as int
  }

  // Small letters become capitals, everything else stays.
  lemma UpperIs(c: byte)
    ensures 'a' as int <= c <= 'z' as int ==> OneLetter(c, Upper(c))
    ensures !('a' as int <= c <= 'z' as int) ==> Upper(c) == c
  {
  }

  lemma {:induction false} FirstDot(base: CString, rest: CString)
    requires DOT !in base
    ensures DotIndex(base) == |base| && DotIndex(base + [DOT] + rest) == |base|
    decreases |base|
  {
    if base != [] {
      FirstDot(base[1..], rest);
      assert (base + [DOT] + rest)[1..] == base[1..] + [DOT] + rest;
    } else {
      assert base + [DOT] + rest == [DOT] + rest;
    }
  }

  // `f` holds `s` in capitals, cut or filled with spaces.
  ghost predicate Holds83(f: seq<byte>, s: seq<byte>) {
    forall i :: 0 <= i < |f| ==> f[i] == if i < |s| then Upper(s[i]) else 0x20
  }

  // The stored form: eight bytes for what stands before the first dot, three for what stands
  // behind it.
  lemma {:induction false} FormatOf(base: CString, ext: CString)
    requires DOT !in base
    ensures 0 !in base + [DOT] + ext
    ensures var f := Format(base + [DOT] + ext); Holds83(f[..8], base) && Holds83(f[8..], ext)
    ensures var f := Format(base); Holds83(f[..8], base) && Holds83(f[8..], [])
  {
    FormatParts(base, ext);
    var f := Format(base + [DOT] + ext);
    assert f[..8] == Field(base, 8) && f[8..] == Field(ext, 3);
    FirstDot(base, []);
    assert base[..|base|] == base;
    var g := Format(base);
    assert g[..8] == Field(base, 8) && g[8..] == Field([], 3);
  }

  lemma {:induction false} FormatParts(base: CString, ext: CString)
    requires DOT !in base
    ensures 0 !in base + [DOT] + ext && Format(base + [DOT] + ext) == Field(base, 8) + Field(ext, 3)
  {
    var name: CString := base + [DOT] + ext;
    FirstDot(base, ext);
    assert name[..|base|] == base && name[|base| + 1..] == ext;
  }

  // So a name longer than 8.3 stands for its shortened form.
  lemma {:induction false} LongNames(base: CString, ext: CString)
    requires DOT !in base && |base| >= 8 && |ext| >= 3
    ensures 0 !in base[..8] + [DOT] + ext[..3] && 0 !in base + [DOT] + ext
    ensures Format(base + [DOT] + ext) == Format(base[..8] + [DOT] + ext[..3])
  {
    FormatParts(base, ext);
    FormatParts(base[..8], ext[..3]);
    assert Field(base, 8) == Field(base[..8], 8) && Field(ext, 3) == Field(ext[..3], 3);
  }

  // Names match when they differ at most in the case of letters.
  lemma {:induction false} MatchesIff(a: Name, b: Name)
    ensures Matches(a, b)
            <==> forall i :: 0 <= i < 11 ==> a[i] == b[i] || OneLetter(a[i], b[i]) || OneLetter(b[i], a[i])
  {
    forall i | 0 <= i < 11
      ensures UpperAll(a)[i] == UpperAll(b)[i]
              <==> a[i] == b[i] || OneLetter(a[i], b[i]) || OneLetter(b[i], a[i])
    {
    }
  }

  // ---------------------------------------------------------------- directory records

  // Name, attribute, first cluster and size of a record, by their offsets.
  lemma {:induction false} RecordOf(e: Dirent, b: seq<byte>)
    requires e.Valid() && b == DirentBytes(e)
    ensures b[..11] == e.name && b[11] == e.attr && b[12..26] == e.middle
    ensures b[26] as int + 0x100 * b[27] as int == e.first
    ensures b[28] as int + 0x100 * b[29] as int + 0x1_0000 * b[30] as int + 0x100_0000 * b[31] as int == e.size
  {
    var f, s := Le16Bytes(e.first), Le32Bytes(e.size);
    assert b[26] == f[0] && b[27] == f[1];
    assert b[28] == s[0] && b[29] == s[1] && b[30] == s[2] && b[31] == s[3];
  }

  // A record is in use unless it starts with 0x00 or 0xE5, or carries attribute 0x0F.
  lemma LiveRecord(e: Dirent)
    ensures e.Live() <==> e.name[0] != 0x00 && e.name[0] != 0xE5 && e.attr != 0x0F
    ensures e.Vacant() <==> e.name[0] == 0x00 || e.name[0] == 0xE5
  {
  }

  // An empty directory in cluster `c`: "." with this cluster, ".." with that of the root, 0, and
  // nothing else.
  ghost predicate EmptyDir(s: Sector, c: u16) {
    && ParseDirent(s[0..32]) == Dirent([0x2E] + seq(10, _ => 0x20), 0x10, Zeros(14), c, 0)
    && ParseDirent(s[32..64]) == Dirent([0x2E, 0x2E] + seq(9, _ => 0x20), 0x10, Zeros(14), 0, 0)
    && forall x :: 64 <= x < 512 ==> s[x] == 0
  }

  lemma {:induction false} DirSector(c: u16)
    ensures EmptyDir(DirBody(c), c)
  {
    hide DirentBytes, ParseDirent;
    var one, two := Dirent(DOT_NAME, ATTR_DIR, Zeros(14), c, 0), Dirent(DOTDOT_NAME, ATTR_DIR, Zeros(14), 0, 0);
    var s := DirBody(c);
    assert s[0..32] == DirentBytes(one) && s[32..64] == DirentBytes(two);
    DirentRoundTrip(one);
    DirentRoundTrip(two);
    DotNames();
  }

  lemma DotNames()
    ensures DOT_NAME == [0x2E] + seq(10, _ => 0x20) && DOTDOT_NAME == [0x2E, 0x2E] + seq(9, _ => 0x20)
  {
  }
}

/**
 Executables as a linker writes them, byte by byte, and what the loader makes of them.
 */
module ElfFormat {
  import opened Bytes
  import opened Common
  import opened PageTables
  import opened Elf
  import opened Loader

  // ---------------------------------------------------------------- powers of two

  function Pow2(k: nat): (n: nat)
    ensures n > 0
  {
    if k == 0 then 1 else 2 * Pow2(k - 1)
  }

  lemma Multiple(n: int, d: int)
    requires n > 0 && -n < n * d < n
    ensures d == 0
  {
  }

  lemma {:induction false} Remainder(x: nat, n: nat, q: nat, r: nat)
    requires x == n * q + r && r < n
    ensures x % n == r && x / n == q
  {
    var q2, r2 := x / n, x % n;
    assert x == n * q2 + r2;
    assert n * (q - q2) == n * q - n * q2;
    Multiple(n, q - q2);
  }

  // Halving commutes with the remainder.
  lemma {:induction false} HalfRemainder(x: nat, p: nat)
    requires p > 0
    ensures x % (2 * p) == x % 2 + 2 * (x / 2 % p)
  {
    var h, b := x / 2, x % 2;
    var q, r := h / p, h % p;
    assert h == p * q + r;
    assert x == 2 * p * q + (2 * r + b);
    Remainder(x, 2 * p, q, 2 * r + b);
  }

  // Masking with 2^k - 1 is the remainder by 2^k.
  lemma {:induction false} MaskIsRemainder(x: nat, k: nat)
    ensures And(x, Pow2(k) - 1) == x % Pow2(k)
    decreases k
  {
    if k > 0 {
      var p := Pow2(k - 1);
      HalfRemainder(x, p);
      MaskIsRemainder(x / 2, k - 1);
      assert (2 * p - 1) / 2 == p - 1 && (2 * p - 1) % 2 == 1;
      assert x == 0 ==> x % (2 * p) == 0;
    }
  }

  lemma {:induction false} AndSelf(x: nat)
    ensures And(x, x) == x
  {
    if x > 0 {
      AndSelf(x / 2);
    }
  }

  ghost predicate IsPower(a: nat) {
    exists k: nat :: a == Pow2(k)
  }

  // The bit test a & (a - 1) singles out the powers of two.
  lemma {:induction false} PowerIff(a: nat)
    requires a > 0
    ensures And(a, a - 1) == 0 <==> IsPower(a)
    decreases a
  {
    var h := a / 2;
    if a == 1 {
      assert a == Pow2(0);
    } else if a % 2 == 1 {
      AndSelf(h);
      assert (a - 1) / 2 == h;
      OddIsNoPower(a);
    } else {
      assert (a - 1) / 2 == h - 1 && a == 2 * h;
      PowerIff(h);
      if IsPower(h) {
        var k: nat :| h == Pow2(k);
        assert a == Pow2(k + 1);
      }
      if IsPower(a) {
        var k: nat :| a == Pow2(k);
        assert h == Pow2(k - 1);
      }
    }
  }

  lemma OddIsNoPower(a: nat)
    requires a > 1 && a % 2 == 1
    ensures !IsPower(a)
  {
  }

  // ---------------------------------------------------------------- headers as bytes

  // The fields the loader ignores.
  datatype Ignored = Ignored(pad: seq<byte>, shoff: u32, flags: u32, tail: seq<byte>) {
    predicate Valid() { |pad| == 10 && |tail| == 6 }
  }

  // The executable header: identification, type EXEC, machine 386, version 1, entry point, place
  // of the program headers, header size, size and number of program headers.
  function HeaderBytes(entry: u32, phoff: u32, ehsize: u16, entsize: u16, phnum: u16, x: Ignored): (b: seq<byte>)
    requires x.Valid()
    ensures |b| == 52
  {
    [0x7F, 0x45, 0x4C, 0x46, 1, 1] + x.pad + Le16Bytes(2) + Le16Bytes(3) + Le32Bytes(1) + Le32Bytes(entry)
    + Le32Bytes(phoff) + Le32Bytes(x.shoff) + Le32Bytes(x.flags) + Le16Bytes(ehsize) + Le16Bytes(entsize)
    + Le16Bytes(phnum) + x.tail
  }

  // A program header: type, offset, virtual and physical address, sizes in file and memory, flags,
  // alignment.
  function PhdrBytes(ph: Phdr, paddr: u32): (b: seq<byte>)
    ensures |b| == 32
  {
    Le32Bytes(ph.kind) + Le32Bytes(ph.offset) + Le32Bytes(ph.vaddr) + Le32Bytes(paddr)
    + Le32Bytes(ph.filesz) + Le32Bytes(ph.memsz) + Le32Bytes(ph.flags) + Le32Bytes(ph.align)
  }

  lemma {:induction false} Word32(s: seq<byte>, o: nat, w: u32)
    requires o + 4 <= |s| && s[o..o + 4] == Le32Bytes(w)
    ensures Le32(s, o) == w
  {
    hide Le32Bytes;
    var b := s[o..o + 4];
    assert b[0] == s[o] && b[1] == s[o + 1] && b[2] == s[o + 2] && b[3] == s[o + 3];
  }

  lemma {:induction false} Word16(s: seq<byte>, o: nat, w: u16)
    requires o + 2 <= |s| && s[o..o + 2] == Le16Bytes(w)
    ensures Le16(s, o) == w
  {
    hide Le16Bytes;
    var b := s[o..o + 2];
    assert b[0] == s[o] && b[1] == s[o + 1];
  }

  lemma {:induction false} SubSlice(s: seq<byte>, at: nat, b: seq<byte>, o: nat, n: nat)
    requires at + |b| <= |s| && s[at..at + |b|] == b && o + n <= |b|
    ensures s[at + o..at + o + n] == b[o..o + n]
  {
    var u, v := s[at + o..at + o + n], b[o..o + n];
    forall k | 0 <= k < n
      ensures u[k] == v[k]
    {
      assert s[at..at + |b|][o + k] == s[at + (o + k)];
    }
  }

  // What is written as a program header is read as one, wherever it stands.
  lemma {:induction false} PhdrReads(file: seq<byte>, off: nat, ph: Phdr, paddr: u32)
    requires off + 32 <= |file| && file[off..off + 32] == PhdrBytes(ph, paddr)
    ensures PhdrAt(file, off) == ph
  {
    hide Le32Bytes, Le32;
    var b := PhdrBytes(ph, paddr);
    assert b[0..4] == Le32Bytes(ph.kind) && b[4..8] == Le32Bytes(ph.offset) && b[8..12] == Le32Bytes(ph.vaddr);
    assert b[16..20] == Le32Bytes(ph.filesz) && b[20..24] == Le32Bytes(ph.memsz);
    assert b[24..28] == Le32Bytes(ph.flags) && b[28..32] == Le32Bytes(ph.align);
    PhdrField(file, off, b, 0, ph.kind);
    PhdrField(file, off, b, 4, ph.offset);
    PhdrField(file, off, b, 8, ph.vaddr);
    PhdrField(file, off, b, 16, ph.filesz);
    PhdrField(file, off, b, 20, ph.memsz);
    PhdrField(file, off, b, 24, ph.flags);
    PhdrField(file, off, b, 28, ph.align);
  }

  lemma {:induction false} PhdrField(file: seq<byte>, off: nat, b: seq<byte>, o: nat, w: u32)
    requires off + |b| <= |file| && file[off..off + |b|] == b && o + 4 <= |b| && b[o..o + 4] == Le32Bytes(w)
    ensures Le32(file, off + o) == w
  {
    hide Le32Bytes, Le32;
    SubSlice(file, off, b, o, 4);
    Word32(file, off + o, w);
  }

  lemma {:induction false} HeaderFields(b: seq<byte>, entry: u32, phoff: u32, ehsize: u16, entsize: u16, phnum: u16,
                                        x: Ignored)
    requires x.Valid() && b == HeaderBytes(entry, phoff, ehsize, entsize, phnum, x)
    ensures b[..6] == [0x7F, 0x45, 0x4C, 0x46, 1, 1]
    ensures b[16..18] == Le16Bytes(2) && b[18..20] == Le16Bytes(3) && b[20..24] == Le32Bytes(1)
    ensures b[24..28] == Le32Bytes(entry) && b[28..32] == Le32Bytes(phoff) && b[40..42] == Le16Bytes(ehsize)
    ensures b[42..44] == Le16Bytes(entsize) && b[44..46] == Le16Bytes(phnum)
  {
    hide Le32Bytes, Le16Bytes;
  }

  // ---------------------------------------------------------------- a file laid out by a linker

  datatype Layout = Layout(entry: u32, phoff: u32, ehsize: u16, entsize: u16, phs: seq<Phdr>)

  // The file starts with the header and has the program headers where it says.
  ghost predicate LaidOut(file: seq<byte>, l: Layout) {
    && 52 <= |file| < TWO32 && 0 < |l.phs| < 0x1_0000 && l.ehsize >= 52 && l.entsize >= 32
    && l.phoff + |l.phs| * l.entsize <= |file|
    && (exists x: Ignored :: x.Valid() && file[..52] == HeaderBytes(l.entry, l.phoff, l.ehsize, l.entsize, |l.phs|, x))
    && forall i :: 0 <= i < |l.phs| ==> PhdrWritten(file, l, i)
  }

  ghost predicate PhdrWritten(file: seq<byte>, l: Layout, i: nat)
    requires i < |l.phs|
  {
    var off := l.phoff + i * l.entsize;
    off + 32 <= |file| && exists paddr: u32 :: file[off..off + 32] == PhdrBytes(l.phs[i], paddr)
  }

  // The header says what was written into it.
  lemma {:induction false} HeaderReads(file: seq<byte>, l: Layout)
    requires LaidOut(file, l)
    ensures |file| < TWO32 && HeaderOk(file) && Entry(file) == l.entry && PhNum(file) == |l.phs|
    ensures PhOff(file) == l.phoff && PhEntSize(file) == l.entsize
  {
    hide Le32Bytes, Le16Bytes, Le16, Le32, HeaderBytes, PhdrWritten;
    var x: Ignored :| x.Valid() && file[..52] == HeaderBytes(l.entry, l.phoff, l.ehsize, l.entsize, |l.phs|, x);
    var b := file[..52];
    HeaderFields(b, l.entry, l.phoff, l.ehsize, l.entsize, |l.phs|, x);
    assert file[..6] == b[..6];
    HeaderField16(file, 16, 2);
    HeaderField16(file, 18, 3);
    HeaderField32(file, 20, 1);
    HeaderField32(file, 24, l.entry);
    HeaderField32(file, 28, l.phoff);
    HeaderField16(file, 40, l.ehsize);
    HeaderField16(file, 42, l.entsize);
    HeaderField16(file, 44, |l.phs|);
  }

  lemma {:induction false} HeaderField16(file: seq<byte>, o: nat, w: u16)
    requires |file| >= 52 && o + 2 <= 52 && file[..52][o..o + 2] == Le16Bytes(w)
    ensures Le16(file, o) == w
  {
    hide Le16Bytes, Le16;
    assert file[..52][o..o + 2] == file[o..o + 2];
    Word16(file, o, w);
  }

  lemma {:induction false} HeaderField32(file: seq<byte>, o: nat, w: u32)
    requires |file| >= 52 && o + 4 <= 52 && file[..52][o..o + 4] == Le32Bytes(w)
    ensures Le32(file, o) == w
  {
    hide Le32Bytes, Le32;
    assert file[..52][o..o + 4] == file[o..o + 4];
    Word32(file, o, w);
  }

  // So does every program header.
  lemma {:induction false} LayoutReads(file: seq<byte>, l: Layout, i: nat)
    requires LaidOut(file, l) && i < |l.phs|
    ensures |file| < TWO32 && HeaderOk(file) && i < PhNum(file) && Ph(file, i) == l.phs[i]
  {
    hide HeaderOk, Le16, Le32, PhdrAt, PhdrBytes, HeaderBytes;
    HeaderReads(file, l);
    assert PhdrWritten(file, l, i);
    var off := l.phoff + i * l.entsize;
    var paddr: u32 :| file[off..off + 32] == PhdrBytes(l.phs[i], paddr);
    PhdrReads(file, off, l.phs[i], paddr);
    HeadersReadable(file, i);
  }

  // Conversely, every file with an acceptable header is laid out like that.
  function LayoutOf(file: seq<byte>): (l: Layout)
    requires |file| < TWO32 && HeaderOk(file)
  {
    Layout(Entry(file), PhOff(file), Le16(file, 40), PhEntSize(file),
           seq(PhNum(file), i requires 0 <= i < PhNum(file) => Ph(file, i)))
  }

  lemma {:induction false} AcceptedIsLaidOut(file: seq<byte>)
    requires |file| < TWO32 && HeaderOk(file)
    ensures LaidOut(file, LayoutOf(file))
  {
    hide Le32Bytes, Le16Bytes, Le16, Le32, HeaderBytes, PhdrBytes, PhdrAt;
    var l := LayoutOf(file);
    var x := Ignored(file[6..16], Le32(file, 32), Le32(file, 36), file[46..52]);
    HeaderIs(file, x);
    forall i | 0 <= i < |l.phs|
      ensures PhdrWritten(file, l, i)
    {
      var off := l.phoff + i * l.entsize;
      PhIs(file, i, off);
      PhdrIs(file, off);
      assert file[off..off + 32] == PhdrBytes(l.phs[i], Le32(file, off + 12));
    }
  }

  lemma {:induction false} PhIs(file: seq<byte>, i: nat, off: nat)
    requires |file| < TWO32 && HeaderOk(file) && i < PhNum(file) && off == PhOff(file) + i * PhEntSize(file)
    ensures off + 32 <= |file| && Ph(file, i) == PhdrAt(file, off)
  {
    hide Le16, Le32, PhdrAt;
    MulSteps(i, PhNum(file), PhEntSize(file));
    HeadersReadable(file, i);
  }

  lemma {:induction false} PhdrIs(file: seq<byte>, off: nat)
    requires off + 32 <= |file|
    ensures file[off..off + 32] == PhdrBytes(PhdrAt(file, off), Le32(file, off + 12))
  {
    hide Le32Bytes, Le32;
    Le32RoundTrip(file, off);
    Le32RoundTrip(file, off + 4);
    Le32RoundTrip(file, off + 8);
    Le32RoundTrip(file, off + 12);
    Le32RoundTrip(file, off + 16);
    Le32RoundTrip(file, off + 20);
    Le32RoundTrip(file, off + 24);
    Le32RoundTrip(file, off + 28);
    assert file[off..off + 32] == file[off..off + 4] + file[off + 4..off + 8] + file[off + 8..off + 12]
                                  + file[off + 12..off + 16] + file[off + 16..off + 20] + file[off + 20..off + 24]
                                  + file[off + 24..off + 28] + file[off + 28..off + 32];
  }

  lemma {:induction false} HeaderIs(file: seq<byte>, x: Ignored)
    requires |file| < TWO32 && HeaderOk(file)
    requires x == Ignored(file[6..16], Le32(file, 32), Le32(file, 36), file[46..52])
    ensures x.Valid()
    ensures file[..52] == HeaderBytes(Entry(file), PhOff(file), Le16(file, 40), PhEntSize(file), PhNum(file), x)
  {
    hide Le32Bytes, Le16Bytes, Le16, Le32;
    Le16RoundTrip(file, 16);
    Le16RoundTrip(file, 18);
    Le32RoundTrip(file, 20);
    Le32RoundTrip(file, 24);
    Le32RoundTrip(file, 28);
    Le32RoundTrip(file, 32);
    Le32RoundTrip(file, 36);
    Le16RoundTrip(file, 40);
    Le16RoundTrip(file, 42);
    Le16RoundTrip(file, 44);
    assert file[..6] == [0x7F, 0x45, 0x4C, 0x46, 1, 1];
    HeaderCut(file);
  }

  lemma {:induction false} HeaderCut(file: seq<byte>)
    requires |file| >= 52
    ensures file[..52] == file[..6] + file[6..16] + file[16..18] + file[18..20] + file[20..24] + file[24..28]
                          + file[28..32] + file[32..36] + file[36..40] + file[40..42] + file[42..44] + file[44..46]
                          + file[46..52]
  {
    assert file[..28] == file[..6] + file[6..16] + file[16..18] + file[18..20] + file[20..24] + file[24..28];
    assert file[28..52] == file[28..32] + file[32..36] + file[36..40] + file[40..42] + file[42..44] + file[44..46]
                           + file[46..52];
    assert file[..52] == file[..28] + file[28..52];
  }

  // ---------------------------------------------------------------- which files are accepted

  // The flag bits: 1 execute, 2 write, 4 read.
  lemma FlagBits(ph: Phdr, x: bool, w: bool, rest: nat)
    requires ph.flags == (if x then 1 else 0) + (if w then 2 else 0) + 4 * rest
    ensures ph.MayExecute() == x && ph.MayWrite() == w
  {
  }

  // A segment that is to be loaded: its bytes are in the file, its addresses in user space and
  // clear of the 16 KiB of stack, and file offset and address agree modulo an alignment that is a
  // power of two.
  ghost predicate Sound(ph: Phdr, size: nat) {
    && ph.filesz <= ph.memsz && ph.offset + ph.filesz <= size
    && 0x1000 <= ph.vaddr && ph.vaddr + ph.memsz <= 0xC000_0000
    && (ph.vaddr >= 0xBFC0_0000 || ph.vaddr + ph.memsz <= 0xBFBF_C000)
    && (ph.align <= 1 || (IsPower(ph.align) && ph.offset % ph.align == ph.vaddr % ph.align))
  }

  lemma {:induction false} AlignIff(ph: Phdr)
    ensures AlignOk(ph) <==> ph.align <= 1 || (IsPower(ph.align) && ph.offset % ph.align == ph.vaddr % ph.align)
  {
    if ph.align > 1 {
      PowerIff(ph.align);
      if IsPower(ph.align) {
        var k: nat :| ph.align == Pow2(k);
        MaskIsRemainder(ph.offset, k);
        MaskIsRemainder(ph.vaddr, k);
      }
    }
  }

  lemma {:induction false} ValidIff(ph: Phdr, size: u32)
    requires ph.memsz > 0
    ensures ValidSegment(ph, size) <==> Sound(ph, size)
  {
    hide AlignOk, IsPower;
    AlignIff(ph);
  }

  // An address lies in the segment.
  predicate Inside(ph: Phdr, a: int) { ph.vaddr <= a < ph.vaddr + ph.memsz }

  ghost predicate SharePage(a: Phdr, b: Phdr) {
    exists x: nat, y: nat :: Inside(a, x) && Inside(b, y) && x / 4096 == y / 4096
  }

  // A page belongs to a segment exactly when one of its addresses does.
  lemma {:induction false} PageHoldsAddress(ph: Phdr, p: nat)
    requires ph.memsz > 0
    ensures InSegment(ph, p) <==> exists x: nat :: Inside(ph, x) && x / 4096 == p
  {
    if InSegment(ph, p) {
      var x: nat := if 4096 * p < ph.vaddr then ph.vaddr else 4096 * p;
      assert Inside(ph, x) && x / 4096 == p;
    }
  }

  lemma {:induction false} OverlapIff(a: Phdr, b: Phdr, size: u32)
    requires ValidSegment(a, size) && ValidSegment(b, size) && a.memsz > 0 && b.memsz > 0
    ensures Overlap(a, b) <==> SharePage(a, b)
  {
    hide ValidSegment, Overlap, InSegment, Inside;
    OverlapMeansSharedPage(a, b, size);
    if Overlap(a, b) {
      var p :| InSegment(a, p) && InSegment(b, p);
      PageHoldsAddress(a, p);
      PageHoldsAddress(b, p);
      var x: nat :| Inside(a, x) && x / 4096 == p;
      var y: nat :| Inside(b, y) && y / 4096 == p;
    }
    if SharePage(a, b) {
      var x: nat, y: nat :| Inside(a, x) && Inside(b, y) && x / 4096 == y / 4096;
      PageHoldsAddress(a, x / 4096);
      PageHoldsAddress(b, x / 4096);
    }
  }

  // A program that can be loaded.
  ghost predicate Runnable(l: Layout, size: nat) {
    && (forall i :: 0 <= i < |l.phs| && l.phs[i].Loads() ==> Sound(l.phs[i], size))
    && (forall i, j :: 0 <= j < i < |l.phs| && l.phs[i].Loads() && l.phs[j].Loads() ==>
          !SharePage(l.phs[i], l.phs[j]))
    && 0x1000 <= l.entry < 0xBFBF_C000
    && exists i :: 0 <= i < |l.phs| && l.phs[i].Loads() && l.phs[i].MayExecute() && Inside(l.phs[i], l.entry)
  }

  // The loader accepts exactly the runnable programs.
  lemma {:induction false} AcceptableIff(file: seq<byte>, l: Layout)
    requires LaidOut(file, l)
    ensures |file| < TWO32 && (Acceptable(file) <==> Runnable(l, |file|))
  {
    hide HeaderOk, Ph, Le16, Le32, ValidSegment, Overlap, Sound, SharePage, Inside;
    HeaderReads(file, l);
    forall i | 0 <= i < |l.phs|
      ensures Ph(file, i) == l.phs[i]
      ensures EntersAt(file, i) <==> l.phs[i].Loads() && l.phs[i].MayExecute() && Inside(l.phs[i], l.entry)
    {
      LayoutReads(file, l, i);
      EntersIff(file, i);
    }
    if forall i :: 0 <= i < |l.phs| && l.phs[i].Loads() ==> ValidSegment(l.phs[i], |file|) {
      forall i, j | 0 <= j < i < |l.phs| && l.phs[i].Loads() && l.phs[j].Loads()
        ensures Overlap(l.phs[i], l.phs[j]) <==> SharePage(l.phs[i], l.phs[j])
      {
        OverlapIff(l.phs[i], l.phs[j], |file|);
      }
    }
    forall i | 0 <= i < |l.phs| && l.phs[i].Loads()
      ensures ValidSegment(l.phs[i], |file|) <==> Sound(l.phs[i], |file|)
    {
      ValidIff(l.phs[i], |file|);
    }
    SegmentsIff(file, l);
  }

  lemma EntersIff(file: seq<byte>, i: nat)
    requires |file| < TWO32 && HeaderOk(file) && i < PhNum(file)
    ensures EntersAt(file, i) <==> Ph(file, i).Loads() && Ph(file, i).MayExecute() && Inside(Ph(file, i), Entry(file))
  {
    hide HeaderOk, Ph, Le16, Le32;
  }

  lemma {:induction false} SegmentsIff(file: seq<byte>, l: Layout)
    requires |file| < TWO32 && HeaderOk(file) && PhNum(file) == |l.phs|
    requires forall i :: 0 <= i < |l.phs| ==> Ph(file, i) == l.phs[i]
    ensures (forall i :: 0 <= i < |l.phs| ==> SegmentOk(file, i)) <==>
              && (forall i :: 0 <= i < |l.phs| && l.phs[i].Loads() ==> ValidSegment(l.phs[i], |file|))
              && (forall i, j :: 0 <= j < i < |l.phs| && l.phs[i].Loads() && l.phs[j].Loads() ==>
                    !Overlap(l.phs[i], l.phs[j]))
  {
    hide HeaderOk, Ph, Le16, Le32, Overlap, ValidSegment;
    forall i | 0 <= i < |l.phs|
      ensures SegmentOk(file, i) <==>
                (l.phs[i].Loads() ==>
                   && ValidSegment(l.phs[i], |file|)
                   && forall j :: 0 <= j < i && l.phs[j].Loads() ==> !Overlap(l.phs[i], l.phs[j]))
    {
      SegmentIff(file, i);
    }
  }

  lemma SegmentIff(file: seq<byte>, i: nat)
    requires |file| < TWO32 && HeaderOk(file) && i < PhNum(file)
    ensures SegmentOk(file, i) <==>
              (Ph(file, i).Loads() ==>
                 && ValidSegment(Ph(file, i), |file|)
                 && forall j :: 0 <= j < i && Ph(file, j).Loads() ==> !Overlap(Ph(file, i), Ph(file, j)))
  {
    hide HeaderOk, Ph, Le16, Le32, Overlap;
  }

  // ---------------------------------------------------------------- what a loaded program sees

  // User code finds every byte of every segment: those in the file, then zeros.
  lemma {:induction false} LoadedBytes(mem: seq<byte>, pd: nat, pages: set<nat>, next: nat, kpd: seq<u32>,
                                       file: seq<byte>, l: Layout, i: nat, k: nat)
    requires Loaded(mem, pd, pages, next, kpd, file) && LaidOut(file, l)
    requires i < |l.phs| && l.phs[i].kind == 1 && k < l.phs[i].memsz
    ensures var ph := l.phs[i];
            && |mem| == LIMIT && pd < 1024 && ph.vaddr + k < TWO32 && ph.offset + ph.filesz <= |file|
            && ReadUser(mem, pd, ph.vaddr + k) == Some(if k < ph.filesz then file[ph.offset + k] else 0)
  {
    hide HeaderOk, Ph, Le16, Le32, ReadUser, LaidOut, WellFormed, UserPagesExact, OwnFrames, SharesKernel, FramesTaken;
    LayoutReads(file, l, i);
    assert Ph(file, i).Loads();
    assert ByteLoaded(mem, pd, file, Ph(file, i), k);
  }

  // A page of a segment, for writing one that its header lets write.
  ghost predicate PageOfLayout(l: Layout, p: nat, writing: bool) {
    exists i, x: nat :: 0 <= i < |l.phs| && l.phs[i].kind == 1 && Inside(l.phs[i], x) && x / 4096 == p
                        && (writing ==> l.phs[i].MayWrite())
  }

  // It has exactly the pages its segments touch and the four below 0xBFC00000, and may write
  // exactly the latter and those of writable segments.
  lemma {:induction false} LoadedPages(mem: seq<byte>, pd: nat, pages: set<nat>, next: nat, kpd: seq<u32>,
                                       file: seq<byte>, l: Layout, p: nat)
    requires Loaded(mem, pd, pages, next, kpd, file) && LaidOut(file, l) && p < 0xC_0000
    ensures |mem| == LIMIT && pd < 1024
    ensures var m := Translate(mem, pd, p);
            && (m.Some? <==> 0xBFBFC <= p < 0xBFC00 || PageOfLayout(l, p, false))
            && (m.Some? ==> m.value.user && (m.value.writable <==> 0xBFBFC <= p < 0xBFC00 || PageOfLayout(l, p, true)))
  {
    hide HeaderOk, Ph, Le16, Le32, Translate, LaidOut, WellFormed, ImageLoaded, OwnFrames, SharesKernel, FramesTaken,
         PageOfLayout, SegmentPage;
    LayoutPage(file, l, p, false);
    LayoutPage(file, l, p, true);
  }

  lemma {:induction false} LayoutPage(file: seq<byte>, l: Layout, p: nat, writing: bool)
    requires LaidOut(file, l)
    ensures |file| < TWO32 && HeaderOk(file) && (SegmentPage(file, p, writing) <==> PageOfLayout(l, p, writing))
  {
    hide Ph, Le16, Le32, LaidOut, InSegment, Inside;
    HeaderReads(file, l);
    if SegmentPage(file, p, writing) {
      var i :| 0 <= i < PhNum(file) && Ph(file, i).Loads() && InSegment(Ph(file, i), p)
               && (writing ==> Ph(file, i).MayWrite());
      LayoutReads(file, l, i);
      PageHoldsAddress(l.phs[i], p);
      var x: nat :| Inside(l.phs[i], x) && x / 4096 == p;
    }
    if PageOfLayout(l, p, writing) {
      var i, x: nat :| 0 <= i < |l.phs| && l.phs[i].kind == 1 && Inside(l.phs[i], x) && x / 4096 == p
                       && (writing ==> l.phs[i].MayWrite());
      LayoutReads(file, l, i);
      NotEmpty(l.phs[i], x);
      PageHoldsAddress(l.phs[i], p);
      assert Ph(file, i).Loads();
    }
  }

  lemma NotEmpty(ph: Phdr, x: nat)
    requires Inside(ph, x)
    ensures ph.memsz > 0
  {
  }

  // ---------------------------------------------------------------- frames

  // The pages of the first `n` segments.
  ghost function PagesUpTo(file: seq<byte>, n: nat): (s: set<nat>)
    requires |file| < TWO32 && HeaderOk(file) && n <= PhNum(file)
  {
    set p: nat | p < USER_PAGES && OnSegment(file, n, p)
  }

  ghost predicate OnSegment(file: seq<byte>, n: nat, p: nat)
    requires |file| < TWO32 && HeaderOk(file) && n <= PhNum(file)
  {
    exists i :: 0 <= i < n && Ph(file, i).Loads() && InSegment(Ph(file, i), p)
  }

  function Interval(a: nat, b: nat): (s: set<nat>)
    requires a <= b
    ensures |s| == b - a && forall p: nat :: p in s <==> a <= p < b
    decreases b
  {
    if a == b then {} else Interval(a, b - 1) + {b - 1}
  }

  // An acceptable program takes one frame for every page of its segments.
  lemma {:induction false} FrameToEveryPage(file: seq<byte>, n: nat)
    requires |file| < TWO32 && Acceptable(file) && n <= PhNum(file)
    ensures PageCount(Loadable(file, n)) == |PagesUpTo(file, n)|
    decreases n
  {
    hide Ph, Le16, Le32, ValidSegment, Overlap, HeaderOk, PageCount, Acceptable;
    AcceptableHeader(file);
    if n == 0 {
      assert PagesUpTo(file, 0) == {};
      NoSegmentPages(file);
    } else {
      FrameToEveryPage(file, n - 1);
      OneMoreSegment(file, n - 1);
      CountGrows(file, n - 1);
    }
  }

  lemma NoSegmentPages(file: seq<byte>)
    requires |file| < TWO32 && HeaderOk(file)
    ensures PageCount(Loadable(file, 0)) == 0
  {
    hide HeaderOk;
  }

  lemma {:induction false} OneMoreSegment(file: seq<byte>, i: nat)
    requires |file| < TWO32 && Acceptable(file) && i < PhNum(file)
    ensures |PagesUpTo(file, i + 1)| ==
            |PagesUpTo(file, i)| + if Ph(file, i).kind == PT_LOAD then PageCount([Ph(file, i)]) else 0
  {
    hide Ph, Le16, Le32, ValidSegment, Overlap, HeaderOk, PageCount, FirstPage, EndPage;
    var ph := Ph(file, i);
    CountOne(ph);
    if ph.Loads() {
      assert SegmentOk(file, i);
      ValidatedRange(ph, |file|);
      forall p | p in PagesUpTo(file, i)
        ensures p !in Interval(FirstPage(ph), EndPage(ph))
      {
        var j :| 0 <= j < i && Ph(file, j).Loads() && InSegment(Ph(file, j), p);
        assert SegmentOk(file, j);
        OverlapMeansSharedPage(ph, Ph(file, j), |file|);
      }
      assert PagesUpTo(file, i + 1) == PagesUpTo(file, i) + Interval(FirstPage(ph), EndPage(ph));
    } else {
      assert PagesUpTo(file, i + 1) == PagesUpTo(file, i);
    }
  }
}

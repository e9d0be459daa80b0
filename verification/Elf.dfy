/**
 ELF32 program headers: parsing and the loader's checks, with the 32-bit arithmetic written out.
 */
module Elf {
  import opened Bytes
  import opened Common
  import opened PageTables

  const PT_LOAD: u32 := 1
  const USER_MIN: u32 := 0x1000
  const USER_MAX: u32 := 0xC000_0000
  const STACK_TOP: u32 := 0xBFC0_0000
  const STACK_PAGES: nat := 4
  const STACK_BASE: u32 := 0xBFBF_C000

  datatype Phdr = Phdr(kind: u32, offset: u32, vaddr: u32, filesz: u32, memsz: u32, flags: u32, align: u32) {
    // Occupies memory once loaded.
    predicate Loads() { kind == PT_LOAD && memsz > 0 }
    predicate MayWrite() { flags / 2 % 2 == 1 }
    predicate MayExecute() { flags % 2 == 1 }
  }

  function PhdrAt(file: seq<byte>, off: nat): (ph: Phdr)
    requires off + 32 <= |file|
  {
    Phdr(Le32(file, off), Le32(file, off + 4), Le32(file, off + 8), Le32(file, off + 16),
         Le32(file, off + 20), Le32(file, off + 24), Le32(file, off + 28))
  }

  // Fields of the executable header.
  function Entry(file: seq<byte>): u32 requires |file| >= 52 { Le32(file, 24) }
  function PhOff(file: seq<byte>): u32 requires |file| >= 52 { Le32(file, 28) }
  function PhEntSize(file: seq<byte>): u16 requires |file| >= 52 { Le16(file, 42) }
  function PhNum(file: seq<byte>): u16 requires |file| >= 52 { Le16(file, 44) }

  // elf_phdr
  function ElfPhdr(file: seq<byte>, idx: nat): (r: Option<Phdr>)
    requires 52 <= |file| < TWO32
  {
    var size := |file|;
    if idx >= PhNum(file) then None else
    var at := idx * PhEntSize(file);     // at most 65534 * 65535: no 32-bit overflow
    if PhOff(file) > size || at > size - PhOff(file) then None else
    var off := PhOff(file) + at;
    if PhEntSize(file) < 32 || 32 > size - off then None else Some(PhdrAt(file, off))
  }

  // ---------------------------------------------------------------- one segment

  // The bitwise x & y
  function And(x: nat, y: nat): (r: nat) {
    if x == 0 || y == 0 then 0 else (if x % 2 == 1 && y % 2 == 1 then 1 else 0) + 2 * And(x / 2, y / 2)
  }

  predicate AlignOk(ph: Phdr) {
    ph.align <= 1 ||
    (And(ph.align, ph.align - 1) == 0 && And(ph.offset, ph.align - 1) == And(ph.vaddr, ph.align - 1))
  }

  // elf_validate_segment returns 0
  predicate ValidSegment(ph: Phdr, filesize: u32) {
    ph.memsz == 0 ||
    (&& ph.filesz <= ph.memsz
     && ph.offset <= filesize && ph.filesz <= filesize - ph.offset
     && USER_MIN <= ph.vaddr < USER_MAX && ph.memsz <= USER_MAX - ph.vaddr
     && !(ph.vaddr < STACK_TOP && (ph.vaddr + ph.memsz) % TWO32 > STACK_BASE)
     && AlignOk(ph))
  }

  datatype Pages = Pages(first: u32, end: u32)

  // elf_segment_page_range, in 32-bit arithmetic
  function PageRange(ph: Phdr): (r: Option<Pages>) {
    var end := (ph.vaddr + ph.memsz) % TWO32;
    var pageEnd := (end + 4095) % TWO32 / 4096 * 4096;
    if ph.memsz == 0 || end < ph.vaddr || pageEnd < end then None
    else Some(Pages(ph.vaddr / 4096 * 4096, pageEnd))
  }

  // First page and number of pages of a segment.
  function FirstPage(ph: Phdr): nat { ph.vaddr / 4096 }
  function EndPage(ph: Phdr): nat { (ph.vaddr + ph.memsz + 4095) / 4096 }

  predicate InSegment(ph: Phdr, page: nat) { FirstPage(ph) <= page < EndPage(ph) }

  // A validated segment has a page range, with no wrap-around, inside the user half and clear
  // of the stack pages.
  lemma {:induction false} ValidatedRange(ph: Phdr, filesize: u32)
    requires ValidSegment(ph, filesize) && ph.memsz > 0
    ensures PageRange(ph) == Some(Pages(FirstPage(ph) * 4096, EndPage(ph) * 4096))
    ensures 1 <= FirstPage(ph) < EndPage(ph) <= USER_PAGES
    ensures EndPage(ph) <= STACK_BASE / 4096 || FirstPage(ph) >= STACK_TOP / 4096
  {
    hide AlignOk;
    var end := ph.vaddr + ph.memsz;
    assert end <= USER_MAX;
    assert (end + 4095) / 4096 * 4096 >= end by {
      assert (end + 4095) % 4096 <= 4095;
    }
  }

  // elf_segments_overlap
  predicate Overlap(a: Phdr, b: Phdr) {
    var ra, rb := PageRange(a), PageRange(b);
    ra.None? || rb.None? || (ra.value.first < rb.value.end && rb.value.first < ra.value.end)
  }

  lemma {:induction false} OverlapMeansSharedPage(a: Phdr, b: Phdr, filesize: u32)
    requires ValidSegment(a, filesize) && ValidSegment(b, filesize) && a.memsz > 0 && b.memsz > 0
    ensures Overlap(a, b) <==> exists p :: InSegment(a, p) && InSegment(b, p)
  {
    hide AlignOk, ValidSegment;
    ValidatedRange(a, filesize);
    ValidatedRange(b, filesize);
    if Overlap(a, b) {
      var p := if FirstPage(a) < FirstPage(b) then FirstPage(b) else FirstPage(a);
      assert InSegment(a, p) && InSegment(b, p);
    }
  }

  // ---------------------------------------------------------------- the first pass

  predicate HeaderOk(file: seq<byte>)
    requires |file| < TWO32
  {
    && |file| >= 52
    && file[0] == 0x7F && file[1] == 0x45 && file[2] == 0x4C && file[3] == 0x46
    && file[4] == 1 && file[5] == 1
    && Le16(file, 18) == 3 && Le16(file, 16) == 2 && Le32(file, 20) == 1
    && Le16(file, 40) >= 52 && PhEntSize(file) >= 32 && PhNum(file) != 0
    && PhOff(file) <= |file| && PhNum(file) * PhEntSize(file) <= |file| - PhOff(file)
  }

  // In a file whose header table fits, every program header can be read.
  lemma {:induction false} HeadersReadable(file: seq<byte>, i: nat)
    requires |file| < TWO32 && HeaderOk(file) && i < PhNum(file)
    ensures ElfPhdr(file, i).Some?
  {
    hide Le16, Le32, PhdrAt;
    MulSteps(i, PhNum(file), PhEntSize(file));
  }

  lemma {:induction false} MulSteps(i: nat, n: nat, e: nat)
    requires i < n
    ensures i * e + e <= n * e
    decreases n
  {
    if i < n - 1 {
      MulSteps(i, n - 1, e);
    }
  }

  function Ph(file: seq<byte>, i: nat): (ph: Phdr)
    requires |file| < TWO32 && HeaderOk(file) && i < PhNum(file)
  {
    HeadersReadable(file, i);
    ElfPhdr(file, i).value
  }

  predicate SegmentOk(file: seq<byte>, i: nat)
    requires |file| < TWO32 && HeaderOk(file) && i < PhNum(file)
  {
    var ph := Ph(file, i);
    ph.kind == PT_LOAD ==>
      && ValidSegment(ph, |file|)
      && (ph.memsz > 0 ==> forall j :: 0 <= j < i && Ph(file, j).Loads() ==> !Overlap(ph, Ph(file, j)))
  }

  // The entry point lies in this executable segment.
  predicate EntersAt(file: seq<byte>, i: nat)
    requires |file| < TWO32 && HeaderOk(file) && i < PhNum(file)
  {
    var ph := Ph(file, i);
    ph.Loads() && ph.vaddr <= Entry(file) && Entry(file) - ph.vaddr < ph.memsz && ph.MayExecute()
  }

  // The whole first pass of user_prog_exec.
  predicate Acceptable(file: seq<byte>)
    requires |file| < TWO32
  {
    && HeaderOk(file)
    && (forall i :: 0 <= i < PhNum(file) ==> SegmentOk(file, i))
    && USER_MIN <= Entry(file) < STACK_BASE
    && (exists i :: 0 <= i < PhNum(file) && EntersAt(file, i))
  }

  // The inner loop: no earlier loaded segment shares a page with number `i`.
  method ClearOfEarlier(file: seq<byte>, i: nat) returns (clear: bool)
    requires |file| < TWO32 && HeaderOk(file) && i < PhNum(file)
    ensures clear <==> forall j :: 0 <= j < i && Ph(file, j).Loads() ==> !Overlap(Ph(file, i), Ph(file, j))
  {
    hide HeaderOk, Ph, Overlap;
    for j := 0 to i
      invariant forall k :: 0 <= k < j && Ph(file, k).Loads() ==> !Overlap(Ph(file, i), Ph(file, k))
    {
      if Ph(file, j).Loads() && Overlap(Ph(file, i), Ph(file, j)) {
        return false;
      }
    }
    return true;
  }

  // One header: a loadable segment must be valid and, unless empty, clear of those before it.
  method CheckSegment(file: seq<byte>, i: nat) returns (ok: bool)
    requires |file| < TWO32 && HeaderOk(file) && i < PhNum(file)
    ensures ok <==> SegmentOk(file, i)
  {
    hide HeaderOk, Ph, ValidSegment, Overlap;
    var ph := Ph(file, i);
    if ph.kind != PT_LOAD {
      return true;
    }
    if !ValidSegment(ph, |file|) {
      return false;
    }
    if ph.memsz == 0 {
      return true;
    }
    ok := ClearOfEarlier(file, i);
  }

  // The loop over all headers: are they fine, how many load something, does one hold the entry?
  method ScanHeaders(file: seq<byte>) returns (fine: bool, loads: nat, entered: bool)
    requires |file| < TWO32 && HeaderOk(file)
    ensures fine <==> forall i :: 0 <= i < PhNum(file) ==> SegmentOk(file, i)
    ensures fine ==> (entered <==> exists i :: 0 <= i < PhNum(file) && EntersAt(file, i))
    ensures fine && loads == 0 ==> !entered
  {
    hide Ph, ValidSegment, Overlap, EntersAt, SegmentOk, Le16, Le32;
    fine, loads, entered := true, 0, false;
    for i := 0 to PhNum(file)
      invariant forall k :: 0 <= k < i ==> SegmentOk(file, k)
      invariant entered <==> exists k :: 0 <= k < i && EntersAt(file, k)
      invariant loads == 0 ==> !entered
    {
      fine := CheckSegment(file, i);
      if !fine {
        return;
      }
      EntersWhereLoaded(file, i);
      if Ph(file, i).Loads() {
        loads := loads + 1;
      }
      if EntersAt(file, i) {
        entered := true;
      }
    }
    fine := true;
  }

  method FirstPass(file: seq<byte>) returns (ok: bool)
    requires |file| < TWO32
    ensures ok <==> Acceptable(file)
  {
    hide Ph, EntersAt, SegmentOk, Le16, Le32;
    if !HeaderOk(file) {
      return false;
    }
    var fine, loads, entered := ScanHeaders(file);
    return fine && loads > 0 && USER_MIN <= Entry(file) < STACK_BASE && entered;
  }

  lemma {:induction false} EntersWhereLoaded(file: seq<byte>, i: nat)
    requires |file| < TWO32 && HeaderOk(file) && i < PhNum(file)
    ensures EntersAt(file, i) ==> Ph(file, i).Loads()
  {
  }
}

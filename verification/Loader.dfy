/**
 The program loader: frame allocator, page directory creation, mapping and copying, and what a
 loaded program reads at every address.
 */
module Loader {
  import opened Bytes
  import opened Common
  import opened PageTables
  import opened Elf

  const PMM_BASE: nat := 0x20_0000
  const WRITABLE: u32 := 2
  const USER: u32 := 4

  // ---------------------------------------------------------------- the heap oracle

  // kmalloc(8192), call by call: 0 for failure, otherwise a block below 2 MiB that overlaps no
  // other block.
  ghost predicate HeapOk(kmalloc: nat -> nat) {
    && (forall i :: kmalloc(i) != 0 ==> kmalloc(i) + 8192 <= PMM_BASE)
    && (forall i, j :: i < j && kmalloc(i) != 0 && kmalloc(j) != 0 ==>
          kmalloc(i) + 8192 <= kmalloc(j) || kmalloc(j) + 8192 <= kmalloc(i))
  }

  ghost predicate Granted(kmalloc: nat -> nat, n: nat, p: nat) {
    exists i :: 0 <= i < n && kmalloc(i) != 0 && PageUp(kmalloc(i)) == p
  }

  // The calls from number `from` to before number `to` were all answered with memory.
  ghost predicate AllGranted(kmalloc: nat -> nat, from: nat, to: int) {
    forall i :: from <= i < to ==> kmalloc(i) != 0
  }

  // The aligned page inside a new block is none of the pages inside earlier blocks.
  lemma {:induction false} GrantIsFresh(kmalloc: nat -> nat, n: nat, pages: set<nat>)
    requires HeapOk(kmalloc) && forall p :: p in pages ==> Granted(kmalloc, n, p)
    ensures FreshGrant(pages, kmalloc(n)) && PageUp(kmalloc(n)) < 1024
  {
    forall p | p in pages && kmalloc(n) != 0
      ensures p != PageUp(kmalloc(n))
    {
      var i :| 0 <= i < n && kmalloc(i) != 0 && PageUp(kmalloc(i)) == p;
      assert kmalloc(i) + 8192 <= kmalloc(n) || kmalloc(n) + 8192 <= kmalloc(i);
    }
  }

  // ---------------------------------------------------------------- the kernel's directory

  function ClearUser(w: u32): (r: u32) {
    if User(w) then w - 4 else w
  }

  // Only the user bit goes.
  lemma {:induction false} ClearUserKeeps(w: u32)
    ensures var r := ClearUser(w);
            && !User(r) && Present(r) == Present(w) && Large(r) == Large(w)
            && PageOf(r) == PageOf(w) && Writable(r) == Writable(w)
  {
    if User(w) {
      var c, x := w / 8, w % 8;
      LowThree(c, x);
      assert 4 <= x;
      LowThree(c, x - 4);
    }
  }

  // The three lowest bits of an entry, and what lies above them.
  lemma {:induction false} LowThree(c: nat, x: nat)
    requires x < 8
    ensures var w := 8 * c + x;
            && w % 2 == x % 2 && w / 2 % 2 == x / 2 % 2 && w / 4 % 2 == x / 4
            && w / 0x80 == c / 0x10 && w / 0x1000 == c / 0x200
  {
    var w, q, r := 8 * c + x, c / 0x200, c % 0x200;
    assert w == (8 * r + x) + 0x1000 * q;
    Quotient(0x1000, q, 8 * r + x);
    var q2, r2 := c / 0x10, c % 0x10;
    assert w == (8 * r2 + x) + 0x80 * q2;
    Quotient(0x80, q2, 8 * r2 + x);
    assert w == x % 2 + 2 * (4 * c + x / 2);
    Quotient(2, 4 * c + x / 2, x % 2);
    assert 4 * c + x / 2 == x / 2 % 2 + 2 * (2 * c + x / 4);
    Quotient(2, 2 * c + x / 4, x / 2 % 2);
    assert w == x % 4 + 4 * (2 * c + x / 4);
    Quotient(4, 2 * c + x / 4, x % 4);
    assert 2 * c + x / 4 == x / 4 + 2 * c;
    Quotient(2, c, x / 4);
  }

  // The kernel half holds 4 MiB pages or nothing, as set up at boot.
  ghost predicate KernelPdOk(kpd: seq<u32>) {
    |kpd| == 1024 && forall i :: HIGHER <= i < 1024 && Present(kpd[i]) ==> Large(kpd[i])
  }

  // The directory shares the kernel half, without user access; what is present in the other half
  // is for user code.
  ghost predicate SharesKernel(mem: seq<byte>, pd: nat, kpd: seq<u32>) {
    && |mem| == LIMIT && pd < 1024 && |kpd| == 1024
    && (forall i :: HIGHER <= i < 1024 ==> Pde(mem, pd, i) == ClearUser(kpd[i]))
    && (forall i :: 0 <= i < HIGHER && Present(Pde(mem, pd, i)) ==> User(Pde(mem, pd, i)))
  }

  // The kernel half of the new directory translates as in the kernel's own, without user access.
  lemma {:induction false} KernelHalfTranslates(mem: seq<byte>, pd: nat, kpd: seq<u32>, v: nat)
    requires SharesKernel(mem, pd, kpd) && KernelPdOk(kpd) && 0xC_0000 <= v < 0x10_0000
    ensures var w := kpd[v / 1024];
            Translate(mem, pd, v)
            == if Present(w) then Some(Mapping(PageOf(w) / 1024 * 1024 + v % 1024, Writable(w), false)) else None
  {
    hide Word, ClearUser;
    ClearUserKeeps(kpd[v / 1024]);
  }

  // A directory with an empty user half.
  lemma {:induction false} EmptySpace(mem: seq<byte>, pd: nat, kpd: seq<u32>)
    requires |mem| == LIMIT && 0 < pd < HEAP_PAGES && KernelPdOk(kpd) && SharesKernel(mem, pd, kpd)
    requires forall i :: 0 <= i < HIGHER ==> Pde(mem, pd, i) == 0
    ensures Maps(mem, pd, {pd}, [])
  {
    hide Word;
    forall i | 0 <= i < 1024
      ensures !HasTable(mem, pd, i)
    {
      if i >= HIGHER { ClearUserKeeps(kpd[i]); }
    }
    assert !Present(0);
  }

  // ---------------------------------------------------------------- loaded segments

  // A segment and the first of its frames.
  datatype Placed = Placed(ph: Phdr, frame: nat)

  function RegionOf(l: Placed): (r: Region)
    requires FirstPage(l.ph) <= EndPage(l.ph)
  {
    Region(FirstPage(l.ph), EndPage(l.ph) - FirstPage(l.ph), l.frame, l.ph.MayWrite())
  }

  function Regions(ls: seq<Placed>): (r: seq<Region>)
    requires forall i :: 0 <= i < |ls| ==> FirstPage(ls[i].ph) <= EndPage(ls[i].ph)
    ensures |r| == |ls| && forall i :: 0 <= i < |ls| ==> r[i] == RegionOf(ls[i])
  {
    seq(|ls|, i requires 0 <= i < |ls| => RegionOf(ls[i]))
  }

  // One past the last frame of a placed segment.
  function FramesEnd(l: Placed): int { l.frame + EndPage(l.ph) - FirstPage(l.ph) }

  // The byte of segment `ph` at offset `k`.
  function SegmentByte(file: seq<byte>, ph: Phdr, k: nat): (b: byte)
    requires ph.offset + ph.filesz <= |file|
  {
    if k < ph.filesz then file[ph.offset + k] else 0
  }

  // The frames of a placed segment hold its bytes.
  ghost predicate Filled(mem: seq<byte>, file: seq<byte>, l: Placed) {
    && l.ph.offset + l.ph.filesz <= |file|
    && 4096 * l.frame + l.ph.vaddr % 4096 + l.ph.memsz <= |mem|
    && forall k :: 0 <= k < l.ph.memsz ==>
         mem[4096 * l.frame + l.ph.vaddr % 4096 + k] == SegmentByte(file, l.ph, k)
  }

  ghost predicate PlacedOk(mem: seq<byte>, file: seq<byte>, l: Placed, next: nat) {
    && 1 <= FirstPage(l.ph) < EndPage(l.ph) <= USER_PAGES
    && HEAP_PAGES <= l.frame && 4096 * FramesEnd(l) <= next
    && Filled(mem, file, l)
  }

  // Segments placed so far, mapped, filled and on pages of their own, and further regions that
  // share no page with them.
  ghost predicate Space(mem: seq<byte>, pd: nat, pages: set<nat>, next: nat, file: seq<byte>,
                        ls: seq<Placed>, extra: seq<Region>)
  {
    && |mem| == LIMIT && next <= LIMIT
    && (forall i :: 0 <= i < |ls| ==> PlacedOk(mem, file, ls[i], next))
    && (forall i, j, p :: 0 <= i < j < |ls| && InSegment(ls[i].ph, p) ==> !InSegment(ls[j].ph, p))
    && (forall i, j :: 0 <= i < j < |ls| ==> FramesEnd(ls[i]) <= ls[j].frame)
    && (forall i, j, p :: 0 <= i < |ls| && 0 <= j < |extra| && InSegment(ls[i].ph, p) ==> !extra[j].Contains(p))
    && Maps(mem, pd, pages, Regions(ls) + extra)
  }

  // What user code reads at a virtual address.
  ghost function ReadUser(mem: seq<byte>, pd: nat, va: u32): (r: Option<byte>)
    requires |mem| == LIMIT && pd < 1024
  {
    match Translate(mem, pd, va / 4096)
    case None => None
    case Some(m) => if m.user && m.page < 1024 then Some(mem[4096 * m.page + va % 4096]) else None
  }

  // In a list of disjoint segments the flat map finds the segment of a page.
  lemma {:induction false} LookupFinds(ls: seq<Placed>, i: nat, p: nat)
    requires forall k :: 0 <= k < |ls| ==> FirstPage(ls[k].ph) <= EndPage(ls[k].ph)
    requires forall a, b, q :: 0 <= a < b < |ls| && InSegment(ls[a].ph, q) ==> !InSegment(ls[b].ph, q)
    requires i < |ls| && InSegment(ls[i].ph, p)
    ensures Lookup(Regions(ls), p) == Some(Mapping(ls[i].frame + p - FirstPage(ls[i].ph), ls[i].ph.MayWrite(), true))
    decreases |ls|
  {
    hide Regions;
    var m := |ls| - 1;
    if i < m {
      LookupFinds(ls[..m], i, p);
      assert Regions(ls)[..m] == Regions(ls[..m]);
    }
    assert Regions(ls)[m] == RegionOf(ls[m]);
  }

  // ... and finds nothing for a page of no segment.
  lemma {:induction false} LookupMisses(ls: seq<Placed>, p: nat)
    requires forall k :: 0 <= k < |ls| ==> FirstPage(ls[k].ph) <= EndPage(ls[k].ph)
    requires forall k :: 0 <= k < |ls| ==> !InSegment(ls[k].ph, p)
    ensures Lookup(Regions(ls), p) == None
    decreases |ls|
  {
    if ls != [] {
      var m := |ls| - 1;
      LookupMisses(ls[..m], p);
      assert Regions(ls)[..m] == Regions(ls[..m]);
    }
  }

  // Further regions do not hide pages outside them.
  lemma {:induction false} LookupBefore(regions: seq<Region>, extra: seq<Region>, p: nat)
    requires forall j :: 0 <= j < |extra| ==> !extra[j].Contains(p)
    ensures Lookup(regions + extra, p) == Lookup(regions, p)
    decreases |extra|
  {
    if extra == [] {
      assert regions + extra == regions;
    } else {
      var m := |extra| - 1;
      LookupBefore(regions, extra[..m], p);
      assert (regions + extra)[..|regions| + m] == regions + extra[..m];
    }
  }

  lemma PageArithmetic(va: nat, k: nat, memsz: nat, frame: nat)
    requires k < memsz
    ensures va / 4096 <= (va + k) / 4096 < (va + memsz + 4095) / 4096
    ensures 4096 * (frame + (va + k) / 4096 - va / 4096) + (va + k) % 4096 == 4096 * frame + va % 4096 + k
  {
  }

  // Every byte of every placed segment is what the file (or the zero fill) says.
  lemma {:induction false} PlacedReads(mem: seq<byte>, pd: nat, pages: set<nat>, next: nat, file: seq<byte>,
                                       ls: seq<Placed>, extra: seq<Region>, i: nat, k: nat)
    requires Space(mem, pd, pages, next, file, ls, extra) && i < |ls| && k < ls[i].ph.memsz
    ensures ls[i].ph.vaddr + k < TWO32
    ensures ReadUser(mem, pd, ls[i].ph.vaddr + k) == Some(SegmentByte(file, ls[i].ph, k))
  {
    hide Translate, WellFormed, Lookup, Regions;
    var l := ls[i];
    var p := (l.ph.vaddr + k) / 4096;
    PageArithmetic(l.ph.vaddr, k, l.ph.memsz, l.frame);
    LookupFinds(ls, i, p);
    LookupBefore(Regions(ls), extra, p);
  }

  // ---------------------------------------------------------------- steps of loading

  // One more page of a region being mapped.
  lemma {:induction false} SpaceMapsOn(mem: seq<byte>, pd: nat, pages: set<nat>, next: nat, file: seq<byte>,
                                       ls: seq<Placed>, r: Region, flags: u32, raw: nat)
    requires Space(mem, pd, pages, next, file, ls, [r]) && FreshGrant(pages, raw) && PageUp(raw) < 1024
    requires r.start + r.count < USER_PAGES && r.frame + r.count < 0x10_0000
    requires User(flags) && Writable(flags) == r.writable
    requires forall i :: 0 <= i < |ls| ==> !InSegment(ls[i].ph, r.start + r.count)
    ensures var m := MapPage(mem, pd, 4096 * (r.start + r.count), 4096 * (r.frame + r.count), flags, raw);
            m.ok ==> Space(m.mem, pd, PagesAfter(mem, pd, pages, 4096 * (r.start + r.count), raw), next, file, ls,
                           [r.(count := r.count + 1)])
  {
    hide MapPage, PagesAfter, Word, Translate, Lookup, Regions, SegmentByte;
    var vaddr, phys := 4096 * (r.start + r.count), 4096 * (r.frame + r.count);
    RegionGrows(mem, pd, pages, Regions(ls), r, flags, raw);
    MapPageKeepsFrames(mem, pd, pages, vaddr, phys, flags, raw);
    var m := MapPage(mem, pd, vaddr, phys, flags, raw);
    forall i | 0 <= i < |ls|
      ensures PlacedOk(m.mem, file, ls[i], next)
    {
      FilledKept(mem, m.mem, file, ls[i], next);
    }
    var more := [r.(count := r.count + 1)];
    forall i, j, p | 0 <= i < |ls| && 0 <= j < |more| && InSegment(ls[i].ph, p)
      ensures !more[j].Contains(p)
    {
      assert ![r][0].Contains(p);
    }
  }

  // The freshly mapped region is filled and becomes one more placed segment.
  lemma {:induction false} SpaceFills(mem: seq<byte>, after: seq<byte>, pd: nat, pages: set<nat>, base: nat, next: nat,
                                      file: seq<byte>, ls: seq<Placed>, l: Placed)
    requires 1 <= FirstPage(l.ph) < EndPage(l.ph) <= USER_PAGES
    requires HEAP_PAGES <= l.frame && base == 4096 * l.frame
    requires next == base + 4096 * (EndPage(l.ph) - FirstPage(l.ph)) && |after| == LIMIT
    requires Space(mem, pd, pages, next, file, ls, [RegionOf(l)])
    requires forall i :: 0 <= i < |ls| ==> PlacedOk(mem, file, ls[i], base)
    requires forall x :: 0 <= x < base ==> after[x] == mem[x]
    requires Filled(after, file, l)
    ensures Space(after, pd, pages, next, file, ls + [l], [])
  {
    hide WellFormed, Translate, Lookup, SegmentByte;
    FramesKeepTables(mem, after, pd, pages);
    assert Regions(ls + [l]) + [] == Regions(ls) + [RegionOf(l)];
    forall i | 0 <= i < |ls|
      ensures PlacedOk(after, file, ls[i], next)
    {
      FilledKept(mem, after, file, ls[i], base);
    }
    var all := ls + [l];
    forall i, j, p | 0 <= i < j < |all| && InSegment(all[i].ph, p)
      ensures !InSegment(all[j].ph, p)
    {
      if j == |ls| { assert ![RegionOf(l)][0].Contains(p); }
    }
    SegmentExtent(l.ph);
  }

  lemma {:induction false} FilledKept(mem: seq<byte>, after: seq<byte>, file: seq<byte>, l: Placed, base: nat)
    requires |after| == |mem| && PlacedOk(mem, file, l, base)
    requires forall x :: 4096 * HEAP_PAGES <= x < base && x < |mem| ==> after[x] == mem[x]
    ensures Filled(after, file, l)
  {
    hide SegmentByte;
    SegmentExtent(l.ph);
  }

  // A segment ends before its last page does.
  lemma SegmentExtent(ph: Phdr)
    requires FirstPage(ph) < EndPage(ph)
    ensures ph.vaddr % 4096 + ph.memsz <= 4096 * (EndPage(ph) - FirstPage(ph))
  {
  }

  lemma SpaceTables(mem: seq<byte>, pd: nat, pages: set<nat>, next: nat, file: seq<byte>,
                    ls: seq<Placed>, extra: seq<Region>)
    requires Space(mem, pd, pages, next, file, ls, extra)
    ensures WellFormed(mem, pd, pages) && pd < 1024
  {
  }

  // A region of no pages maps nothing.
  lemma {:induction false} SpaceStartsRegion(mem: seq<byte>, pd: nat, pages: set<nat>, next: nat, file: seq<byte>,
                                             ls: seq<Placed>, r: Region, later: nat)
    requires Space(mem, pd, pages, next, file, ls, []) && r.count == 0 && next <= later <= LIMIT
    ensures Space(mem, pd, pages, later, file, ls, [r])
  {
    hide WellFormed, Translate, Lookup, Regions, Filled;
    forall p | 0 <= p < USER_PAGES
      ensures Lookup(Regions(ls) + [r], p) == Lookup(Regions(ls) + [], p)
    {
      LookupBefore(Regions(ls), [r], p);
      LookupBefore(Regions(ls), [], p);
    }
  }

  // File bytes, then zeros, make a filled segment.
  lemma {:induction false} FilledBy(mem: seq<byte>, file: seq<byte>, l: Placed)
    requires l.ph.filesz <= l.ph.memsz && l.ph.offset + l.ph.filesz <= |file|
    requires 4096 * l.frame + l.ph.vaddr % 4096 + l.ph.memsz <= |mem|
    ensures var dst := 4096 * l.frame + l.ph.vaddr % 4096;
            var copied := Splice(mem, dst, file[l.ph.offset..l.ph.offset + l.ph.filesz]);
            var after := Splice(copied, dst + l.ph.filesz, Zeros(l.ph.memsz - l.ph.filesz));
            Filled(after, file, l) && forall x :: 0 <= x < dst ==> after[x] == mem[x]
  {
    hide Splice;
    var dst := 4096 * l.frame + l.ph.vaddr % 4096;
    var data, zeros := file[l.ph.offset..l.ph.offset + l.ph.filesz], Zeros(l.ph.memsz - l.ph.filesz);
    var copied := Splice(mem, dst, data);
    var after := Splice(copied, dst + l.ph.filesz, zeros);
    forall k | 0 <= k < l.ph.memsz
      ensures after[dst + k] == SegmentByte(file, l.ph, k)
    {
      if k < l.ph.filesz {
        assert after[dst + k] == copied[dst + k] == data[k];
      } else {
        assert after[dst + l.ph.filesz + (k - l.ph.filesz)] == zeros[k - l.ph.filesz];
      }
    }
  }

  lemma {:induction false} KernelStillShared(mem: seq<byte>, pd: nat, pages: set<nat>, vaddr: u32, phys: u32,
                                             flags: u32, raw: nat, kpd: seq<u32>)
    requires WellFormed(mem, pd, pages) && FreshGrant(pages, raw) && PageUp(raw) < 1024
    requires vaddr < 0xC000_0000 && SharesKernel(mem, pd, kpd) && User(flags)
    ensures SharesKernel(MapPage(mem, pd, vaddr, phys, flags, raw).mem, pd, kpd)
  {
    hide MapPage, Word, ClearUser;
    forall i | 0 <= i < HIGHER && Present(Pde(MapPage(mem, pd, vaddr, phys, flags, raw).mem, pd, i))
      ensures User(Pde(MapPage(mem, pd, vaddr, phys, flags, raw).mem, pd, i))
    {
      MapPageKeepsUserHalf(mem, pd, pages, vaddr, phys, flags, raw, i);
    }
    forall i | HIGHER <= i < 1024
      ensures Pde(MapPage(mem, pd, vaddr, phys, flags, raw).mem, pd, i) == ClearUser(kpd[i])
    {
      MapPageKeepsHigherHalf(mem, pd, pages, vaddr, phys, flags, raw, i);
    }
  }

  // ---------------------------------------------------------------- the loaded program

  // The loadable segments among the first `n` program headers, in order.
  function Loadable(file: seq<byte>, n: nat): (r: seq<Phdr>)
    requires |file| < TWO32 && HeaderOk(file) && n <= PhNum(file)
  {
    if n == 0 then [] else
    Loadable(file, n - 1) + if Ph(file, n - 1).Loads() then [Ph(file, n - 1)] else []
  }

  // Exactly the loadable ones are listed.
  lemma {:induction false} LoadableListed(file: seq<byte>, n: nat)
    requires |file| < TWO32 && HeaderOk(file) && n <= PhNum(file)
    ensures forall i :: 0 <= i < n && Ph(file, i).Loads() ==> Ph(file, i) in Loadable(file, n)
    ensures forall ph :: ph in Loadable(file, n) ==> exists i :: 0 <= i < n && Ph(file, i) == ph && ph.Loads()
    decreases n
  {
    hide Ph, Le16, Le32;
    if n > 0 {
      LoadableListed(file, n - 1);
    }
  }

  // The frames these segments take: one for each page they touch, none for an empty segment.
  function PageCount(phs: seq<Phdr>): (n: int) {
    if phs == [] then 0 else
    var ph := phs[|phs| - 1];
    PageCount(phs[..|phs| - 1]) + if ph.memsz > 0 then EndPage(ph) - FirstPage(ph) else 0
  }

  lemma {:induction false} CountOne(ph: Phdr)
    ensures PageCount([ph]) == if ph.memsz > 0 then EndPage(ph) - FirstPage(ph) else 0
  {
    assert [ph][..0] == [];
  }

  // The 4 MiB windows touched by the pages from `first` to before `end`, and by these segments.
  function Windows(first: int, end: int): (w: set<int>) {
    set p | first <= p < end :: p / 1024
  }

  function SegmentWindows(phs: seq<Phdr>): (w: set<int>) {
    if phs == [] then {} else
    var ph := phs[|phs| - 1];
    SegmentWindows(phs[..|phs| - 1]) + if ph.memsz > 0 then Windows(FirstPage(ph), EndPage(ph)) else {}
  }

  lemma OneSegmentWindows(ph: Phdr)
    ensures SegmentWindows([ph]) == if ph.memsz > 0 then Windows(FirstPage(ph), EndPage(ph)) else {}
  {
    assert [ph][..0] == [];
  }

  function FileWindows(file: seq<byte>): (w: set<int>)
    requires |file| < TWO32 && HeaderOk(file)
  {
    SegmentWindows(Loadable(file, PhNum(file))) + Windows(STACK, STACK + STACK_PAGES)
  }

  lemma NextWindow(first: int, end: int)
    requires first <= end
    ensures Windows(first, end + 1) == Windows(first, end) + {end / 1024} && Windows(first, first) == {}
  {
  }

  // Going from tables for the windows `done` to tables for `all` takes one call for each new
  // window; all of them are granted.
  ghost predicate Supplied(kmalloc: nat -> nat, from: nat, done: set<int>, all: set<int>) {
    AllGranted(kmalloc, from, from + |all| - |done|)
  }

  // The call for a window that those reached, `at`, do not have is one of them.
  lemma {:induction false} CallRefused(kmalloc: nat -> nat, from: nat, done: set<int>, at: set<int>, w: int,
                                       all: set<int>)
    requires done <= at && at + {w} <= all && w !in at && kmalloc(from + Grown(done, at)) == 0
    ensures !Supplied(kmalloc, from, done, all)
  {
    SubsetSize(at + {w}, all);
  }

  lemma NothingNeeded(kmalloc: nat -> nat, from: nat, done: set<int>)
    ensures done + {} == done && Supplied(kmalloc, from, done, done) && Grown(done, done) == 0
  {
  }

  lemma SuppliedExactly(kmalloc: nat -> nat, from: nat, done: set<int>, all: set<int>)
    requires done <= all
    ensures Supplied(kmalloc, from, done, all) <==> AllGranted(kmalloc, from, from + Grown(done, all))
  {
  }

  // All requests for a program: its directory, the tables of its segments, those of its stack.
  lemma {:induction false} ProgramSupplied(kmalloc: nat -> nat, from: nat, segments: set<int>, stack: set<int>)
    ensures AllGranted(kmalloc, from, from + 1 + |segments + stack|) <==>
              && kmalloc(from) != 0 && Supplied(kmalloc, from + 1, {}, segments)
              && Supplied(kmalloc, from + 1 + |segments|, segments, segments + stack)
  {
    SubsetSize(segments, segments + stack);
  }

  function Grown(done: set<int>, at: set<int>): (n: nat)
    requires done <= at
    ensures n == |at| - |done|
  {
    SubsetSize(done, at);
    |at| - |done|
  }

  function Headers(ls: seq<Placed>): (r: seq<Phdr>)
    ensures |r| == |ls| && forall i :: 0 <= i < |ls| ==> r[i] == ls[i].ph
  {
    seq(|ls|, i requires 0 <= i < |ls| => ls[i].ph)
  }

  const STACK: nat := 0xBFBFC    // first stack page

  predicate StackPage(p: nat) { STACK <= p < STACK + STACK_PAGES }

  // A page of some loaded segment; for writing, of one that may be written.
  ghost predicate SegmentPage(file: seq<byte>, p: nat, writing: bool)
    requires |file| < TWO32 && HeaderOk(file)
  {
    exists i :: 0 <= i < PhNum(file) && Ph(file, i).Loads() && InSegment(Ph(file, i), p)
                && (writing ==> Ph(file, i).MayWrite())
  }

  // Byte `k` of a segment reads as the file says, zero beyond the file's part.
  ghost predicate ByteLoaded(mem: seq<byte>, pd: nat, file: seq<byte>, ph: Phdr, k: nat)
    requires |mem| == LIMIT && pd < 1024 && k < ph.memsz
  {
    && ph.offset + ph.filesz <= |file| && ph.vaddr + k < TWO32
    && ReadUser(mem, pd, ph.vaddr + k) == Some(SegmentByte(file, ph, k))
  }

  // So does every byte of every segment.
  ghost predicate ImageLoaded(mem: seq<byte>, pd: nat, file: seq<byte>)
    requires |file| < TWO32 && HeaderOk(file)
  {
    && |mem| == LIMIT && pd < 1024
    && forall i, k :: 0 <= i < PhNum(file) && Ph(file, i).Loads() && 0 <= k < Ph(file, i).memsz ==>
         ByteLoaded(mem, pd, file, Ph(file, i), k)
  }

  // The user half holds the segment and stack pages and nothing else, with the right access.
  ghost predicate UserPagesExact(mem: seq<byte>, pd: nat, file: seq<byte>)
    requires |file| < TWO32 && HeaderOk(file)
  {
    && |mem| == LIMIT && pd < 1024
    && forall p :: 0 <= p < USER_PAGES ==>
         var m := Translate(mem, pd, p);
         && (m.Some? <==> StackPage(p) || SegmentPage(file, p, false))
         && (m.Some? ==> m.value.user && (m.value.writable <==> StackPage(p) || SegmentPage(file, p, true)))
  }

  // A space that holds all loadable segments and the stack.
  ghost predicate Complete(mem: seq<byte>, pd: nat, pages: set<nat>, next: nat, file: seq<byte>,
                           ls: seq<Placed>, stack: nat)
    requires |file| < TWO32 && HeaderOk(file)
  {
    && Space(mem, pd, pages, next, file, ls, [Region(STACK, STACK_PAGES, stack, true)])
    && HEAP_PAGES <= stack && stack + STACK_PAGES <= 1024
    && (forall i :: 0 <= i < |ls| ==> FramesEnd(ls[i]) <= stack)
    && Headers(ls) == Loadable(file, PhNum(file))
  }

  lemma {:induction false} CompleteReads(mem: seq<byte>, pd: nat, pages: set<nat>, next: nat, file: seq<byte>,
                                         ls: seq<Placed>, stack: nat)
    requires |file| < TWO32 && HeaderOk(file) && Complete(mem, pd, pages, next, file, ls, stack)
    ensures ImageLoaded(mem, pd, file)
  {
    hide Ph, Le16, Le32, Loadable, Translate, Word, Lookup, Regions, ReadUser, SegmentByte, Space, ByteLoaded;
    LoadableListed(file, PhNum(file));
    CompleteDirectory(mem, pd, pages, next, file, ls, stack);
    forall i, k | 0 <= i < PhNum(file) && Ph(file, i).Loads() && 0 <= k < Ph(file, i).memsz
      ensures |mem| == LIMIT && pd < 1024 && ByteLoaded(mem, pd, file, Ph(file, i), k)
    {
      var j :| 0 <= j < |ls| && Headers(ls)[j] == Ph(file, i);
      ByteOfComplete(mem, pd, pages, next, file, ls, stack, j, k);
    }
  }

  lemma {:induction false} ByteOfComplete(mem: seq<byte>, pd: nat, pages: set<nat>, next: nat, file: seq<byte>,
                                          ls: seq<Placed>, stack: nat, j: nat, k: nat)
    requires |file| < TWO32 && HeaderOk(file) && Complete(mem, pd, pages, next, file, ls, stack)
    requires |mem| == LIMIT && pd < 1024 && j < |ls| && k < ls[j].ph.memsz
    ensures ByteLoaded(mem, pd, file, ls[j].ph, k)
  {
    hide Ph, Le16, Le32, Loadable, Translate, Word, Lookup, Regions, ReadUser, SegmentByte, Headers;
    PlacedReads(mem, pd, pages, next, file, ls, [Region(STACK, STACK_PAGES, stack, true)], j, k);
  }

  lemma {:induction false} CompleteExact(mem: seq<byte>, pd: nat, pages: set<nat>, next: nat, file: seq<byte>,
                                         ls: seq<Placed>, stack: nat)
    requires |file| < TWO32 && HeaderOk(file) && Complete(mem, pd, pages, next, file, ls, stack)
    ensures UserPagesExact(mem, pd, file)
  {
    hide Ph, Le16, Le32, Translate, Word, SegmentPage;
    var region := Region(STACK, STACK_PAGES, stack, true);
    forall p | 0 <= p < USER_PAGES
      ensures var m := Translate(mem, pd, p);
              && (m.Some? <==> StackPage(p) || SegmentPage(file, p, false))
              && (m.Some? ==> m.value.user && (m.value.writable <==> StackPage(p) || SegmentPage(file, p, true)))
    {
      PageOfComplete(mem, pd, pages, next, file, ls, stack, p);
    }
  }

  // Every user page has a frame of its own in the frame area: none shows kernel memory, no two
  // show the same frame.
  ghost predicate OwnFrames(mem: seq<byte>, pd: nat) {
    && |mem| == LIMIT && pd < 1024
    && (forall p :: 0 <= p < USER_PAGES && Translate(mem, pd, p).Some? ==>
          HEAP_PAGES <= Translate(mem, pd, p).value.page < 1024)
    && (forall p, q :: 0 <= p < q < USER_PAGES && Translate(mem, pd, p).Some? && Translate(mem, pd, q).Some? ==>
          Translate(mem, pd, p).value.page != Translate(mem, pd, q).value.page)
  }

  // The region a mapped page belongs to: number `i` of the segments, or the stack for `|ls|`.
  lemma {:induction false} HomeOf(mem: seq<byte>, pd: nat, pages: set<nat>, next: nat, file: seq<byte>,
                                  ls: seq<Placed>, stack: nat, p: nat) returns (i: nat)
    requires |file| < TWO32 && HeaderOk(file) && Complete(mem, pd, pages, next, file, ls, stack) && p < USER_PAGES
    requires Translate(mem, pd, p).Some?
    ensures i <= |ls|
    ensures if i == |ls| then StackPage(p) && Translate(mem, pd, p).value.page == stack + p - STACK
            else InSegment(ls[i].ph, p) && Translate(mem, pd, p).value.page == ls[i].frame + p - FirstPage(ls[i].ph)
  {
    hide Ph, Le16, Le32, Loadable, Translate, Word, Regions;
    var region := Region(STACK, STACK_PAGES, stack, true);
    i := |ls|;
    assert (Regions(ls) + [region])[..|ls|] == Regions(ls);
    if !StackPage(p) {
      LookupBefore(Regions(ls), [region], p);
      if k :| 0 <= k < |ls| && InSegment(ls[k].ph, p) {
        LookupFinds(ls, k, p);
        i := k;
      } else {
        LookupMisses(ls, p);
      }
    }
  }

  lemma {:induction false} CompleteOwnsFrames(mem: seq<byte>, pd: nat, pages: set<nat>, next: nat, file: seq<byte>,
                                              ls: seq<Placed>, stack: nat)
    requires |file| < TWO32 && HeaderOk(file) && Complete(mem, pd, pages, next, file, ls, stack)
    ensures OwnFrames(mem, pd)
  {
    hide Ph, Le16, Le32, Loadable, Translate, Word, Regions, Filled, Headers, Maps;
    assert pd < 1024 by { CompleteDirectory(mem, pd, pages, next, file, ls, stack); }
    forall p | 0 <= p < USER_PAGES && Translate(mem, pd, p).Some?
      ensures HEAP_PAGES <= Translate(mem, pd, p).value.page < 1024
    {
      var i := HomeOf(mem, pd, pages, next, file, ls, stack, p);
      if i < |ls| { assert PlacedOk(mem, file, ls[i], next); }
    }
    forall p, q | 0 <= p < q < USER_PAGES && Translate(mem, pd, p).Some? && Translate(mem, pd, q).Some?
      ensures Translate(mem, pd, p).value.page != Translate(mem, pd, q).value.page
    {
      var i := HomeOf(mem, pd, pages, next, file, ls, stack, p);
      var j := HomeOf(mem, pd, pages, next, file, ls, stack, q);
    }
  }

  lemma CompleteDirectory(mem: seq<byte>, pd: nat, pages: set<nat>, next: nat, file: seq<byte>, ls: seq<Placed>,
                          stack: nat)
    requires |file| < TWO32 && HeaderOk(file) && Complete(mem, pd, pages, next, file, ls, stack)
    ensures WellFormed(mem, pd, pages) && pd < 1024
  {
  }

  lemma {:induction false} PageOfComplete(mem: seq<byte>, pd: nat, pages: set<nat>, next: nat, file: seq<byte>,
                                          ls: seq<Placed>, stack: nat, p: nat)
    requires |file| < TWO32 && HeaderOk(file) && Complete(mem, pd, pages, next, file, ls, stack) && p < USER_PAGES
    ensures var m := Translate(mem, pd, p);
            && (m.Some? <==> StackPage(p) || SegmentPage(file, p, false))
            && (m.Some? ==> m.value.user && (m.value.writable <==> StackPage(p) || SegmentPage(file, p, true)))
  {
    hide Ph, Le16, Le32, Loadable, Translate, Word, Regions;
    var region := Region(STACK, STACK_PAGES, stack, true);
    LoadableListed(file, PhNum(file));
    assert (Regions(ls) + [region])[..|ls|] == Regions(ls);
    if StackPage(p) {
    } else {
      LookupBefore(Regions(ls), [region], p);
      if i :| 0 <= i < |ls| && InSegment(ls[i].ph, p) {
        LookupFinds(ls, i, p);
        assert Headers(ls)[i] == ls[i].ph;
        SegmentPageUnique(file, ls, i, p);
      } else {
        LookupMisses(ls, p);
        NoSegmentPage(file, ls, p);
      }
    }
  }

  lemma {:induction false} SegmentPageUnique(file: seq<byte>, ls: seq<Placed>, i: nat, p: nat)
    requires |file| < TWO32 && HeaderOk(file) && Headers(ls) == Loadable(file, PhNum(file))
    requires forall a, b, q :: 0 <= a < b < |ls| && InSegment(ls[a].ph, q) ==> !InSegment(ls[b].ph, q)
    requires i < |ls| && InSegment(ls[i].ph, p)
    ensures SegmentPage(file, p, false)
    ensures SegmentPage(file, p, true) <==> ls[i].ph.MayWrite()
  {
    hide Ph, Le16, Le32, Loadable;
    LoadableListed(file, PhNum(file));
    assert Headers(ls)[i] in Loadable(file, PhNum(file));
    if SegmentPage(file, p, true) {
      var k :| 0 <= k < PhNum(file) && Ph(file, k).Loads() && InSegment(Ph(file, k), p) && Ph(file, k).MayWrite();
      var j :| 0 <= j < |ls| && Headers(ls)[j] == Ph(file, k);
      assert j == i;
    }
  }

  lemma {:induction false} NoSegmentPage(file: seq<byte>, ls: seq<Placed>, p: nat)
    requires |file| < TWO32 && HeaderOk(file) && Headers(ls) == Loadable(file, PhNum(file))
    requires forall i :: 0 <= i < |ls| ==> !InSegment(ls[i].ph, p)
    ensures !SegmentPage(file, p, false) && !SegmentPage(file, p, true)
  {
    hide Ph, Le16, Le32, Loadable;
    LoadableListed(file, PhNum(file));
    forall k | 0 <= k < PhNum(file) && Ph(file, k).Loads()
      ensures !InSegment(Ph(file, k), p)
    {
      var j :| 0 <= j < |ls| && Headers(ls)[j] == Ph(file, k);
    }
  }

  lemma {:induction false} SegmentPlaced(mem: seq<byte>, after: seq<byte>, pd: nat, pages: set<nat>, base: nat,
                                         next: nat, file: seq<byte>, ls: seq<Placed>, l: Placed, kpd: seq<u32>)
    requires 1 <= FirstPage(l.ph) < EndPage(l.ph) <= USER_PAGES
    requires HEAP_PAGES <= l.frame && base == 4096 * l.frame
    requires next == base + 4096 * (EndPage(l.ph) - FirstPage(l.ph)) && |after| == LIMIT
    requires Space(mem, pd, pages, next, file, ls, [RegionOf(l)]) && SharesKernel(mem, pd, kpd)
    requires forall i :: 0 <= i < |ls| ==> PlacedOk(mem, file, ls[i], base)
    requires forall x :: 0 <= x < base ==> after[x] == mem[x]
    requires Filled(after, file, l)
    ensures Space(after, pd, pages, next, file, ls + [l], []) && SharesKernel(after, pd, kpd)
    ensures Headers(ls + [l]) == Headers(ls) + [l.ph] && Tables(after, pd) == Tables(mem, pd)
  {
    hide Word, Translate, Regions, Lookup, Filled;
    SpaceFills(mem, after, pd, pages, base, next, file, ls, l);
    FramesKeepTables(mem, after, pd, pages);
  }

  lemma AcceptableHeader(file: seq<byte>)
    requires |file| < TWO32 && Acceptable(file)
    ensures HeaderOk(file) && |file| >= 52
  {
  }

  lemma {:induction false} NothingPlaced(mem: seq<byte>, pd: nat, next: nat, file: seq<byte>)
    requires Maps(mem, pd, {pd}, []) && next <= LIMIT
    ensures Space(mem, pd, {pd}, next, file, [], [])
  {
    hide Word, Translate;
    assert Regions([]) + [] == [];
  }

  // The first pass guarantees that a segment shares no page with those loaded before it.
  lemma {:induction false} ClearOfPlaced(file: seq<byte>, ls: seq<Placed>, i: nat)
    requires |file| < TWO32 && Acceptable(file) && i < PhNum(file) && Headers(ls) == Loadable(file, i)
    requires Ph(file, i).kind == PT_LOAD
    ensures ValidSegment(Ph(file, i), |file|)
    ensures Ph(file, i).memsz > 0 ==>
              forall k, p :: 0 <= k < |ls| && InSegment(ls[k].ph, p) ==> !InSegment(Ph(file, i), p)
  {
    hide Ph, Le16, Le32, ValidSegment, Overlap, InSegment;
    LoadableListed(file, i);
    var ph := Ph(file, i);
    assert SegmentOk(file, i);
    forall k, p | 0 <= k < |ls| && InSegment(ls[k].ph, p) && ph.memsz > 0
      ensures !InSegment(ph, p)
    {
      assert Headers(ls)[k] in Loadable(file, i);
      var j :| 0 <= j < i && Ph(file, j) == ls[k].ph && ls[k].ph.Loads();
      assert SegmentOk(file, j);
      OverlapMeansSharedPage(ph, Ph(file, j), |file|);
    }
  }

  lemma FramesBelow(mem: seq<byte>, pd: nat, pages: set<nat>, next: nat, file: seq<byte>, ls: seq<Placed>)
    requires Space(mem, pd, pages, next, file, ls, [])
    ensures forall i :: 0 <= i < |ls| ==> 4096 * FramesEnd(ls[i]) <= next
  {
  }

  // One more loadable segment; the rest only adds to the count.
  lemma {:induction false} CountGrows(file: seq<byte>, i: nat)
    requires |file| < TWO32 && Acceptable(file) && i < PhNum(file)
    ensures PageCount(Loadable(file, i + 1)) ==
            PageCount(Loadable(file, i)) + if Ph(file, i).kind == PT_LOAD then PageCount([Ph(file, i)]) else 0
    ensures PageCount(Loadable(file, i + 1)) <= PageCount(Loadable(file, PhNum(file)))
    decreases PhNum(file) - i
  {
    hide Ph, Le16, Le32, ValidSegment, Overlap;
    var before, ph := Loadable(file, i), Ph(file, i);
    CountOne(ph);
    assert (before + [ph])[..|before|] == before && before + [] == before;
    if i + 1 < PhNum(file) {
      CountGrows(file, i + 1);
      var later := Ph(file, i + 1);
      assert SegmentOk(file, i + 1);
      if later.kind == PT_LOAD && later.memsz > 0 {
        ValidatedRange(later, |file|);
      }
      CountOne(later);
    }
  }

  lemma {:induction false} WindowsGrow(file: seq<byte>, i: nat)
    requires |file| < TWO32 && HeaderOk(file) && i < PhNum(file)
    ensures SegmentWindows(Loadable(file, i + 1)) ==
            SegmentWindows(Loadable(file, i))
            + if Ph(file, i).kind == PT_LOAD then SegmentWindows([Ph(file, i)]) else {}
    ensures SegmentWindows(Loadable(file, i + 1)) <= SegmentWindows(Loadable(file, PhNum(file)))
    decreases PhNum(file) - i
  {
    hide Ph, Le16, Le32, Windows;
    var before, ph := Loadable(file, i), Ph(file, i);
    OneSegmentWindows(ph);
    assert (before + [ph])[..|before|] == before && before + [] == before;
    if i + 1 < PhNum(file) {
      WindowsGrow(file, i + 1);
    }
  }

  lemma NoSegments(file: seq<byte>)
    requires |file| < TWO32 && HeaderOk(file)
    ensures Loadable(file, 0) == [] && PageCount([]) == 0 && SegmentWindows([]) == {}
  {
  }

  ghost predicate TouchesWindow(ph: Phdr, w: int) {
    exists p: nat :: InSegment(ph, p) && p / 1024 == w
  }

  lemma TouchedWindows(ph: Phdr, w: int)
    ensures w in Windows(FirstPage(ph), EndPage(ph)) <==> TouchesWindow(ph, w)
  {
    if w in Windows(FirstPage(ph), EndPage(ph)) {
      var p :| FirstPage(ph) <= p < EndPage(ph) && p / 1024 == w;
      assert InSegment(ph, p);
    }
  }

  lemma {:induction false} SegmentWindowsAre(phs: seq<Phdr>, w: int)
    requires forall i :: 0 <= i < |phs| ==> phs[i].memsz > 0
    ensures w in SegmentWindows(phs) <==> exists i :: 0 <= i < |phs| && TouchesWindow(phs[i], w)
    decreases |phs|
  {
    if phs != [] {
      var m := |phs| - 1;
      SegmentWindowsAre(phs[..m], w);
      TouchedWindows(phs[m], w);
    }
  }

  // The windows of a file are those touched by its segment pages and stack pages.
  lemma {:induction false} FileWindowsAre(file: seq<byte>, w: int)
    requires |file| < TWO32 && HeaderOk(file)
    ensures w in FileWindows(file) <==> exists p: nat :: (StackPage(p) || SegmentPage(file, p, false)) && p / 1024 == w
  {
    hide Ph, Le16, Le32, Loadable, SegmentWindows;
    var phs := Loadable(file, PhNum(file));
    LoadableListed(file, PhNum(file));
    forall i | 0 <= i < |phs|
      ensures phs[i].memsz > 0
    {
      assert phs[i] in phs;
    }
    SegmentWindowsAre(phs, w);
    if w in Windows(STACK, STACK + STACK_PAGES) {
      var p :| STACK <= p < STACK + STACK_PAGES && p / 1024 == w;
      assert StackPage(p);
    }
    if w in SegmentWindows(phs) {
      var i :| 0 <= i < |phs| && TouchesWindow(phs[i], w);
      assert phs[i] in phs;
      var p: nat :| InSegment(phs[i], p) && p / 1024 == w;
      assert SegmentPage(file, p, false);
    }
    if p: nat :| SegmentPage(file, p, false) && p / 1024 == w {
      var i :| 0 <= i < PhNum(file) && Ph(file, i).Loads() && InSegment(Ph(file, i), p);
      assert Ph(file, i) in phs;
      var k :| 0 <= k < |phs| && phs[k] == Ph(file, i);
      assert TouchesWindow(phs[k], w);
    }
  }

  // The requests for one more segment, `at` on, as part of all requests.
  lemma {:induction false} RequestsAddUp(kmalloc: nat -> nat, from: nat, at: nat, before: set<int>, here: set<int>,
                                         more: set<int>, all: set<int>)
    requires before <= here && here + more <= all
    requires at == from + Grown(before, here) && AllGranted(kmalloc, from, at)
    ensures at + Grown(here, here + more) == from + Grown(before, here + more)
    ensures Supplied(kmalloc, at, here, here + more) ==> AllGranted(kmalloc, from, at + Grown(here, here + more))
    ensures here + more == all ==> (Supplied(kmalloc, at, here, all) <==> Supplied(kmalloc, from, before, all))
    ensures !Supplied(kmalloc, at, here, here + more) ==> !Supplied(kmalloc, from, before, all)
  {
    SubsetSize(here + more, all);
  }

  // Frames handed out later lie above the placed segments.
  lemma {:induction false} PlacedBelow(mem: seq<byte>, pd: nat, pages: set<nat>, base: nat, after: seq<byte>,
                                       pages2: set<nat>, next: nat, file: seq<byte>, ls: seq<Placed>, r: Region)
    requires Space(mem, pd, pages, base, file, ls, []) && Space(after, pd, pages2, next, file, ls, [r])
    ensures forall i :: 0 <= i < |ls| ==> PlacedOk(after, file, ls[i], base)
  {
    hide Maps, Filled;
  }

  // No placed segment touches the stack pages.
  lemma {:induction false} StackIsClear(file: seq<byte>, ls: seq<Placed>)
    requires |file| < TWO32 && Acceptable(file) && Headers(ls) == Loadable(file, PhNum(file))
    ensures forall i, p :: 0 <= i < |ls| && STACK <= p < STACK + STACK_PAGES ==> !InSegment(ls[i].ph, p)
  {
    hide Ph, Le16, Le32, ValidSegment, Overlap;
    LoadableListed(file, PhNum(file));
    forall i, p | 0 <= i < |ls| && STACK <= p < STACK + STACK_PAGES
      ensures !InSegment(ls[i].ph, p)
    {
      assert Headers(ls)[i] in Loadable(file, PhNum(file));
      var j :| 0 <= j < PhNum(file) && Ph(file, j) == ls[i].ph && ls[i].ph.Loads();
      assert SegmentOk(file, j);
      ValidatedRange(ls[i].ph, |file|);
    }
  }

  // ---------------------------------------------------------------- tables taken

  // `i` pages of a region are mapped: each new window took one call, and all were granted.
  ghost predicate Taken(mem: seq<byte>, pd: nat, kmalloc: nat -> nat, from: nat, to: nat, before: set<int>,
                        start: nat, i: nat)
  {
    && |mem| == LIMIT && pd < 1024 && Tables(mem, pd) == before + Windows(start, start + i)
    && to == from + Grown(before, Tables(mem, pd)) && AllGranted(kmalloc, from, to)
  }

  // Before the page of number `i`: its window has a table exactly when its entry is present.
  lemma WindowTaken(mem: seq<byte>, pd: nat, p: nat)
    requires |mem| == LIMIT && pd < 1024 && p < USER_PAGES
    ensures p / 1024 in Tables(mem, pd) <==> Present(Pde(mem, pd, 4096 * p / 0x40_0000))
  {
    assert 4096 * p / 0x40_0000 == p / 1024;
  }

  lemma {:induction false} TakenGoesOn(mem: seq<byte>, after: seq<byte>, pd: nat, kmalloc: nat -> nat, from: nat,
                                         at: nat, to: nat, before: set<int>, start: nat, i: nat)
    requires Taken(mem, pd, kmalloc, from, at, before, start, i) && |after| == LIMIT
    requires Tables(after, pd) == Tables(mem, pd) + {(start + i) / 1024}
    requires if (start + i) / 1024 in Tables(mem, pd) then to == at else to == at + 1 && kmalloc(at) != 0
    ensures Taken(after, pd, kmalloc, from, to, before, start, i + 1)
  {
    hide Tables, Windows;
    NextWindow(start, start + i);
    var here, w := Tables(mem, pd), (start + i) / 1024;
    assert before + Windows(start, start + (i + 1)) == here + {w};
    assert w in here ==> here + {w} == here;
    assert |here + {w}| == |here| + if w in here then 0 else 1;
  }

  lemma {:induction false} MapRefused(mem: seq<byte>, pd: nat, kmalloc: nat -> nat, from: nat, at: nat,
                                      before: set<int>, start: nat, i: nat, count: nat)
    requires Taken(mem, pd, kmalloc, from, at, before, start, i) && i < count
    requires (start + i) / 1024 !in Tables(mem, pd) && kmalloc(at) == 0
    ensures !Supplied(kmalloc, from, before, before + Windows(start, start + count))
  {
    CallRefused(kmalloc, from, before, Tables(mem, pd), (start + i) / 1024, before + Windows(start, start + count));
  }

  lemma TakenDone(mem: seq<byte>, pd: nat, kmalloc: nat -> nat, from: nat, to: nat, before: set<int>, start: nat,
                  n: nat)
    requires Taken(mem, pd, kmalloc, from, to, before, start, n)
    ensures |mem| == LIMIT && pd < 1024 && Tables(mem, pd) == before + Windows(start, start + n)
    ensures to == from + Grown(before, before + Windows(start, start + n))
    ensures Supplied(kmalloc, from, before, before + Windows(start, start + n))
  {
  }

  lemma NothingMapped(mem: seq<byte>, pd: nat, kmalloc: nat -> nat, from: nat, start: nat)
    requires |mem| == LIMIT && pd < 1024
    ensures Taken(mem, pd, kmalloc, from, from, Tables(mem, pd), start, 0)
  {
    NextWindow(start, start);
  }

  // ---------------------------------------------------------------- the machine

  // ---------------------------------------------------------------- what loading leaves alone

  // Pages used by others, and frames below `base`, kept their bytes; the space's own pages, `pages2`
  // now, are still none of the others'.
  ghost predicate Spared(before: seq<byte>, pages: set<nat>, used: set<nat>,
                         after: seq<byte>, pages2: set<nat>, used2: set<nat>, base: nat)
  {
    && |before| == |after| == LIMIT && used <= used2 && pages2 !! used - pages
    && forall x :: 0 <= x < LIMIT && (x / 4096 in used - pages || PMM_BASE <= x < base) ==> after[x] == before[x]
  }

  lemma NothingChanged(mem: seq<byte>, pages: set<nat>, used: set<nat>, base: nat)
    requires |mem| == LIMIT
    ensures Spared(mem, pages, used, mem, pages, used, base)
  {
  }

  lemma {:induction false} SparedAgain(a: seq<byte>, pages: set<nat>, used: set<nat>, base: nat,
                                       b: seq<byte>, pages2: set<nat>, used2: set<nat>, base2: nat,
                                       c: seq<byte>, pages3: set<nat>, used3: set<nat>)
    requires Spared(a, pages, used, b, pages2, used2, base) && Spared(b, pages2, used2, c, pages3, used3, base2)
    requires base <= base2
    ensures Spared(a, pages, used, c, pages3, used3, base)
  {
    assert used - pages <= used2 - pages2;
  }

  lemma SparedBelow(before: seq<byte>, pages: set<nat>, used: set<nat>, after: seq<byte>, pages2: set<nat>,
                    used2: set<nat>, base: nat)
    requires Spared(before, pages, used, after, pages2, used2, LIMIT) && base <= LIMIT
    ensures Spared(before, pages, used, after, pages2, used2, base)
  {
  }

  // Filling frames from `base` on.
  lemma {:induction false} FillSpares(before: seq<byte>, pages: set<nat>, used: set<nat>, mid: seq<byte>,
                                      pages2: set<nat>, used2: set<nat>, base: nat, after: seq<byte>)
    requires Spared(before, pages, used, mid, pages2, used2, base) && PMM_BASE <= base <= LIMIT
    requires |after| == LIMIT && (forall x :: 0 <= x < base ==> after[x] == mid[x])
    requires forall p :: p in used2 ==> p < HEAP_PAGES
    ensures Spared(before, pages, used, after, pages2, used2, base)
  {
  }

  // Setting up a new page.
  lemma {:induction false} NewPageSpares(before: seq<byte>, after: seq<byte>, used: set<nat>, pd: nat)
    requires |before| == |after| == LIMIT && pd !in used && pd < HEAP_PAGES
    requires forall x :: 0 <= x < LIMIT && x / 4096 != pd ==> after[x] == before[x]
    ensures Spared(before, {}, used, after, {pd}, used + {pd}, LIMIT)
  {
  }

  // Mapping a page.
  lemma {:induction false} MapPageSpares(mem: seq<byte>, pd: nat, pages: set<nat>, used: set<nat>,
                                         vaddr: u32, phys: u32, flags: u32, raw: nat)
    requires WellFormed(mem, pd, pages) && pages <= used && FreshGrant(used, raw) && PageUp(raw) < 1024
    ensures PagesAfter(mem, pd, pages, vaddr, raw) !! used - pages
    ensures var m := MapPage(mem, pd, vaddr, phys, flags, raw).mem;
            forall x :: 0 <= x < LIMIT && (x / 4096 in used - pages || PMM_BASE <= x < LIMIT) ==> m[x] == mem[x]
  {
    hide Word, MapPage, Translate;
    forall x | 0 <= x < LIMIT && (x / 4096 in used - pages || PMM_BASE <= x < LIMIT)
      ensures MapPage(mem, pd, vaddr, phys, flags, raw).mem[x] == mem[x]
    {
      MapPageKeepsByte(mem, pd, pages, vaddr, phys, flags, raw, x);
    }
  }

  lemma {:induction false} MapPageKeepsByte(mem: seq<byte>, pd: nat, pages: set<nat>, vaddr: u32, phys: u32,
                                            flags: u32, raw: nat, x: nat)
    requires WellFormed(mem, pd, pages) && FreshGrant(pages, raw) && PageUp(raw) < 1024
    requires x < LIMIT && x / 4096 !in pages && (raw != 0 ==> x / 4096 != PageUp(raw))
    ensures MapPage(mem, pd, vaddr, phys, flags, raw).mem[x] == mem[x]
  {
    hide Word, MakeEntry, Translate, StoreWord, ZeroPage;
    var i, k := vaddr / 0x40_0000, vaddr / 0x1000 % 1024;
    var pte := MakeEntry(phys / 0x1000, Writable(flags), User(flags));
    if HasTable(mem, pd, i) {
      StoreElsewhere(mem, PageOf(Pde(mem, pd, i)), k, pte, x);
    } else if raw != 0 {
      var t := PageUp(raw);
      assert ZeroPage(mem, t)[x] == mem[x];
      StoreElsewhere(ZeroPage(mem, t), pd, i, MakeEntry(t, true, User(flags)), x);
      StoreElsewhere(WithTable(mem, pd, i, t, User(flags)), t, k, pte, x);
    }
  }

  lemma StoreElsewhere(mem: seq<byte>, t: nat, k: nat, w: u32, x: nat)
    requires |mem| == LIMIT && t < 1024 && k < 1024 && x < LIMIT && x / 4096 != t
    ensures StoreWord(mem, 1024 * t + k, w)[x] == mem[x]
  {
    hide StoreWord;
  }

  // The frames of the user half lie below `next`.
  ghost predicate FramesTaken(mem: seq<byte>, pd: nat, next: nat) {
    && |mem| == LIMIT && pd < 1024 && next <= LIMIT
    && forall p :: 0 <= p < USER_PAGES && Translate(mem, pd, p).Some? ==>
         4096 * (Translate(mem, pd, p).value.page + 1) <= next
  }

  // A program is in place.
  ghost predicate Loaded(mem: seq<byte>, pd: nat, pages: set<nat>, next: nat, kpd: seq<u32>, file: seq<byte>) {
    && |file| < TWO32 && HeaderOk(file) && WellFormed(mem, pd, pages) && FramesTaken(mem, pd, next)
    && ImageLoaded(mem, pd, file) && UserPagesExact(mem, pd, file)
    && OwnFrames(mem, pd) && SharesKernel(mem, pd, kpd)
  }

  lemma {:induction false} CompleteBelow(mem: seq<byte>, pd: nat, pages: set<nat>, next: nat, file: seq<byte>,
                                         ls: seq<Placed>, stack: nat)
    requires |file| < TWO32 && HeaderOk(file) && Complete(mem, pd, pages, next, file, ls, stack)
    requires 4096 * (stack + STACK_PAGES) <= next
    ensures FramesTaken(mem, pd, next)
  {
    hide Ph, Le16, Le32, Loadable, Translate, Word, Regions, Filled, Headers, Maps;
    assert pd < 1024 by { CompleteDirectory(mem, pd, pages, next, file, ls, stack); }
    forall p | 0 <= p < USER_PAGES && Translate(mem, pd, p).Some?
      ensures 4096 * (Translate(mem, pd, p).value.page + 1) <= next
    {
      var i := HomeOf(mem, pd, pages, next, file, ls, stack, p);
      if i < |ls| { assert PlacedOk(mem, file, ls[i], next); }
    }
  }

  // Keeping the pages of a space keeps its translation.
  lemma {:induction false} PagesKeepSpace(mem: seq<byte>, after: seq<byte>, pd: nat, pages: set<nat>)
    requires WellFormed(mem, pd, pages) && |after| == LIMIT
    requires forall x :: 0 <= x < LIMIT && x / 4096 in pages ==> after[x] == mem[x]
    ensures pd < 1024 && WellFormed(after, pd, pages)
    ensures forall i :: 0 <= i < 1024 ==> Pde(after, pd, i) == Pde(mem, pd, i)
    ensures forall p :: 0 <= p < 0x10_0000 ==> Translate(after, pd, p) == Translate(mem, pd, p)
  {
    hide Word;
    forall i | 0 <= i < 1024
      ensures Pde(after, pd, i) == Pde(mem, pd, i)
    {
      PageKeepsWord(mem, after, pd, i);
    }
    forall p | 0 <= p < 0x10_0000
      ensures Translate(after, pd, p) == Translate(mem, pd, p)
    {
      if HasTable(mem, pd, p / 1024) {
        PageKeepsWord(mem, after, PageOf(Pde(mem, pd, p / 1024)), p % 1024);
      }
    }
  }

  lemma {:induction false} PageKeepsWord(mem: seq<byte>, after: seq<byte>, t: nat, k: nat)
    requires |mem| == |after| == LIMIT && t < 1024 && k < 1024
    requires forall x :: 4096 * t <= x < 4096 * t + 4096 ==> after[x] == mem[x]
    ensures Word(after, 1024 * t + k) == Word(mem, 1024 * t + k)
  {
    hide Word;
    WordKept(mem, after, 1024 * t + k);
  }

  // A program in place stays in place when its pages and frames are spared.
  lemma {:induction false} LoadedStays(mem: seq<byte>, after: seq<byte>, used: set<nat>, pages2: set<nat>,
                                       used2: set<nat>, base: nat, next: nat, kpd: seq<u32>,
                                       pd: nat, pages: set<nat>, file: seq<byte>)
    requires Spared(mem, {}, used, after, pages2, used2, base) && base <= next <= LIMIT
    requires Loaded(mem, pd, pages, base, kpd, file) && pages <= used
    ensures Loaded(after, pd, pages, next, kpd, file)
  {
    hide WellFormed, Translate, Word, Ph, Le16, Le32, HeaderOk, SegmentPage, StackPage, ReadUser, ImageLoaded;
    PagesKeepSpace(mem, after, pd, pages);
    forall va | 0 <= va < TWO32
      ensures ReadUser(after, pd, va) == ReadUser(mem, pd, va)
    {
      if va < USER_MAX {
        ReadsSpared(mem, after, used, pages2, used2, base, pd, va);
      } else {
        KernelHidden(mem, pd, kpd, va);
        KernelHidden(after, pd, kpd, va);
      }
    }
    ImageStays(mem, after, pd, file);
  }

  lemma {:induction false} ReadsSpared(mem: seq<byte>, after: seq<byte>, used: set<nat>, pages2: set<nat>,
                                       used2: set<nat>, base: nat, pd: nat, va: nat)
    requires Spared(mem, {}, used, after, pages2, used2, base) && FramesTaken(mem, pd, base) && OwnFrames(mem, pd)
    requires va < USER_MAX && Translate(after, pd, va / 4096) == Translate(mem, pd, va / 4096)
    ensures ReadUser(after, pd, va) == ReadUser(mem, pd, va)
  {
    hide Translate;
  }

  lemma {:induction false} ImageStays(mem: seq<byte>, after: seq<byte>, pd: nat, file: seq<byte>)
    requires |file| < TWO32 && HeaderOk(file) && ImageLoaded(mem, pd, file) && |after| == LIMIT
    requires forall va :: 0 <= va < TWO32 ==> ReadUser(after, pd, va) == ReadUser(mem, pd, va)
    ensures ImageLoaded(after, pd, file)
  {
    hide Ph, Le16, Le32, ReadUser, Translate, SegmentByte;
    forall i, k | 0 <= i < PhNum(file) && Ph(file, i).Loads() && 0 <= k < Ph(file, i).memsz
      ensures ByteLoaded(after, pd, file, Ph(file, i), k)
    {
      assert ByteLoaded(mem, pd, file, Ph(file, i), k);
    }
  }

  // User code reads nothing in the kernel half.
  lemma {:induction false} KernelHidden(mem: seq<byte>, pd: nat, kpd: seq<u32>, va: u32)
    requires SharesKernel(mem, pd, kpd) && va >= USER_MAX
    ensures ReadUser(mem, pd, va) == None
  {
    hide Word;
    ClearUserKeeps(kpd[va / 0x40_0000]);
    assert !User(Pde(mem, pd, va / 4096 / 1024));
  }

  class Machine {
    const kmalloc: nat -> nat      // the heap, call by call
    const kernelPd: seq<u32>       // page_directory
    var mem: seq<byte>             // physical memory below 4 MiB
    var allocs: nat                // kmalloc calls so far
    var next: nat                  // g_next
    ghost var used: set<nat>       // pages given out as directories and tables

    ghost predicate Valid()
      reads this
    {
      && |mem| == LIMIT && KernelPdOk(kernelPd) && HeapOk(kmalloc)
      && PMM_BASE <= next <= LIMIT && next % 4096 == 0
      && forall p :: p in used ==> 0 < p < HEAP_PAGES && Granted(kmalloc, allocs, p)
    }

    // pmm_init, before any page directory or frame is handed out
    constructor (kmalloc: nat -> nat, kernelPd: seq<u32>, mem: seq<byte>)
      requires |mem| == LIMIT && KernelPdOk(kernelPd) && HeapOk(kmalloc)
      ensures Valid() && next == PMM_BASE && used == {} && allocs == 0
      ensures this.kmalloc == kmalloc && this.kernelPd == kernelPd && this.mem == mem
    {
      this.kmalloc, this.kernelPd, this.mem := kmalloc, kernelPd, mem;
      allocs, next, used := 0, PMM_BASE, {};
    }

    // pmm_alloc_frames, with the allocator ready: the next frames in order, or 0.
    method AllocFrames(count: nat) returns (addr: nat)
      requires Valid()
      modifies this`next
      ensures Valid()
      ensures addr != 0 <==> 0 < count && 4096 * count <= LIMIT - old(next)
      ensures if addr != 0 then addr == old(next) && next == addr + 4096 * count else next == old(next)
    {
      if count == 0 || count > 0xFFFF_FFFF / 4096 {
        return 0;
      }
      var bytes := count * 4096;
      if bytes > LIMIT - next {
        return 0;
      }
      addr := next;
      next := next + bytes;
    }

    // pmm_bytes_used and pmm_bytes_free always add up to the whole frame area.
    method Usage() returns (taken: nat, free: nat)
      requires Valid()
      ensures taken == next - PMM_BASE && taken + free == LIMIT - PMM_BASE
    {
      taken, free := next - PMM_BASE, LIMIT - next;
    }

    // for (i = 0; i < 1024; ++i) table[i] = 0
    method ClearTable(t: nat)
      requires |mem| == LIMIT && t < 1024
      modifies this`mem
      ensures mem == ZeroPage(old(mem), t)
    {
      for k := 0 to 1024
        invariant |mem| == LIMIT
        invariant forall x :: 0 <= x < LIMIT ==> mem[x] == if 4096 * t <= x < 4096 * t + 4 * k then 0 else old(mem)[x]
      {
        StoreZero(mem, 1024 * t + k);
        mem := StoreWord(mem, 1024 * t + k, 0);
      }
      assert mem == ZeroPage(old(mem), t);
    }

    // One block from the heap, aligned up to a page.
    method TakePage() returns (raw: nat)
      requires Valid()
      modifies this`allocs, this`used
      ensures Valid() && raw == kmalloc(old(allocs)) && allocs == old(allocs) + 1
      ensures FreshGrant(old(used), raw) && PageUp(raw) < 1024
      ensures used == if raw != 0 then old(used) + {PageUp(raw)} else old(used)
    {
      GrantIsFresh(kmalloc, allocs, used);
      raw := kmalloc(allocs);
      forall p | p in used
        ensures Granted(kmalloc, allocs + 1, p)
      {
        var i :| 0 <= i < allocs && kmalloc(i) != 0 && PageUp(kmalloc(i)) == p;
      }
      allocs := allocs + 1;
      if raw != 0 {
        assert Granted(kmalloc, allocs, PageUp(raw));
        used := used + {PageUp(raw)};
      }
    }

    // paging_create_pd: 0 when the heap is exhausted.
    method CreatePd() returns (pd: nat)
      requires Valid()
      modifies this`mem, this`allocs, this`used
      ensures Valid() && allocs == old(allocs) + 1 && (pd != 0 <==> kmalloc(old(allocs)) != 0)
      ensures pd != 0 ==> Maps(mem, pd, {pd}, []) && SharesKernel(mem, pd, kernelPd) && pd in used
      ensures pd != 0 ==> Tables(mem, pd) == {}
      ensures Spared(old(mem), {}, old(used), mem, if pd != 0 then {pd} else {}, used, LIMIT)
    {
      hide Word, StoreWord, ZeroPage, Spared;
      NothingChanged(mem, {}, used, LIMIT);
      var raw := TakePage();
      if raw == 0 {
        return 0;
      }
      pd := PageUp(raw);
      ghost var before := mem;
      ClearTable(pd);
      forall i | 0 <= i < 1024
        ensures Pde(mem, pd, i) == 0
      {
        ZeroPageWords(before, pd, pd, i);
      }
      ShareKernel(pd);
      EmptySpace(mem, pd, kernelPd);
      NewPageSpares(before, mem, old(used), pd);
      assert !Present(0);
    }

    // The entries of the kernel half, without user access.
    method ShareKernel(pd: nat)
      requires Valid() && pd < 1024
      modifies this`mem
      ensures Valid()
      ensures forall k :: 0 <= k < 1024 ==>
                Pde(mem, pd, k) == if HIGHER <= k then ClearUser(kernelPd[k]) else old(Pde(mem, pd, k))
      ensures forall x :: 0 <= x < LIMIT && x / 4096 != pd ==> mem[x] == old(mem)[x]
    {
      hide Word, StoreWord;
      for i := HIGHER to 1024
        invariant Valid()
        invariant forall k :: 0 <= k < 1024 ==>
                    Pde(mem, pd, k) == if HIGHER <= k < i then ClearUser(kernelPd[k]) else old(Pde(mem, pd, k))
        invariant forall x :: 0 <= x < LIMIT && x / 4096 != pd ==> mem[x] == old(mem)[x]
      {
        ghost var m := mem;
        forall k | 0 <= k < 1024
          ensures Word(StoreWord(m, 1024 * pd + i, ClearUser(kernelPd[i])), 1024 * pd + k)
                  == if k == i then ClearUser(kernelPd[i]) else Pde(m, pd, k)
        {
          StoreInPage(m, pd, i, ClearUser(kernelPd[i]), pd, k);
        }
        forall x | 0 <= x < LIMIT && x / 4096 != pd
          ensures StoreWord(m, 1024 * pd + i, ClearUser(kernelPd[i]))[x] == m[x]
        {
          StoreElsewhere(m, pd, i, ClearUser(kernelPd[i]), x);
        }
        mem := StoreWord(mem, 1024 * pd + i, ClearUser(kernelPd[i]));
      }
    }

    // A zeroed table from the heap, entered in the directory; 0 when the heap is exhausted.
    method NewTable(pd: nat, i: nat, user: bool) returns (t: nat)
      requires Valid() && pd < 1024 && i < 1024
      modifies this`mem, this`allocs, this`used
      ensures Valid() && old(used) <= used && allocs == old(allocs) + 1
      ensures var raw := kmalloc(old(allocs));
              && PageUp(raw) < 1024
              && (if raw == 0 then t == 0 && mem == old(mem)
                  else t == PageUp(raw) && 0 < t && t in used && mem == WithTable(old(mem), pd, i, t, user))
    {
      hide StoreWord, ZeroPage, MakeEntry;
      var raw := TakePage();
      if raw == 0 {
        return 0;
      }
      t := PageUp(raw);
      ClearTable(t);
      mem := StoreWord(mem, 1024 * pd + i, MakeEntry(t, true, user));
    }

    // paging_map_page
    method MapOne(pd: nat, vaddr: u32, phys: u32, flags: u32, ghost pages: set<nat>)
        returns (ok: bool, ghost pages2: set<nat>)
      requires Valid() && WellFormed(mem, pd, pages) && pages <= used
      modifies this`mem, this`allocs, this`used
      ensures Valid() && pages2 <= used && old(used) <= used && (!ok ==> pages2 == pages)
      ensures old(allocs) <= allocs <= old(allocs) + 1
      ensures allocs == old(allocs) + 1 <==>
                vaddr % 4096 == 0 && phys % 4096 == 0 && flags < 8 &&
                !Large(old(Pde(mem, pd, vaddr / 0x40_0000))) && !Present(old(Pde(mem, pd, vaddr / 0x40_0000)))
      ensures ghost var raw := kmalloc(old(allocs));
              && FreshGrant(pages, raw) && PageUp(raw) < 1024
              && Mapped(mem, ok) == MapPage(old(mem), pd, vaddr, phys, flags, raw)
              && (ok ==> pages2 == PagesAfter(old(mem), pd, pages, vaddr, raw))
    {
      hide Word, StoreWord, MakeEntry, WithTable, Translate;
      GrantIsFresh(kmalloc, allocs, used);
      ok, pages2 := false, pages;
      if vaddr % 4096 != 0 || phys % 4096 != 0 || flags >= 8 {
        return;
      }
      var i, k := vaddr / 0x40_0000, vaddr / 0x1000 % 1024;
      var pde := Pde(mem, pd, i);
      if Large(pde) {
        return;
      }
      var t := PageOf(pde);
      if !Present(pde) {
        t := NewTable(pd, i, User(flags));
        if t == 0 {
          return;
        }
        pages2 := pages + {t};
      } else if User(flags) && !User(pde) {
        return;
      }
      if t == 0 {
        return;
      }
      mem := StoreWord(mem, 1024 * t + k, MakeEntry(phys / 0x1000, Writable(flags), User(flags)));
      ok := true;
    }

    // elf_memcpy and elf_memset into frames
    method Store(dst: nat, bytes: seq<byte>)
      requires |mem| == LIMIT && dst + |bytes| <= LIMIT
      modifies this`mem
      ensures mem == Splice(old(mem), dst, bytes)
    {
      ghost var before := mem;
      for i := 0 to |bytes|
        invariant |mem| == LIMIT
        invariant forall x :: 0 <= x < LIMIT ==> mem[x] == if dst <= x < dst + i then bytes[x - dst] else before[x]
      {
        mem := mem[dst + i := bytes[i]];
      }
      assert mem == Splice(before, dst, bytes);
    }

    // One more page of a region. It fails only when its 4 MiB window has no table and there is no
    // memory for one.
    method MapNext(pd: nat, start: nat, i: nat, frame: nat, flags: u32,
                   ghost pages: set<nat>, ghost file: seq<byte>, ghost ls: seq<Placed>)
        returns (ok: bool, ghost pages2: set<nat>)
      requires Valid() && pages <= used && User(flags) && flags < 8 && start + i < USER_PAGES && frame + i < 1024
      requires Space(mem, pd, pages, next, file, ls, [Region(start, i, frame, Writable(flags))])
      requires SharesKernel(mem, pd, kernelPd)
      requires forall k :: 0 <= k < |ls| ==> !InSegment(ls[k].ph, start + i)
      modifies this`mem, this`allocs, this`used
      ensures Valid() && pages2 <= used
      ensures var w, before := (start + i) / 1024, Tables(old(mem), pd);
              && (ok <==> w in before || kmalloc(old(allocs)) != 0)
              && (ok ==> && Tables(mem, pd) == before + {w}
                         && allocs == if w in before then old(allocs) else old(allocs) + 1)
      ensures ok ==> Space(mem, pd, pages2, next, file, ls, [Region(start, i + 1, frame, Writable(flags))])
      ensures ok ==> SharesKernel(mem, pd, kernelPd)
      ensures Spared(old(mem), pages, old(used), mem, pages2, used, LIMIT)
    {
      hide Word, MapPage, PagesAfter, Space, Translate, Writable, Tables;
      ghost var m, raw := mem, kmalloc(allocs);
      SpaceTables(m, pd, pages, next, file, ls, [Region(start, i, frame, Writable(flags))]);
      WindowTaken(m, pd, start + i);
      GrantIsFresh(kmalloc, allocs, used);
      MapPageSucceeds(m, pd, pages, 4096 * (start + i), 4096 * (frame + i), flags, raw);
      MapPageSpares(m, pd, pages, used, 4096 * (start + i), 4096 * (frame + i), flags, raw);
      ok, pages2 := MapOne(pd, 4096 * (start + i), 4096 * (frame + i), flags, pages);
      if ok {
        MapPageTables(m, pd, pages, 4096 * (start + i), 4096 * (frame + i), flags, raw);
        SpaceMapsOn(m, pd, pages, next, file, ls, Region(start, i, frame, Writable(flags)), flags, raw);
        KernelStillShared(m, pd, pages, 4096 * (start + i), 4096 * (frame + i), flags, raw, kernelPd);
      }
    }

    // Map `count` pages from page `start` on consecutive frames from `frame` on.
    method MapRegion(pd: nat, start: nat, count: nat, frame: nat, flags: u32,
                     ghost pages: set<nat>, ghost file: seq<byte>, ghost ls: seq<Placed>)
        returns (ok: bool, ghost pages2: set<nat>)
      requires Valid() && pages <= used && User(flags) && flags < 8
      requires start + count <= USER_PAGES && frame + count <= 1024
      requires Space(mem, pd, pages, next, file, ls, [Region(start, 0, frame, Writable(flags))])
      requires SharesKernel(mem, pd, kernelPd)
      requires forall i, p :: 0 <= i < |ls| && start <= p < start + count ==> !InSegment(ls[i].ph, p)
      modifies this`mem, this`allocs, this`used
      ensures Valid() && pages2 <= used
      ensures var before := Tables(old(mem), pd);
              && var after := before + Windows(start, start + count);
              && (ok <==> Supplied(kmalloc, old(allocs), before, after))
              && (ok ==> allocs == old(allocs) + Grown(before, after) && Tables(mem, pd) == after)
      ensures ok ==> Space(mem, pd, pages2, next, file, ls, [Region(start, count, frame, Writable(flags))])
      ensures ok ==> SharesKernel(mem, pd, kernelPd)
      ensures Spared(old(mem), pages, old(used), mem, pages2, used, LIMIT)
    {
      hide Space, SharesKernel, Writable, Taken, Tables, Windows, Supplied, Grown, Spared;
      pages2 := pages;
      NothingChanged(mem, pages, used, LIMIT);
      SpaceTables(mem, pd, pages, next, file, ls, [Region(start, 0, frame, Writable(flags))]);
      ghost var before := Tables(mem, pd);
      NothingMapped(mem, pd, kmalloc, allocs, start);
      for i := 0 to count
        invariant Valid() && pages2 <= used && Taken(mem, pd, kmalloc, old(allocs), allocs, before, start, i)
        invariant Space(mem, pd, pages2, next, file, ls, [Region(start, i, frame, Writable(flags))])
        invariant SharesKernel(mem, pd, kernelPd)
        invariant Spared(old(mem), pages, old(used), mem, pages2, used, LIMIT)
      {
        ghost var m, from, mine, all := mem, allocs, pages2, used;
        ok, pages2 := MapNext(pd, start, i, frame, flags, pages2, file, ls);
        SparedAgain(old(mem), pages, old(used), LIMIT, m, mine, all, LIMIT, mem, pages2, used);
        if !ok {
          MapRefused(m, pd, kmalloc, old(allocs), from, before, start, i, count);
          return;
        }
        TakenGoesOn(m, mem, pd, kmalloc, old(allocs), from, allocs, before, start, i);
      }
      TakenDone(mem, pd, kmalloc, old(allocs), allocs, before, start, count);
      ok := true;
    }

    // Copy the initialised data, zero the rest.
    method FillSegment(file: seq<byte>, ghost l: Placed, dst: nat, ph: Phdr)
      requires |mem| == LIMIT && l.ph == ph && dst == 4096 * l.frame + ph.vaddr % 4096
      requires ph.filesz <= ph.memsz && ph.offset + ph.filesz <= |file| && dst + ph.memsz <= LIMIT
      modifies this`mem
      ensures |mem| == LIMIT && Filled(mem, file, l) && forall x :: 0 <= x < 4096 * l.frame ==> mem[x] == old(mem)[x]
    {
      hide Splice;
      FilledBy(mem, file, l);
      Store(dst, file[ph.offset..ph.offset + ph.filesz]);
      Store(dst + ph.filesz, Zeros(ph.memsz - ph.filesz));
    }

    // The rest of elf_load_segment, for a valid segment that is not empty: frames, mappings, bytes.
    method PlaceSegment(pd: nat, file: seq<byte>, ph: Phdr, ghost pages: set<nat>, ghost ls: seq<Placed>)
        returns (ok: bool, ghost pages2: set<nat>, ghost ls2: seq<Placed>)
      requires Valid() && pages <= used && |file| < TWO32 && ValidSegment(ph, |file|) && ph.memsz > 0
      requires Space(mem, pd, pages, next, file, ls, []) && SharesKernel(mem, pd, kernelPd)
      requires forall i, p :: 0 <= i < |ls| && InSegment(ls[i].ph, p) ==> !InSegment(ph, p)
      modifies this
      ensures Valid() && pages2 <= used
      ensures var before := Tables(old(mem), pd);
              && var after := before + Windows(FirstPage(ph), EndPage(ph));
              && (ok <==> && old(next) + 4096 * (EndPage(ph) - FirstPage(ph)) <= LIMIT
                          && Supplied(kmalloc, old(allocs), before, after))
              && (ok ==> allocs == old(allocs) + Grown(before, after) && Tables(mem, pd) == after)
      ensures ok ==> && next == old(next) + 4096 * (EndPage(ph) - FirstPage(ph))
                     && Space(mem, pd, pages2, next, file, ls2, []) && SharesKernel(mem, pd, kernelPd)
                     && Headers(ls2) == Headers(ls) + [ph]
      ensures next >= old(next) && Spared(old(mem), pages, old(used), mem, pages2, used, old(next))
    {
      hide Space, SharesKernel, PlacedOk, Filled, Splice, AlignOk, Headers, Tables, Windows, Supplied, Grown, Spared;
      ok, pages2, ls2 := false, pages, ls;
      NothingChanged(mem, pages, used, next);
      ghost var before := mem;
      ValidatedRange(ph, |file|);
      var range := PageRange(ph).value;
      var start, count := range.first / 4096, (range.end - range.first) / 4096;
      ghost var base := next;
      var frames := AllocFrames(count);
      if frames == 0 {
        return;
      }
      var flags: u32 := USER + if ph.MayWrite() then WRITABLE else 0;
      assert User(flags) && Writable(flags) == ph.MayWrite();
      ghost var l := Placed(ph, frames / 4096);
      SpaceStartsRegion(mem, pd, pages, base, file, ls, Region(start, 0, frames / 4096, ph.MayWrite()), next);
      forall i, p | 0 <= i < |ls| && start <= p < start + count
        ensures !InSegment(ls[i].ph, p)
      {
        assert InSegment(ph, p);
      }
      ok, pages2 := MapRegion(pd, start, count, frames / 4096, flags, pages, file, ls);
      SparedBelow(old(mem), pages, old(used), mem, pages2, used, base);
      if !ok {
        return;
      }
      ghost var m := mem;
      SegmentExtent(ph);
      PlacedBelow(before, pd, pages, base, m, pages2, next, file, ls, RegionOf(l));
      FillSegment(file, l, frames + ph.vaddr % 4096, ph);
      FillSpares(old(mem), pages, old(used), m, pages2, used, base, mem);
      SegmentPlaced(m, mem, pd, pages2, base, next, file, ls, l, kernelPd);
      ls2 := ls + [l];
    }

    // elf_load_segment
    method LoadSegment(pd: nat, file: seq<byte>, ph: Phdr, ghost pages: set<nat>, ghost ls: seq<Placed>)
        returns (ok: bool, ghost pages2: set<nat>, ghost ls2: seq<Placed>)
      requires Valid() && pages <= used && |file| < TWO32
      requires Space(mem, pd, pages, next, file, ls, []) && SharesKernel(mem, pd, kernelPd)
      requires ValidSegment(ph, |file|) && ph.memsz > 0 ==>
                 forall i, p :: 0 <= i < |ls| && InSegment(ls[i].ph, p) ==> !InSegment(ph, p)
      modifies this
      ensures Valid() && pages2 <= used
      ensures var before := Tables(old(mem), pd);
              && var after := before + SegmentWindows([ph]);
              && (ok <==> && ValidSegment(ph, |file|) && old(next) + 4096 * PageCount([ph]) <= LIMIT
                          && Supplied(kmalloc, old(allocs), before, after))
              && (ok ==> allocs == old(allocs) + Grown(before, after) && Tables(mem, pd) == after)
      ensures ok ==> && next == old(next) + 4096 * PageCount([ph])
                     && Space(mem, pd, pages2, next, file, ls2, []) && SharesKernel(mem, pd, kernelPd)
                     && Headers(ls2) == Headers(ls) + if ph.memsz > 0 then [ph] else []
      ensures next >= old(next) && Spared(old(mem), pages, old(used), mem, pages2, used, old(next))
    {
      hide Space, SharesKernel, PlacedOk, Filled, Splice, AlignOk, Headers, Tables, Windows, SegmentWindows, Supplied,
           Grown, PageCount, Spared;
      ok, pages2, ls2 := false, pages, ls;
      NothingChanged(mem, pages, used, next);
      ghost var before := mem;
      CountOne(ph);
      OneSegmentWindows(ph);
      if !ValidSegment(ph, |file|) {
        return;
      }
      if ph.memsz == 0 {
        SpaceTables(mem, pd, pages, next, file, ls, []);
        NothingNeeded(kmalloc, allocs, Tables(mem, pd));
        return true, pages2, ls2;
      }
      ok, pages2, ls2 := PlaceSegment(pd, file, ph, pages, ls);
    }

    // The second pass of user_prog_exec.
    method LoadSegments(pd: nat, file: seq<byte>, ghost pages: set<nat>)
        returns (ok: bool, ghost pages2: set<nat>, ghost ls: seq<Placed>)
      requires Valid() && pages <= used && |file| < TWO32 && Acceptable(file)
      requires Space(mem, pd, pages, next, file, [], []) && SharesKernel(mem, pd, kernelPd)
      modifies this
      ensures Valid() && pages2 <= used
      ensures var before := Tables(old(mem), pd);
              && var after := before + SegmentWindows(Loadable(file, PhNum(file)));
              && (ok <==> && old(next) + 4096 * PageCount(Loadable(file, PhNum(file))) <= LIMIT
                          && Supplied(kmalloc, old(allocs), before, after))
              && (ok ==> allocs == old(allocs) + Grown(before, after) && Tables(mem, pd) == after)
      ensures ok ==> next == old(next) + 4096 * PageCount(Loadable(file, PhNum(file)))
      ensures ok ==> Space(mem, pd, pages2, next, file, ls, []) && SharesKernel(mem, pd, kernelPd)
      ensures ok ==> Headers(ls) == Loadable(file, PhNum(file))
      ensures next >= old(next) && Spared(old(mem), pages, old(used), mem, pages2, used, old(next))
    {
      hide Spared;
      hide Word, Space, SharesKernel, Ph, Le16, Le32, ValidSegment, Overlap, Headers, InSegment, Tables, Windows;
      hide SegmentWindows, Supplied, Grown, PageCount, AllGranted, Acceptable, HeaderOk;
      AcceptableHeader(file);
      ok, pages2, ls := true, pages, [];
      NothingChanged(mem, pages, used, next);
      assert Headers([]) == [];
      SpaceTables(mem, pd, pages, next, file, [], []);
      ghost var before := Tables(mem, pd);
      NothingNeeded(kmalloc, allocs, before);
      NoSegments(file);
      for i := 0 to PhNum(file)
        invariant Valid() && pages2 <= used && AllGranted(kmalloc, old(allocs), allocs)
        invariant Tables(mem, pd) == before + SegmentWindows(Loadable(file, i))
        invariant allocs == old(allocs) + Grown(before, before + SegmentWindows(Loadable(file, i)))
        invariant next == old(next) + 4096 * PageCount(Loadable(file, i))
        invariant Space(mem, pd, pages2, next, file, ls, []) && SharesKernel(mem, pd, kernelPd)
        invariant Headers(ls) == Loadable(file, i)
        invariant next >= old(next) && Spared(old(mem), pages, old(used), mem, pages2, used, old(next))
      {
        var ph := Ph(file, i);
        CountGrows(file, i);
        WindowsGrow(file, i);
        if ph.kind == PT_LOAD {
          ClearOfPlaced(file, ls, i);
          ghost var at, here := allocs, Tables(mem, pd);
          ghost var m, mine, all, base := mem, pages2, used, next;
          ok, pages2, ls := LoadSegment(pd, file, ph, pages2, ls);
          SparedAgain(old(mem), pages, old(used), old(next), m, mine, all, base, mem, pages2, used);
          RequestsAddUp(kmalloc, old(allocs), at, before, here, SegmentWindows([ph]),
                        before + SegmentWindows(Loadable(file, PhNum(file))));
          if !ok {
            return;
          }
        }
      }
      SuppliedExactly(kmalloc, old(allocs), before, Tables(mem, pd));
      ok := true;
    }

    // The user stack: four fresh frames just below its top.
    method MapStack(pd: nat, file: seq<byte>, ghost pages: set<nat>, ghost ls: seq<Placed>)
        returns (ok: bool, ghost pages2: set<nat>, ghost stack: nat)
      requires Valid() && pages <= used && |file| < TWO32 && Acceptable(file)
      requires Space(mem, pd, pages, next, file, ls, []) && SharesKernel(mem, pd, kernelPd)
      requires Headers(ls) == Loadable(file, PhNum(file))
      modifies this
      ensures Valid()
      ensures var before := Tables(old(mem), pd);
              && var after := before + Windows(STACK, STACK + STACK_PAGES);
              && (ok <==> && old(next) + 4096 * STACK_PAGES <= LIMIT
                          && Supplied(kmalloc, old(allocs), before, after))
              && (ok ==> allocs == old(allocs) + Grown(before, after))
      ensures ok ==> next == old(next) + 4096 * STACK_PAGES
      ensures ok ==> Complete(mem, pd, pages2, next, file, ls, stack) && SharesKernel(mem, pd, kernelPd)
      ensures ok ==> 4096 * (stack + STACK_PAGES) <= next && pages2 <= used
      ensures next >= old(next) && Spared(old(mem), pages, old(used), mem, pages2, used, old(next))
    {
      hide Spared;
      hide Word, Space, SharesKernel, Acceptable, Headers, Loadable, Le16, Le32, InSegment, Tables, Windows, Supplied,
           Grown;
      ok, pages2, stack := false, pages, 0;
      ghost var base := next;
      NothingChanged(mem, pages, used, next);
      FramesBelow(mem, pd, pages, next, file, ls);
      var frames := AllocFrames(STACK_PAGES);
      if frames == 0 {
        return;
      }
      assert User(6) && Writable(6);
      SpaceStartsRegion(mem, pd, pages, base, file, ls, Region(STACK, 0, frames / 4096, true), next);
      StackIsClear(file, ls);
      ok, pages2 := MapRegion(pd, STACK, STACK_PAGES, frames / 4096, WRITABLE + USER, pages, file, ls);
      SparedBelow(old(mem), pages, old(used), mem, pages2, used, base);
      stack := frames / 4096;
    }

    // user_prog_exec up to the launch: both passes and the stack. It succeeds exactly when the
    // file is acceptable, the heap answers every request and the frames suffice; then the
    // program's whole image is in place.
    method LoadProgram(file: seq<byte>) returns (ok: bool, pd: nat, ghost pages: set<nat>)
      requires Valid() && |file| < TWO32
      modifies this
      ensures Valid()
      ensures ok <==> && Acceptable(file) && AllGranted(kmalloc, old(allocs), old(allocs) + 1 + |FileWindows(file)|)
                      && old(next) + 4096 * (PageCount(Loadable(file, PhNum(file))) + STACK_PAGES) <= LIMIT
      ensures ok ==> next == old(next) + 4096 * (PageCount(Loadable(file, PhNum(file))) + STACK_PAGES)
      ensures ok ==> allocs == old(allocs) + 1 + |FileWindows(file)|
      ensures ok ==> && WellFormed(mem, pd, pages)
                     && ImageLoaded(mem, pd, file) && UserPagesExact(mem, pd, file)
                     && OwnFrames(mem, pd) && SharesKernel(mem, pd, kernelPd)
      ensures ok ==> Loaded(mem, pd, pages, next, kernelPd, file) && pages <= used && pages !! old(used)
      ensures next >= old(next) && Spared(old(mem), {}, old(used), mem, pages, used, old(next))
      ensures forall pd0, pages0, file0 ::
                Loaded(old(mem), pd0, pages0, old(next), kernelPd, file0) && pages0 <= old(used) ==>
                  Loaded(mem, pd0, pages0, next, kernelPd, file0)
    {
      ok, pd, pages := Load(file);
      hide Loaded;
      forall pd0, pages0, file0 | Loaded(old(mem), pd0, pages0, old(next), kernelPd, file0) && pages0 <= old(used)
        ensures Loaded(mem, pd0, pages0, next, kernelPd, file0)
      {
        LoadedStays(old(mem), mem, old(used), pages, used, old(next), next, kernelPd, pd0, pages0, file0);
      }
    }

    method Load(file: seq<byte>) returns (ok: bool, pd: nat, ghost pages: set<nat>)
      requires Valid() && |file| < TWO32
      modifies this
      ensures Valid()
      ensures ok <==> && Acceptable(file) && AllGranted(kmalloc, old(allocs), old(allocs) + 1 + |FileWindows(file)|)
                      && old(next) + 4096 * (PageCount(Loadable(file, PhNum(file))) + STACK_PAGES) <= LIMIT
      ensures ok ==> next == old(next) + 4096 * (PageCount(Loadable(file, PhNum(file))) + STACK_PAGES)
      ensures ok ==> allocs == old(allocs) + 1 + |FileWindows(file)|
      ensures ok ==> Loaded(mem, pd, pages, next, kernelPd, file) && pages <= used
      ensures next >= old(next) && Spared(old(mem), {}, old(used), mem, pages, used, old(next))
    {
      hide Space, SharesKernel, Acceptable, ImageLoaded, UserPagesExact, OwnFrames, Maps, Complete, Headers, Loadable;
      hide WellFormed, HeaderOk, Tables, Windows, SegmentWindows, Supplied, AllGranted, PageCount, Le16, Spared;
      hide FramesTaken;
      ok, pd, pages := false, 0, {};
      NothingChanged(mem, {}, used, next);
      var accepted := FirstPass(file);
      if !accepted {
        return;
      }
      AcceptableHeader(file);
      ghost var segments := SegmentWindows(Loadable(file, PhNum(file)));
      ProgramSupplied(kmalloc, allocs, segments, Windows(STACK, STACK + STACK_PAGES));
      assert {} + segments == segments;
      pd := CreatePd();
      SparedBelow(old(mem), {}, old(used), mem, if pd != 0 then {pd} else {}, used, next);
      if pd == 0 {
        return;
      }
      pages := {pd};
      NothingPlaced(mem, pd, next, file);
      ghost var ls, stack;
      ghost var m, mine, all, base := mem, pages, used, next;
      ok, pages, ls := LoadSegments(pd, file, {pd});
      SparedAgain(old(mem), {}, old(used), old(next), m, mine, all, base, mem, pages, used);
      if ok {
        m, mine, all, base := mem, pages, used, next;
        ok, pages, stack := MapStack(pd, file, pages, ls);
        SparedAgain(old(mem), {}, old(used), old(next), m, mine, all, base, mem, pages, used);
        if ok {
          CompleteBelow(mem, pd, pages, next, file, ls, stack);
          CompleteReads(mem, pd, pages, next, file, ls, stack);
          CompleteExact(mem, pd, pages, next, file, ls, stack);
          CompleteOwnsFrames(mem, pd, pages, next, file, ls, stack);
          CompleteDirectory(mem, pd, pages, next, file, ls, stack);
        }
      }
    }
  }

  lemma {:induction false} StoreZero(mem: seq<byte>, n: nat)
    requires 4 * n + 4 <= |mem|
    ensures forall x :: 4 * n <= x < 4 * n + 4 ==> StoreWord(mem, n, 0)[x] == 0
  {
    var r := StoreWord(mem, n, 0);
    assert Le32Bytes(0) == [0, 0, 0, 0];
    forall x | 4 * n <= x < 4 * n + 4
      ensures r[x] == 0
    {
      assert r[4 * n + (x - 4 * n)] == Le32Bytes(0)[x - 4 * n];
    }
  }
}

/**
 The kernel's checks on user addresses, and its copies to and from user memory.
 */
module UserAccess {
  import opened Bytes
  import opened Common
  import opened PageTables
  import opened Elf
  import opened Loader

  // Page tables lie in the window through which the kernel reaches physical memory.
  ghost predicate TablesReached(mem: seq<byte>, pd: nat) {
    && |mem| == LIMIT && pd < 1024
    && forall i :: 0 <= i < HIGHER && HasTable(mem, pd, i) ==> PageOf(Pde(mem, pd, i)) < 1024
  }

  // paging_user_page_accessible
  predicate Accessible(mem: seq<byte>, pd: nat, v: nat, writing: bool)
    requires |mem| == LIMIT && pd < 1024 && v < USER_PAGES
    requires HasTable(mem, pd, v / 1024) ==> PageOf(Pde(mem, pd, v / 1024)) < 1024
  {
    var pde := Pde(mem, pd, v / 1024);
    && Present(pde) && User(pde) && !Large(pde) && (writing ==> Writable(pde))
    && PageOf(pde) != 0
    && var pte := Word(mem, 1024 * PageOf(pde) + v % 1024);
       Present(pte) && User(pte) && (writing ==> Writable(pte))
  }

  lemma {:induction false} TablesOfSpace(mem: seq<byte>, pd: nat, pages: set<nat>)
    requires WellFormed(mem, pd, pages)
    ensures TablesReached(mem, pd) && pd != 0
  {
    hide Word, Large;
    forall i | 0 <= i < HIGHER && HasTable(mem, pd, i)
      ensures PageOf(Pde(mem, pd, i)) < 1024
    {
    }
  }

  // The check agrees with the processor: user code may read (write) there.
  lemma {:induction false} AccessibleIsUserMapping(mem: seq<byte>, pd: nat, pages: set<nat>, v: nat, writing: bool)
    requires WellFormed(mem, pd, pages) && v < USER_PAGES
    ensures TablesReached(mem, pd)
    ensures Accessible(mem, pd, v, writing) <==>
              && Translate(mem, pd, v).Some? && Translate(mem, pd, v).value.user
              && (writing ==> Translate(mem, pd, v).value.writable)
  {
    hide Word;
    TablesOfSpace(mem, pd, pages);
    assert !Large(Pde(mem, pd, v / 1024));
    if Present(Pde(mem, pd, v / 1024)) { assert HasTable(mem, pd, v / 1024); }
  }

  // All pages of the bytes [vaddr, vaddr + len).
  ghost predicate PagesAccessible(mem: seq<byte>, pd: nat, vaddr: nat, len: nat, writing: bool)
    requires TablesReached(mem, pd) && len > 0 && vaddr + len <= USER_MAX
  {
    forall p :: vaddr / 4096 <= p <= (vaddr + len - 1) / 4096 ==> Accessible(mem, pd, p, writing)
  }

  ghost predicate InUserHalf(vaddr: u32, len: u32) {
    USER_MIN <= vaddr < USER_MAX && len <= USER_MAX - vaddr
  }

  // paging_validate_user_range on the directory `pd` (0: none loaded)
  method ValidateUserRange(mem: seq<byte>, pd: nat, vaddr: u32, len: u32, writing: bool) returns (ok: bool)
    requires |mem| == LIMIT && pd < 1024 && (pd != 0 ==> TablesReached(mem, pd))
    ensures ok <==> len == 0 || (pd != 0 && InUserHalf(vaddr, len) && PagesAccessible(mem, pd, vaddr, len, writing))
  {
    if len == 0 {
      return true;
    }
    if vaddr < USER_MIN || vaddr >= USER_MAX || len > USER_MAX - vaddr || pd == 0 {
      return false;
    }
    hide Accessible;
    var end := vaddr + len;
    var page, last := vaddr / 4096, (end - 1) / 4096;
    while true
      invariant vaddr / 4096 <= page <= last
      invariant forall p :: vaddr / 4096 <= p < page ==> Accessible(mem, pd, p, writing)
      decreases last - page
    {
      if !Accessible(mem, pd, page, writing) {
        return false;
      }
      if page == last {
        break;
      }
      page := page + 1;
    }
    return true;
  }

  // On a space built by the loader, a non-empty range passes exactly when it lies in the user
  // half and all its pages are segment or stack pages (for writing: writable ones).
  lemma {:induction false} LoadedRangeIsExact(mem: seq<byte>, pd: nat, pages: set<nat>, file: seq<byte>,
                                              vaddr: u32, len: u32, writing: bool)
    requires |file| < TWO32 && HeaderOk(file) && WellFormed(mem, pd, pages) && UserPagesExact(mem, pd, file)
    requires len > 0 && InUserHalf(vaddr, len)
    ensures TablesReached(mem, pd)
    ensures PagesAccessible(mem, pd, vaddr, len, writing) <==>
              forall p :: vaddr / 4096 <= p <= (vaddr + len - 1) / 4096 ==>
                StackPage(p) || SegmentPage(file, p, writing)
  {
    hide Accessible, Translate, SegmentPage, Word, Le16, Le32;
    forall p | vaddr / 4096 <= p <= (vaddr + len - 1) / 4096
      ensures Accessible(mem, pd, p, writing) <==> StackPage(p) || SegmentPage(file, p, writing)
    {
      AccessibleIsUserMapping(mem, pd, pages, p, writing);
      WritingIsReading(file, p);
    }
  }

  lemma WritingIsReading(file: seq<byte>, p: nat)
    requires |file| < TWO32 && HeaderOk(file)
    ensures SegmentPage(file, p, true) ==> SegmentPage(file, p, false)
  {
  }

  // ---------------------------------------------------------------- copies

  // The pages user code may read show memory that exists.
  ghost predicate Backed(mem: seq<byte>, pd: nat) {
    && TablesReached(mem, pd)
    && forall p :: 0 <= p < USER_PAGES && Accessible(mem, pd, p, false) ==>
         Translate(mem, pd, p).Some? && Translate(mem, pd, p).value.page < 1024
  }

  // Page `f` of memory is neither the directory nor a table of its user half.
  ghost predicate NoTable(mem: seq<byte>, pd: nat, f: nat)
    requires TablesReached(mem, pd)
  {
    f != pd && forall i :: 0 <= i < HIGHER && HasTable(mem, pd, i) ==> f != PageOf(Pde(mem, pd, i))
  }

  // Nor does a page that user code may write show one of these.
  ghost predicate Apart(mem: seq<byte>, pd: nat) {
    && Backed(mem, pd)
    && forall p :: 0 <= p < USER_PAGES && Accessible(mem, pd, p, true) ==>
         Translate(mem, pd, p).Some? && NoTable(mem, pd, Translate(mem, pd, p).value.page)
  }

  lemma {:induction false} AccessibleMaps(mem: seq<byte>, pd: nat, v: nat, writing: bool)
    requires TablesReached(mem, pd) && v < USER_PAGES && Accessible(mem, pd, v, writing)
    ensures Accessible(mem, pd, v, false)
    ensures var t := Translate(mem, pd, v); t.Some? && t.value.user && (writing ==> t.value.writable)
  {
    hide Word;
  }

  // The frame behind a page that passed the check, as the processor walks to it.
  method FrameOf(mem: seq<byte>, pd: nat, v: nat, ghost writing: bool) returns (frame: nat)
    requires TablesReached(mem, pd) && v < USER_PAGES && Accessible(mem, pd, v, writing)
    ensures var t := Translate(mem, pd, v);
            t.Some? && t.value.user && (writing ==> t.value.writable) && t.value.page == frame
  {
    hide Word;
    frame := PageOf(Word(mem, 1024 * PageOf(Pde(mem, pd, v / 1024)) + v % 1024));
  }

  // The physical byte behind a virtual address, -1 where none is mapped.
  ghost function Place(mem: seq<byte>, pd: nat, va: u32): (x: int)
    requires |mem| == LIMIT && pd < 1024
  {
    match Translate(mem, pd, va / 4096)
    case None => -1
    case Some(m) => 4096 * m.page + va % 4096
  }

  // Physical byte `x` once the bytes of `src` went to `dst`: the last one sent there, if any was.
  ghost function LastStored(mem: seq<byte>, pd: nat, dst: u32, src: seq<byte>, x: nat): (b: byte)
    requires |mem| == LIMIT && pd < 1024 && dst + |src| <= TWO32 && x < LIMIT
    decreases |src|
  {
    if src == [] then mem[x]
    else if Place(mem, pd, dst + |src| - 1) == x then src[|src| - 1]
    else LastStored(mem, pd, dst, src[..|src| - 1], x)
  }

  // The same directory, and the same translation of every user page.
  ghost predicate SameSpace(mem: seq<byte>, after: seq<byte>, pd: nat) {
    && TablesReached(mem, pd) && TablesReached(after, pd)
    && (forall i :: 0 <= i < 1024 ==> Pde(after, pd, i) == Pde(mem, pd, i))
    && (forall p :: 0 <= p < USER_PAGES ==> Translate(after, pd, p) == Translate(mem, pd, p))
    && forall p :: 0 <= p < USER_PAGES ==>
         && Accessible(after, pd, p, false) == Accessible(mem, pd, p, false)
         && Accessible(after, pd, p, true) == Accessible(mem, pd, p, true)
  }

  // Memory after the bytes of `src` went to `dst`.
  ghost predicate Stored(mem: seq<byte>, after: seq<byte>, pd: nat, dst: u32, src: seq<byte>) {
    && SameSpace(mem, after, pd) && dst + |src| <= TWO32
    && forall x :: 0 <= x < LIMIT ==> after[x] == LastStored(mem, pd, dst, src, x)
  }

  lemma {:induction false} NothingStored(mem: seq<byte>, pd: nat, dst: u32)
    requires TablesReached(mem, pd)
    ensures Stored(mem, mem, pd, dst, [])
  {
    hide Translate, Accessible, HasTable;
  }

  // A byte stored outside directory and tables changes no translation.
  lemma {:induction false} ByteKeepsSpace(mem: seq<byte>, pd: nat, at: nat, b: byte)
    requires TablesReached(mem, pd) && at < LIMIT && NoTable(mem, pd, at / 4096)
    ensures SameSpace(mem, mem[at := b], pd)
  {
    hide Word, Translate, Accessible;
    var after := mem[at := b];
    forall i | 0 <= i < 1024
      ensures Pde(after, pd, i) == Pde(mem, pd, i)
    {
      WordKept(mem, after, 1024 * pd + i);
    }
    assert TablesReached(after, pd) by {
      forall i | 0 <= i < HIGHER && HasTable(after, pd, i)
        ensures PageOf(Pde(after, pd, i)) < 1024
      {
        assert HasTable(mem, pd, i);
      }
    }
    forall p | 0 <= p < USER_PAGES
      ensures Translate(after, pd, p) == Translate(mem, pd, p)
      ensures Accessible(after, pd, p, false) == Accessible(mem, pd, p, false)
      ensures Accessible(after, pd, p, true) == Accessible(mem, pd, p, true)
    {
      if HasTable(mem, pd, p / 1024) {
        WordKept(mem, after, 1024 * PageOf(Pde(mem, pd, p / 1024)) + p % 1024);
      }
      SameEntries(mem, after, pd, p);
    }
  }

  lemma SameEntries(mem: seq<byte>, after: seq<byte>, pd: nat, p: nat)
    requires TablesReached(mem, pd) && TablesReached(after, pd) && p < USER_PAGES
    requires Pde(after, pd, p / 1024) == Pde(mem, pd, p / 1024)
    requires var q := PageOf(Pde(mem, pd, p / 1024));
             HasTable(mem, pd, p / 1024) ==> Word(after, 1024 * q + p % 1024) == Word(mem, 1024 * q + p % 1024)
    ensures Translate(after, pd, p) == Translate(mem, pd, p)
    ensures Accessible(after, pd, p, false) == Accessible(mem, pd, p, false)
    ensures Accessible(after, pd, p, true) == Accessible(mem, pd, p, true)
  {
    hide Word;
  }

  lemma {:induction false} SameAgain(mem: seq<byte>, mid: seq<byte>, after: seq<byte>, pd: nat)
    requires SameSpace(mem, mid, pd) && SameSpace(mid, after, pd)
    ensures SameSpace(mem, after, pd)
  {
    hide Translate, Accessible, Pde, HasTable;
  }

  // One more byte.
  lemma {:induction false} NextStored(mem: seq<byte>, mid: seq<byte>, pd: nat, dst: u32, src: seq<byte>, b: byte)
    requires Stored(mem, mid, pd, dst, src) && dst + |src| < USER_MAX && |mem| == |mid| == LIMIT && pd < 1024
    requires TablesReached(mid, pd) && 0 <= Place(mid, pd, dst + |src|) < LIMIT
    requires NoTable(mid, pd, Place(mid, pd, dst + |src|) / 4096)
    ensures Stored(mem, mid[Place(mid, pd, dst + |src|) := b], pd, dst, src + [b])
  {
    hide Translate, Accessible, HasTable, NoTable, TablesReached;
    var at := Place(mid, pd, dst + |src|);
    var after := mid[at := b];
    ByteKeepsSpace(mid, pd, at, b);
    SameAgain(mem, mid, after, pd);
    assert at == Place(mem, pd, dst + |src|);
    forall x | 0 <= x < LIMIT
      ensures after[x] == LastStored(mem, pd, dst, src + [b], x)
    {
      assert (src + [b])[..|src|] == src;
    }
  }

  // Where the next byte goes is as it was at first.
  lemma {:induction false} NextPlace(mem: seq<byte>, mid: seq<byte>, pd: nat, va: u32)
    requires SameSpace(mem, mid, pd) && Apart(mem, pd) && va < USER_MAX && Accessible(mem, pd, va / 4096, true)
    ensures |mid| == LIMIT && pd < 1024 && TablesReached(mid, pd) && Accessible(mid, pd, va / 4096, true)
    ensures 0 <= Place(mid, pd, va) < LIMIT && NoTable(mid, pd, Place(mid, pd, va) / 4096)
  {
    hide Translate, Accessible;
    AccessibleMaps(mem, pd, va / 4096, true);
  }

  // The byte that ends up where `src[i]` went is the last of those sent to that place.
  lemma {:induction false} LastOf(mem: seq<byte>, pd: nat, dst: u32, src: seq<byte>, i: nat) returns (k: nat)
    requires |mem| == LIMIT && pd < 1024 && dst + |src| <= TWO32 && i < |src|
    requires 0 <= Place(mem, pd, dst + i) < LIMIT
    ensures i <= k < |src| && Place(mem, pd, dst + k) == Place(mem, pd, dst + i)
    ensures LastStored(mem, pd, dst, src, Place(mem, pd, dst + i)) == src[k]
    decreases |src|
  {
    hide Place;
    k := |src| - 1;
    if Place(mem, pd, dst + k) != Place(mem, pd, dst + i) {
      var shorter := src[..k];
      k := LastOf(mem, pd, dst, shorter, i);
    }
  }

  // Frames may be shared. The bytes copied out are all read back exactly when those that went
  // to one place were equal.
  lemma {:induction false} ReadBackIff(mem: seq<byte>, after: seq<byte>, pd: nat, dst: u32, src: seq<byte>)
    requires Stored(mem, after, pd, dst, src) && Backed(mem, pd) && |after| == LIMIT
    requires 0 < |src| < TWO32 && InUserHalf(dst, |src|) && PagesAccessible(mem, pd, dst, |src|, true)
    ensures (forall i :: 0 <= i < |src| ==> ReadUser(after, pd, dst + i) == Some(src[i])) <==>
            (forall i, j :: 0 <= i < j < |src| && Place(mem, pd, dst + i) == Place(mem, pd, dst + j) ==>
              src[i] == src[j])
  {
    hide Accessible, Translate, LastStored, Stored, PagesAccessible, Place, ReadUser;
    if forall i :: 0 <= i < |src| ==> ReadUser(after, pd, dst + i) == Some(src[i]) {
      forall i, j | 0 <= i < j < |src| && Place(mem, pd, dst + i) == Place(mem, pd, dst + j)
        ensures src[i] == src[j]
      {
        ReadsStored(mem, after, pd, dst, src, i);
        ReadsStored(mem, after, pd, dst, src, j);
      }
    }
    if forall i, j :: 0 <= i < j < |src| && Place(mem, pd, dst + i) == Place(mem, pd, dst + j) ==> src[i] == src[j] {
      forall i | 0 <= i < |src|
        ensures ReadUser(after, pd, dst + i) == Some(src[i])
      {
        ReadsStored(mem, after, pd, dst, src, i);
        var k := LastOf(mem, pd, dst, src, i);
      }
    }
  }

  lemma {:induction false} ReadsStored(mem: seq<byte>, after: seq<byte>, pd: nat, dst: u32, src: seq<byte>, i: nat)
    requires Stored(mem, after, pd, dst, src) && Backed(mem, pd) && |after| == LIMIT
    requires |src| < TWO32 && InUserHalf(dst, |src|) && i < |src| && PagesAccessible(mem, pd, dst, |src|, true)
    ensures 0 <= Place(mem, pd, dst + i) < LIMIT
    ensures ReadUser(after, pd, dst + i) == Some(LastStored(mem, pd, dst, src, Place(mem, pd, dst + i)))
  {
    hide Accessible, Translate, LastStored;
    AccessibleMaps(mem, pd, (dst + i) / 4096, true);
  }

  // ---------------------------------------------------------------- a shared frame

  // A page of zeros is an empty directory.
  ghost function BlankMemory(): (mem: seq<byte>)
    ensures |mem| == LIMIT
  {
    seq(LIMIT, _ => 0)
  }

  // Virtual page 1 mapped to the first frame, user and writable, in an empty directory; then
  // virtual page 2 to the same frame.
  ghost function FirstMapped(): (r: Mapped) {
    BlankIsEmpty();
    MapPage(BlankMemory(), 1, 0x1000, PMM_BASE, 6, 0x2000)
  }

  ghost function SharedMemory(): (mem: seq<byte>)
    ensures |mem| == LIMIT
  {
    FirstShared();
    MapPage(FirstMapped().mem, 1, 0x2000, PMM_BASE, 6, 0).mem
  }

  lemma {:induction false} BlankIsEmpty()
    ensures WellFormed(BlankMemory(), 1, {1})
    ensures forall i :: 0 <= i < 1024 ==> Pde(BlankMemory(), 1, i) == 0
    ensures forall p :: 0 <= p < 0x10_0000 ==> Translate(BlankMemory(), 1, p) == None
  {
    forall i | 0 <= i < 1024
      ensures Pde(BlankMemory(), 1, i) == 0
    {
    }
  }

  lemma {:induction false} FirstShared()
    ensures var m := FirstMapped();
            && m.ok && WellFormed(m.mem, 1, {1, 2}) && Present(Pde(m.mem, 1, 0)) && User(Pde(m.mem, 1, 0))
            && PageOf(Pde(m.mem, 1, 0)) < 1024
            && forall p :: 0 <= p < 0x10_0000 ==>
                 Translate(m.mem, 1, p) == if p == 1 then Some(Mapping(HEAP_PAGES, true, true)) else None
  {
    hide MapPage, Translate, WellFormed, Word;
    var mem := BlankMemory();
    BlankIsEmpty();
    MapPageSucceeds(mem, 1, {1}, 0x1000, PMM_BASE, 6, 0x2000);
    MapPageUpdatesOnePage(mem, 1, {1}, 0x1000, PMM_BASE, 6, 0x2000);
    MapPagePresent(mem, 1, {1}, 0x1000, PMM_BASE, 6, 0x2000, 0);
    MapPageKeepsUserHalf(mem, 1, {1}, 0x1000, PMM_BASE, 6, 0x2000, 0);
    assert {1} + {2} == {1, 2};
    assert PageOf(Pde(FirstMapped().mem, 1, 0)) < 1024 by { FirstTable(); }
  }

  lemma FirstTable()
    requires WellFormed(FirstMapped().mem, 1, {1, 2}) && Present(Pde(FirstMapped().mem, 1, 0))
    ensures PageOf(Pde(FirstMapped().mem, 1, 0)) < 1024
  {
    hide FirstMapped, Word;
  }

  lemma {:induction false} SharedIs()
    ensures WellFormed(SharedMemory(), 1, {1, 2})
    ensures forall p :: 0 <= p < 0x10_0000 ==>
              Translate(SharedMemory(), 1, p) == if p in {1, 2} then Some(Mapping(HEAP_PAGES, true, true)) else None
  {
    hide MapPage, Translate, WellFormed, Word, FirstMapped;
    FirstShared();
    var mem := FirstMapped().mem;
    MapPageSucceeds(mem, 1, {1, 2}, 0x2000, PMM_BASE, 6, 0);
    MapPageUpdatesOnePage(mem, 1, {1, 2}, 0x2000, PMM_BASE, 6, 0);
  }

  // A copy of 4097 bytes to these pages is accepted; its first byte is read back only if the last,
  // which goes to the same place, equals it.
  lemma {:induction false} SharedFrameLoses(after: seq<byte>, src: seq<byte>)
    requires Stored(SharedMemory(), after, 1, 0x1000, src) && |src| == 4097 && src[0] != src[4096]
    ensures Apart(SharedMemory(), 1) && PagesAccessible(SharedMemory(), 1, 0x1000, |src|, true)
    ensures |after| == LIMIT && exists i :: 0 <= i < |src| && ReadUser(after, 1, 0x1000 + i) != Some(src[i])
  {
    hide Translate, Accessible, LastStored, ReadUser, SharedMemory;
    var mem := SharedMemory();
    SharedFits();
    assert Place(mem, 1, 0x1000 + 0) == Place(mem, 1, 0x1000 + 4096) by { SharedIs(); }
    ReadBackIff(mem, after, 1, 0x1000, src);
  }

  lemma {:induction false} SharedFits()
    ensures Apart(SharedMemory(), 1) && PagesAccessible(SharedMemory(), 1, 0x1000, 4097, true)
  {
    hide Translate, Accessible, SharedMemory, Word;
    var mem := SharedMemory();
    SharedIs();
    TablesOfSpace(mem, 1, {1, 2});
    forall p, writing | 0 <= p < USER_PAGES
      ensures Accessible(mem, 1, p, writing) <==> p in {1, 2}
    {
      AccessibleIsUserMapping(mem, 1, {1, 2}, p, writing);
    }
  }

  // ---------------------------------------------------------------- a frame to every page

  // The space after the bytes of `src` went to `dst`: same tables, same translation, and user
  // code reads those bytes there and what it read before everywhere else.
  ghost predicate Delivered(mem: seq<byte>, after: seq<byte>, pd: nat, pages: set<nat>, dst: u32, src: seq<byte>) {
    && |mem| == LIMIT && WellFormed(after, pd, pages) && OwnFrames(after, pd)
    && (forall p :: 0 <= p < 0x10_0000 ==> Translate(after, pd, p) == Translate(mem, pd, p))
    && forall va :: 0 <= va < USER_MAX ==>
         ReadUser(after, pd, va) == if dst <= va < dst + |src| then Some(src[va - dst]) else ReadUser(mem, pd, va)
  }

  // With a frame to every page, a place belongs to one user address.
  lemma {:induction false} OwnPlace(mem: seq<byte>, pd: nat, dst: u32, src: seq<byte>, va: nat)
    requires OwnFrames(mem, pd) && dst + |src| <= TWO32 && (src == [] || dst + |src| <= USER_MAX)
    requires va < USER_MAX && 0 <= Place(mem, pd, va) < LIMIT
    ensures LastStored(mem, pd, dst, src, Place(mem, pd, va)) ==
              if dst <= va < dst + |src| then src[va - dst] else mem[Place(mem, pd, va)]
    decreases |src|
  {
    hide Translate;
    if src != [] {
      var k := |src| - 1;
      OwnPlace(mem, pd, dst, src[..k], va);
      if dst + k != va {
        PlacesDiffer(mem, pd, dst + k, va);
      }
    }
  }

  lemma {:induction false} PlacesDiffer(mem: seq<byte>, pd: nat, a: nat, b: nat)
    requires OwnFrames(mem, pd) && a < USER_MAX && b < USER_MAX && a != b && 0 <= Place(mem, pd, b)
    ensures Place(mem, pd, a) != Place(mem, pd, b)
  {
    hide Translate;
  }

  // All of it goes to the frame area.
  lemma {:induction false} HeapUntouched(mem: seq<byte>, pd: nat, dst: u32, src: seq<byte>, x: nat)
    requires OwnFrames(mem, pd) && dst + |src| <= TWO32 && (src == [] || dst + |src| <= USER_MAX)
    requires x < 4096 * HEAP_PAGES
    ensures LastStored(mem, pd, dst, src, x) == mem[x]
    decreases |src|
  {
    hide Translate;
    if src != [] {
      var k := |src| - 1;
      HeapUntouched(mem, pd, dst, src[..k], x);
      assert Place(mem, pd, dst + k) != x;
    }
  }

  // Then the copy shows at the addresses it was sent to and nowhere else.
  lemma {:induction false} OwnFramesDeliver(mem: seq<byte>, after: seq<byte>, pd: nat, pages: set<nat>, dst: u32,
                                            src: seq<byte>)
    requires WellFormed(mem, pd, pages) && Stored(mem, after, pd, dst, src) && OwnFrames(mem, pd)
    requires |src| < TWO32
    requires src == [] || (InUserHalf(dst, |src|) && PagesAccessible(mem, pd, dst, |src|, true))
    ensures Delivered(mem, after, pd, pages, dst, src)
  {
    hide Accessible, Translate, LastStored, WellFormed;
    forall x | 0 <= x < 4096 * HEAP_PAGES
      ensures after[x] == mem[x]
    {
      HeapUntouched(mem, pd, dst, src, x);
    }
    FramesKeepTables(mem, after, pd, pages);
    forall va | 0 <= va < USER_MAX
      ensures ReadUser(after, pd, va) == if dst <= va < dst + |src| then Some(src[va - dst]) else ReadUser(mem, pd, va)
    {
      if dst <= va < dst + |src| {
        AccessibleMaps(mem, pd, va / 4096, true);
      }
      if Translate(mem, pd, va / 4096).Some? {
        OwnPlace(mem, pd, dst, src, va);
      }
    }
  }

  // Tables below, frames above: such a space is fit for copies.
  lemma {:induction false} OwnFramesApart(mem: seq<byte>, pd: nat, pages: set<nat>)
    requires WellFormed(mem, pd, pages) && OwnFrames(mem, pd)
    ensures Apart(mem, pd)
  {
    hide Translate, Accessible, Word;
    TablesOfSpace(mem, pd, pages);
    forall p, writing | 0 <= p < USER_PAGES && Accessible(mem, pd, p, writing)
      ensures Translate(mem, pd, p).Some? && HEAP_PAGES <= Translate(mem, pd, p).value.page < 1024
    {
      AccessibleMaps(mem, pd, p, writing);
    }
  }

  // What was copied out to a writable range is accepted and read back by a copy in, byte by byte.
  lemma {:induction false} CopyBack(mem: seq<byte>, after: seq<byte>, pd: nat, pages: set<nat>, dst: u32,
                                    src: seq<byte>, copy: seq<byte>)
    requires WellFormed(mem, pd, pages) && Delivered(mem, after, pd, pages, dst, src)
    requires 0 < |src| < TWO32 && InUserHalf(dst, |src|)
    requires TablesReached(mem, pd) && PagesAccessible(mem, pd, dst, |src|, true)
    ensures TablesReached(after, pd) && PagesAccessible(after, pd, dst, |src|, false)
    ensures |copy| == |src| && (forall i :: 0 <= i < |src| ==> ReadUser(after, pd, dst + i) == Some(copy[i])) ==>
              copy == src
  {
    hide Accessible, Translate, ReadUser, WellFormed;
    TablesOfSpace(after, pd, pages);
    forall p | dst / 4096 <= p <= (dst + |src| - 1) / 4096
      ensures Accessible(after, pd, p, false)
    {
      AccessibleIsUserMapping(mem, pd, pages, p, true);
      AccessibleIsUserMapping(after, pd, pages, p, false);
    }
    if |copy| == |src| && forall i :: 0 <= i < |src| ==> ReadUser(after, pd, dst + i) == Some(copy[i]) {
      forall i | 0 <= i < |src|
        ensures copy[i] == src[i]
      {
        assert ReadUser(after, pd, dst + i) == Some(copy[i]);
      }
    }
  }

  // ---------------------------------------------------------------- in place

  // Memory seen through the directory that is loaded.
  class AddressSpace {
    const pd: nat
    var mem: seq<byte>

    constructor (pd: nat, mem: seq<byte>)
      ensures this.pd == pd && this.mem == mem
    {
      this.pd, this.mem := pd, mem;
    }

    // paging_copy_from_user, the loop reading through the current translation
    method CopyFromUser(src: u32, len: u32) returns (ok: bool, dst: seq<byte>)
      requires |mem| == LIMIT && pd < 1024 && (pd != 0 ==> Backed(mem, pd))
      ensures ok <==> len == 0 || (pd != 0 && InUserHalf(src, len) && PagesAccessible(mem, pd, src, len, false))
      ensures ok ==>
                && |dst| == len
                && forall i :: 0 <= i < len ==> src + i < TWO32 && ReadUser(mem, pd, src + i) == Some(dst[i])
    {
      hide Accessible, Translate, Word;
      dst := [];
      ok := ValidateUserRange(mem, pd, src, len, false);
      if !ok {
        return;
      }
      for i := 0 to len
        invariant |dst| == i
        invariant forall k :: 0 <= k < i ==> src + k < TWO32 && ReadUser(mem, pd, src + k) == Some(dst[k])
      {
        var frame := FrameOf(mem, pd, (src + i) / 4096, false);
        dst := dst + [mem[4096 * frame + (src + i) % 4096]];
      }
    }

    // paging_copy_to_user, the loop writing through the current translation
    method CopyToUser(dst: u32, src: seq<byte>) returns (ok: bool)
      requires |mem| == LIMIT && pd < 1024 && (pd != 0 ==> Apart(mem, pd)) && |src| < TWO32
      modifies this`mem
      ensures ok <==>
                src == [] || (pd != 0 && InUserHalf(dst, |src|) && PagesAccessible(old(mem), pd, dst, |src|, true))
      ensures if ok && src != [] then Stored(old(mem), mem, pd, dst, src) else mem == old(mem)
      ensures forall pages :: ok && WellFormed(old(mem), pd, pages) && OwnFrames(old(mem), pd) ==>
                Delivered(old(mem), mem, pd, pages, dst, src)
    {
      hide Accessible, Translate, Word, Delivered, Stored, WellFormed, OwnFrames, SameSpace, NoTable;
      ghost var before := mem;
      ok := ValidateUserRange(mem, pd, dst, |src|, true);
      if !ok || src == [] {
        EmptyDelivered(mem, pd, dst);
        return;
      }
      NothingStored(mem, pd, dst);
      assert src[..0] == [];
      for i := 0 to |src|
        invariant |mem| == LIMIT
        invariant Stored(before, mem, pd, dst, src[..i])
      {
        StoredSpace(before, mem, pd, dst, src[..i]);
        NextPlace(before, mem, pd, dst + i);
        var frame := FrameOf(mem, pd, (dst + i) / 4096, true);
        NextStored(before, mem, pd, dst, src[..i], src[i]);
        assert src[..i] + [src[i]] == src[..i + 1];
        mem := mem[4096 * frame + (dst + i) % 4096 := src[i]];
      }
      assert src[..|src|] == src;
      forall pages | WellFormed(before, pd, pages) && OwnFrames(before, pd)
        ensures Delivered(before, mem, pd, pages, dst, src)
      {
        OwnFramesDeliver(before, mem, pd, pages, dst, src);
      }
    }
  }

  lemma StoredSpace(mem: seq<byte>, after: seq<byte>, pd: nat, dst: u32, src: seq<byte>)
    requires Stored(mem, after, pd, dst, src)
    ensures SameSpace(mem, after, pd)
  {
    hide SameSpace;
  }

  lemma {:induction false} EmptyDelivered(mem: seq<byte>, pd: nat, dst: u32)
    ensures forall pages :: WellFormed(mem, pd, pages) && OwnFrames(mem, pd) ==> Delivered(mem, mem, pd, pages, dst, [])
  {
    hide Translate, ReadUser, WellFormed;
  }
}

/**
 Two-level page tables held in physical memory, as values: what mapping one page does to every
 translation.
 */
module PageTables {
  import opened Bytes
  import opened Common

  const LIMIT: nat := 0x40_0000        // physical memory the kernel window reaches
  const HEAP_PAGES: nat := 0x200       // the kernel and its heap lie below page 512 (2 MiB)
  const USER_PAGES: nat := 0xC_0000    // pages below 0xC0000000
  const HIGHER: nat := 768

  // ---------------------------------------------------------------- words of memory

  // The 32-bit word number `n` of memory.
  function Word(mem: seq<byte>, n: nat): (w: u32)
    requires 4 * n + 4 <= |mem|
  {
    Le32(mem, 4 * n)
  }

  function StoreWord(mem: seq<byte>, n: nat, w: u32): (r: seq<byte>)
    requires 4 * n + 4 <= |mem|
    ensures |r| == |mem|
    ensures forall x :: 0 <= x < |mem| && !(4 * n <= x < 4 * n + 4) ==> r[x] == mem[x]
  {
    Splice(mem, 4 * n, Le32Bytes(w))
  }

  // Words that share no byte with a changed region keep their value.
  lemma WordKept(mem: seq<byte>, after: seq<byte>, n: nat)
    requires |after| == |mem| && 4 * n + 4 <= |mem|
    requires forall x :: 4 * n <= x < 4 * n + 4 ==> after[x] == mem[x]
    ensures Word(after, n) == Word(mem, n)
  {
  }

  lemma {:induction false} StoreThenWord(mem: seq<byte>, n: nat, w: u32, k: nat)
    requires 4 * n + 4 <= |mem| && 4 * k + 4 <= |mem|
    ensures Word(StoreWord(mem, n, w), k) == if k == n then w else Word(mem, k)
  {
    hide Le32Bytes;
    var r := StoreWord(mem, n, w);
    if k == n {
      var b := r[4 * n..4 * n + 4];
      assert b == Le32Bytes(w);
      assert b[0] == r[4 * n] && b[1] == r[4 * n + 1] && b[2] == r[4 * n + 2] && b[3] == r[4 * n + 3];
    } else {
      WordKept(mem, r, k);
    }
  }

  // ---------------------------------------------------------------- entries

  predicate Present(w: u32) { w % 2 == 1 }
  predicate Writable(w: u32) { w / 2 % 2 == 1 }
  predicate User(w: u32) { w / 4 % 2 == 1 }
  predicate Large(w: u32) { w / 0x80 % 2 == 1 }

  // The page number in the top 20 bits.
  function PageOf(w: u32): (p: nat)
    ensures p < 0x10_0000
  {
    w / 0x1000
  }

  // An entry naming page `p`, present, with the given rights.
  function MakeEntry(p: nat, writable: bool, user: bool): (w: u32)
    requires p < 0x10_0000
    ensures Present(w) && !Large(w) && PageOf(w) == p
    ensures Writable(w) == writable && User(w) == user
  {
    EntryBits(p, writable, user);
    p * 0x1000 + 1 + (if writable then 2 else 0) + (if user then 4 else 0)
  }

  lemma TopBits(p: nat, low: nat)
    requires low < 8
    ensures (p * 0x1000 + low) / 0x1000 == p && (p * 0x1000 + low) / 0x80 == p * 0x20
  {
  }

  lemma Parity(a: int, b: int)
    ensures (2 * a + b) % 2 == b % 2
  {
  }

  lemma {:induction false} LowBits(p: nat, low: nat)
    requires low < 8
    ensures (p * 0x1000 + low) / 4 % 2 == low / 4 % 2 && (p * 0x1000 + low) / 2 % 2 == low / 2 % 2
    ensures (p * 0x1000 + low) % 2 == low % 2
  {
    assert (p * 0x1000 + low) / 4 == 2 * (p * 0x200) + low / 4;
    Parity(p * 0x200, low / 4);
    assert (p * 0x1000 + low) / 2 == 2 * (p * 0x400) + low / 2;
    Parity(p * 0x400, low / 2);
    Parity(p * 0x800, low);
  }

  lemma {:induction false} EntryBits(p: nat, writable: bool, user: bool)
    requires p < 0x10_0000
    ensures var w := p * 0x1000 + 1 + (if writable then 2 else 0) + (if user then 4 else 0);
            && 0 <= w < TWO32 && w % 2 == 1 && w / 0x80 % 2 == 0 && w / 0x1000 == p
            && (w / 2 % 2 == 1) == writable && (w / 4 % 2 == 1) == user
  {
    var low := 1 + (if writable then 2 else 0) + (if user then 4 else 0);
    TopBits(p, low);
    LowBits(p, low);
    Parity(p * 0x10, 0);
    assert low / 4 == (if user then 1 else 0) && low / 2 % 2 == (if writable then 1 else 0);
  }

  // Bits 0, 1 and 2 of an entry are present, writable and user, bit 7 marks a 4 MiB page, and the
  // page number starts at bit 12.
  lemma {:induction false} EntryFormat(w: u32, present: nat, writable: nat, user: nat, rest: nat, large: nat,
                                       high: nat, page: nat)
    requires present < 2 && writable < 2 && user < 2 && rest < 16 && large < 2 && high < 16
    requires w == present + 2 * writable + 4 * user + 8 * rest + 0x80 * large + 0x100 * high + 0x1000 * page
    ensures Present(w) <==> present == 1
    ensures Writable(w) <==> writable == 1
    ensures User(w) <==> user == 1
    ensures Large(w) <==> large == 1
    ensures PageOf(w) == page
  {
    var e := high + 0x10 * page;
    var d := large + 2 * e;
    var c := rest + 0x10 * d;
    var b := user + 2 * c;
    var a := writable + 2 * b;
    assert w == present + 2 * a && w == (present + 2 * writable) + 4 * b;
    assert w == (present + 2 * writable + 4 * user + 8 * rest) + 0x80 * d;
    assert w == (w - 0x1000 * page) + 0x1000 * page && 0 <= w - 0x1000 * page < 0x1000;
    hide Present, Writable, User, Large, PageOf;
    Quotient(2, a, present);
    Quotient(4, b, present + 2 * writable);
    Quotient(0x80, d, present + 2 * writable + 4 * user + 8 * rest);
    Quotient(0x1000, page, w - 0x1000 * page);
    Quotient(2, b, writable);
    Quotient(2, c, user);
    Quotient(2, e, large);
    EntryParts(w, a, b, d, page);
  }

  lemma Quotient(n: nat, q: nat, r: nat)
    requires r < n && n in {2, 4, 0x80, 0x1000}
    ensures (r + n * q) / n == q && (r + n * q) % n == r
  {
  }

  lemma EntryParts(w: u32, a: nat, b: nat, d: nat, page: nat)
    requires w / 2 == a && w / 4 == b && w / 0x80 == d && w / 0x1000 == page
    ensures (Present(w) <==> w % 2 == 1) && (Writable(w) <==> a % 2 == 1) && (User(w) <==> b % 2 == 1)
    ensures (Large(w) <==> d % 2 == 1) && PageOf(w) == page
  {
  }

  // ---------------------------------------------------------------- translation

  datatype Mapping = Mapping(page: nat, writable: bool, user: bool)

  function Pde(mem: seq<byte>, pd: nat, i: nat): (w: u32)
    requires |mem| == LIMIT && pd < 1024 && i < 1024
  {
    Word(mem, 1024 * pd + i)
  }

  // The directory entry refers to a page table.
  predicate HasTable(mem: seq<byte>, pd: nat, i: nat)
    requires |mem| == LIMIT && pd < 1024 && i < 1024
  {
    Present(Pde(mem, pd, i)) && !Large(Pde(mem, pd, i))
  }

  // `pages` are the pages in use as directory and tables; every table is one of them, no table
  // serves two directory entries, none is the directory itself, entries to tables are writable
  // (rights are decided in the table), and the user half has no 4 MiB pages.
  ghost predicate WellFormed(mem: seq<byte>, pd: nat, pages: set<nat>) {
    && |mem| == LIMIT && pd in pages
    && (forall p :: p in pages ==> 0 < p < HEAP_PAGES)
    && (forall i :: 0 <= i < 1024 && HasTable(mem, pd, i) ==>
          PageOf(Pde(mem, pd, i)) in pages && PageOf(Pde(mem, pd, i)) != pd && Writable(Pde(mem, pd, i)))
    && (forall i, j :: 0 <= i < j < 1024 && HasTable(mem, pd, i) && HasTable(mem, pd, j) ==>
          PageOf(Pde(mem, pd, i)) != PageOf(Pde(mem, pd, j)))
    && (forall i :: 0 <= i < HIGHER ==> !Large(Pde(mem, pd, i)))
  }

  // What the processor makes of virtual page `v` (section 4.3 of the Intel SDM, volume 3A).
  ghost function Translate(mem: seq<byte>, pd: nat, v: nat): (r: Option<Mapping>)
    requires |mem| == LIMIT && pd < 1024 && v < 0x10_0000
  {
    var pde := Pde(mem, pd, v / 1024);
    if !Present(pde) then None
    else if Large(pde) then Some(Mapping(PageOf(pde) / 1024 * 1024 + v % 1024, Writable(pde), User(pde)))
    else if PageOf(pde) >= 1024 then None
    else
      var pte := Word(mem, 1024 * PageOf(pde) + v % 1024);
      if !Present(pte) then None
      else Some(Mapping(PageOf(pte), Writable(pte) && Writable(pde), User(pte) && User(pde)))
  }

  // ---------------------------------------------------------------- changing tables

  // A store into page `t` of memory.
  lemma {:induction false} StoreInPage(mem: seq<byte>, t: nat, i: nat, w: u32, p: nat, k: nat)
    requires |mem| == LIMIT && t < 1024 && i < 1024 && p < 1024 && k < 1024
    ensures Word(StoreWord(mem, 1024 * t + i, w), 1024 * p + k) ==
              if p == t && k == i then w else Word(mem, 1024 * p + k)
  {
    hide StoreWord, Word;
    StoreThenWord(mem, 1024 * t + i, w, 1024 * p + k);
  }

  // Storing an entry of an existing table changes the translation of one page.
  lemma {:induction false} TableStore(mem: seq<byte>, pd: nat, pages: set<nat>, v: nat, w: u32)
    requires WellFormed(mem, pd, pages) && v < 0x10_0000 && HasTable(mem, pd, v / 1024) && Present(w)
    ensures var t := PageOf(Pde(mem, pd, v / 1024));
            var r := StoreWord(mem, 1024 * t + v % 1024, w);
            && WellFormed(r, pd, pages)
            && (forall i :: 0 <= i < 1024 ==> Pde(r, pd, i) == Pde(mem, pd, i))
            && (forall p :: 0 <= p < 0x10_0000 ==>
                  Translate(r, pd, p) ==
                  if p == v then Some(Mapping(PageOf(w), Writable(w), User(w) && User(Pde(mem, pd, v / 1024))))
                  else Translate(mem, pd, p))
  {
    hide StoreWord, Word;
    var t := PageOf(Pde(mem, pd, v / 1024));
    var r := StoreWord(mem, 1024 * t + v % 1024, w);
    forall i | 0 <= i < 1024
      ensures Pde(r, pd, i) == Pde(mem, pd, i)
    {
      StoreInPage(mem, t, v % 1024, w, pd, i);
    }
    forall p | 0 <= p < 0x10_0000
      ensures Translate(r, pd, p) ==
              if p == v then Some(Mapping(PageOf(w), Writable(w), User(w) && User(Pde(mem, pd, v / 1024))))
              else Translate(mem, pd, p)
    {
      var q := PageOf(Pde(mem, pd, p / 1024));
      if q < 1024 {
        StoreInPage(mem, t, v % 1024, w, q, p % 1024);
      }
    }
  }

  function ZeroPage(mem: seq<byte>, t: nat): (r: seq<byte>)
    requires 4096 * t + 4096 <= |mem|
    ensures |r| == |mem|
    ensures forall x :: 0 <= x < |mem| && !(4096 * t <= x < 4096 * t + 4096) ==> r[x] == mem[x]
  {
    Splice(mem, 4096 * t, Zeros(4096))
  }

  lemma {:induction false} ZeroPageWords(mem: seq<byte>, t: nat, p: nat, k: nat)
    requires |mem| == LIMIT && t < 1024 && p < 1024 && k < 1024
    ensures Word(ZeroPage(mem, t), 1024 * p + k) == if p == t then 0 else Word(mem, 1024 * p + k)
  {
    hide Splice;
    var r := ZeroPage(mem, t);
    if p == t {
      var b := r[4096 * t..4096 * t + 4096];
      assert b == Zeros(4096);
      assert b[4 * k] == 0 && b[4 * k + 1] == 0 && b[4 * k + 2] == 0 && b[4 * k + 3] == 0;
      assert r[4 * (1024 * t + k)] == b[4 * k] && r[4 * (1024 * t + k) + 1] == b[4 * k + 1];
      assert r[4 * (1024 * t + k) + 2] == b[4 * k + 2] && r[4 * (1024 * t + k) + 3] == b[4 * k + 3];
    } else {
      WordKept(mem, r, 1024 * p + k);
    }
  }

  // A fresh zeroed table entered in the directory.
  function WithTable(mem: seq<byte>, pd: nat, i: nat, t: nat, user: bool): (r: seq<byte>)
    requires |mem| == LIMIT && pd < 1024 && i < 1024 && t < 1024
    ensures |r| == LIMIT
  {
    StoreWord(ZeroPage(mem, t), 1024 * pd + i, MakeEntry(t, true, user))
  }

  lemma {:induction false} WithTableWords(mem: seq<byte>, pd: nat, i: nat, t: nat, user: bool, p: nat, k: nat)
    requires |mem| == LIMIT && pd < 1024 && i < 1024 && t < 1024 && p < 1024 && k < 1024 && t != pd
    ensures Word(WithTable(mem, pd, i, t, user), 1024 * p + k)
            == if p == pd && k == i then MakeEntry(t, true, user) else if p == t then 0 else Word(mem, 1024 * p + k)
  {
    hide Word, StoreWord, ZeroPage, MakeEntry;
    StoreInPage(ZeroPage(mem, t), pd, i, MakeEntry(t, true, user), p, k);
    ZeroPageWords(mem, t, p, k);
  }

  // Entering a fresh table changes no translation.
  lemma {:induction false} TableAdded(mem: seq<byte>, pd: nat, pages: set<nat>, i: nat, t: nat, user: bool)
    requires WellFormed(mem, pd, pages) && i < 1024 && !Present(Pde(mem, pd, i))
    requires 0 < t < HEAP_PAGES && t !in pages
    ensures var r := WithTable(mem, pd, i, t, user);
            && WellFormed(r, pd, pages + {t})
            && HasTable(r, pd, i) && Pde(r, pd, i) == MakeEntry(t, true, user)
            && (forall k :: 0 <= k < 1024 && k != i ==> Pde(r, pd, k) == Pde(mem, pd, k))
            && (forall p :: 0 <= p < 0x10_0000 ==> Translate(r, pd, p) == Translate(mem, pd, p))
  {
    hide Word, WithTable, MakeEntry;
    var r := WithTable(mem, pd, i, t, user);
    forall k | 0 <= k < 1024
      ensures Pde(r, pd, k) == if k == i then MakeEntry(t, true, user) else Pde(mem, pd, k)
    {
      WithTableWords(mem, pd, i, t, user, pd, k);
    }
    forall p | 0 <= p < 0x10_0000
      ensures Translate(r, pd, p) == Translate(mem, pd, p)
    {
      var q := PageOf(Pde(r, pd, p / 1024));
      if q < 1024 {
        WithTableWords(mem, pd, i, t, user, q, p % 1024);
      }
    }
  }

  // ---------------------------------------------------------------- paging_map_page

  datatype Mapped = Mapped(mem: seq<byte>, ok: bool)

  // The page at or above a byte address: kmalloc's block is aligned up.
  function PageUp(raw: nat): (p: nat) {
    (raw + 4095) / 4096
  }

  // ... the first page boundary at or after it.
  lemma PageUpIs(raw: nat)
    ensures raw <= 4096 * PageUp(raw) < raw + 4096
  {
  }

  // `raw` is kmalloc's answer, should a table be needed: 0 for none.
  ghost function MapPage(mem: seq<byte>, pd: nat, vaddr: u32, phys: u32, flags: u32, raw: nat): (r: Mapped)
    requires |mem| == LIMIT && pd < 1024 && PageUp(raw) < 1024
    requires HasTable(mem, pd, vaddr / 0x40_0000) ==> PageOf(Pde(mem, pd, vaddr / 0x40_0000)) < 1024
    ensures |r.mem| == LIMIT
    ensures !r.ok ==> r.mem == mem
  {
    var i, k := vaddr / 0x40_0000, vaddr / 0x1000 % 1024;
    var pde := Pde(mem, pd, i);
    if vaddr % 4096 != 0 || phys % 4096 != 0 || flags >= 8 || Large(pde) then Mapped(mem, false) else
    var writable, user := Writable(flags), User(flags);
    var pte := MakeEntry(phys / 0x1000, writable, user);
    if !Present(pde) then
      if raw == 0 then Mapped(mem, false)
      else
        var t := PageUp(raw);
        Mapped(StoreWord(WithTable(mem, pd, i, t, user), 1024 * t + k, pte), true)
    else if (user && !User(pde)) || PageOf(pde) == 0 then Mapped(mem, false)
    else Mapped(StoreWord(mem, 1024 * PageOf(pde) + k, pte), true)
  }

  // Pages used for tables after the call.
  ghost function PagesAfter(mem: seq<byte>, pd: nat, pages: set<nat>, vaddr: u32, raw: nat): (r: set<nat>)
    requires |mem| == LIMIT && pd < 1024
  {
    if raw != 0 && !Present(Pde(mem, pd, vaddr / 0x40_0000)) then pages + {PageUp(raw)} else pages
  }

  // kmalloc's answer is fresh heap memory.
  ghost predicate FreshGrant(pages: set<nat>, raw: nat) {
    raw != 0 ==> 0 < PageUp(raw) < HEAP_PAGES && PageUp(raw) !in pages
  }

  lemma Indices(vaddr: u32)
    ensures vaddr / 0x1000 / 1024 == vaddr / 0x40_0000 && vaddr / 0x1000 < 0x10_0000
  {
  }

  // The page tables refine a flat map: a successful call updates exactly one virtual page, a
  // failed one changes nothing.
  lemma {:induction false} MapPageUpdatesOnePage(mem: seq<byte>, pd: nat, pages: set<nat>,
                                                 vaddr: u32, phys: u32, flags: u32, raw: nat)
    requires WellFormed(mem, pd, pages) && FreshGrant(pages, raw) && PageUp(raw) < 1024
    ensures var r := MapPage(mem, pd, vaddr, phys, flags, raw);
            && (!r.ok ==> r.mem == mem)
            && (r.ok ==>
                  && vaddr % 4096 == 0 && phys % 4096 == 0 && flags < 8
                  && WellFormed(r.mem, pd, PagesAfter(mem, pd, pages, vaddr, raw))
                  && forall p :: 0 <= p < 0x10_0000 ==>
                       Translate(r.mem, pd, p) ==
                       if p == vaddr / 0x1000 then Some(Mapping(phys / 0x1000, Writable(flags), User(flags)))
                       else Translate(mem, pd, p))
  {
    hide Word, StoreWord, WithTable, MakeEntry, Translate;
    Indices(vaddr);
    var r := MapPage(mem, pd, vaddr, phys, flags, raw);
    if r.ok {
      var i, v := vaddr / 0x40_0000, vaddr / 0x1000;
      var pte := MakeEntry(phys / 0x1000, Writable(flags), User(flags));
      if !Present(Pde(mem, pd, i)) {
        var t := PageUp(raw);
        TableAdded(mem, pd, pages, i, t, User(flags));
        TableStore(WithTable(mem, pd, i, t, User(flags)), pd, pages + {t}, v, pte);
      } else {
        TableStore(mem, pd, pages, v, pte);
      }
    }
  }

  // ---------------------------------------------------------------- what mapping leaves alone

  // Mapping a user page keeps the directory entries of the higher half.
  lemma {:induction false} MapPageKeepsHigherHalf(mem: seq<byte>, pd: nat, pages: set<nat>,
                                                  vaddr: u32, phys: u32, flags: u32, raw: nat, j: nat)
    requires WellFormed(mem, pd, pages) && FreshGrant(pages, raw) && PageUp(raw) < 1024
    requires vaddr < 0xC000_0000 && HIGHER <= j < 1024
    ensures Pde(MapPage(mem, pd, vaddr, phys, flags, raw).mem, pd, j) == Pde(mem, pd, j)
  {
    hide Word, StoreWord, WithTable, MakeEntry, Translate;
    Indices(vaddr);
    var i, v := vaddr / 0x40_0000, vaddr / 0x1000;
    assert i < HIGHER;
    if MapPage(mem, pd, vaddr, phys, flags, raw).ok {
      var pte := MakeEntry(phys / 0x1000, Writable(flags), User(flags));
      if !Present(Pde(mem, pd, i)) {
        var t := PageUp(raw);
        TableAdded(mem, pd, pages, i, t, User(flags));
        TableStore(WithTable(mem, pd, i, t, User(flags)), pd, pages + {t}, v, pte);
      } else {
        TableStore(mem, pd, pages, v, pte);
      }
    }
  }

  // A user mapping leaves the directory entries below as they were, or for user code.
  lemma {:induction false} MapPageKeepsUserHalf(mem: seq<byte>, pd: nat, pages: set<nat>,
                                                vaddr: u32, phys: u32, flags: u32, raw: nat, j: nat)
    requires WellFormed(mem, pd, pages) && FreshGrant(pages, raw) && PageUp(raw) < 1024 && User(flags) && j < 1024
    ensures var w := Pde(MapPage(mem, pd, vaddr, phys, flags, raw).mem, pd, j); w == Pde(mem, pd, j) || User(w)
  {
    hide Word, StoreWord, WithTable, MakeEntry, Translate;
    Indices(vaddr);
    var i, v := vaddr / 0x40_0000, vaddr / 0x1000;
    if MapPage(mem, pd, vaddr, phys, flags, raw).ok {
      var pte := MakeEntry(phys / 0x1000, Writable(flags), User(flags));
      if !Present(Pde(mem, pd, i)) {
        var t := PageUp(raw);
        TableAdded(mem, pd, pages, i, t, User(flags));
        TableStore(WithTable(mem, pd, i, t, User(flags)), pd, pages + {t}, v, pte);
      } else {
        TableStore(mem, pd, pages, v, pte);
      }
    }
  }

  // The 4 MiB windows of the user half that have a page table.
  ghost function Tables(mem: seq<byte>, pd: nat): (w: set<int>)
    requires |mem| == LIMIT && pd < 1024
  {
    set i | 0 <= i < HIGHER && Present(Pde(mem, pd, i))
  }

  // A successful mapping leaves one for the window of its page and no other new one.
  lemma {:induction false} MapPageTables(mem: seq<byte>, pd: nat, pages: set<nat>,
                                         vaddr: u32, phys: u32, flags: u32, raw: nat)
    requires WellFormed(mem, pd, pages) && FreshGrant(pages, raw) && PageUp(raw) < 1024 && vaddr < 0xC000_0000
    ensures var m := MapPage(mem, pd, vaddr, phys, flags, raw);
            m.ok ==> Tables(m.mem, pd) == Tables(mem, pd) + {vaddr / 0x40_0000}
  {
    hide Word, MapPage;
    var m := MapPage(mem, pd, vaddr, phys, flags, raw);
    if m.ok {
      forall j | 0 <= j < HIGHER
        ensures Present(Pde(m.mem, pd, j)) <==> Present(Pde(mem, pd, j)) || j == vaddr / 0x40_0000
      {
        MapPagePresent(mem, pd, pages, vaddr, phys, flags, raw, j);
      }
    }
  }

  lemma {:induction false} MapPagePresent(mem: seq<byte>, pd: nat, pages: set<nat>,
                                          vaddr: u32, phys: u32, flags: u32, raw: nat, j: nat)
    requires WellFormed(mem, pd, pages) && FreshGrant(pages, raw) && PageUp(raw) < 1024 && j < 1024
    requires MapPage(mem, pd, vaddr, phys, flags, raw).ok
    ensures Present(Pde(MapPage(mem, pd, vaddr, phys, flags, raw).mem, pd, j)) <==>
              Present(Pde(mem, pd, j)) || j == vaddr / 0x40_0000
  {
    hide Word, StoreWord, WithTable, MakeEntry, Translate;
    Indices(vaddr);
    var i, v := vaddr / 0x40_0000, vaddr / 0x1000;
    var pte := MakeEntry(phys / 0x1000, Writable(flags), User(flags));
    if !Present(Pde(mem, pd, i)) {
      var t := PageUp(raw);
      TableAdded(mem, pd, pages, i, t, User(flags));
      TableStore(WithTable(mem, pd, i, t, User(flags)), pd, pages + {t}, v, pte);
    } else {
      TableStore(mem, pd, pages, v, pte);
    }
  }

  // An aligned user mapping of a user page fails only for want of heap memory for a table.
  lemma {:induction false} MapPageSucceeds(mem: seq<byte>, pd: nat, pages: set<nat>, vaddr: u32, phys: u32, flags: u32,
                                           raw: nat)
    requires WellFormed(mem, pd, pages) && FreshGrant(pages, raw) && PageUp(raw) < 1024
    requires vaddr < 0xC000_0000 && vaddr % 4096 == 0 && phys % 4096 == 0 && flags < 8
    requires Present(Pde(mem, pd, vaddr / 0x40_0000)) ==> User(Pde(mem, pd, vaddr / 0x40_0000))
    ensures MapPage(mem, pd, vaddr, phys, flags, raw).ok <==> raw != 0 || Present(Pde(mem, pd, vaddr / 0x40_0000))
  {
    hide Word, StoreWord, WithTable, MakeEntry, Translate;
    assert HasTable(mem, pd, vaddr / 0x40_0000) || !Present(Pde(mem, pd, vaddr / 0x40_0000));
  }

  // Tables live in the heap: no byte of the frame area changes.
  lemma {:induction false} MapPageKeepsFrames(mem: seq<byte>, pd: nat, pages: set<nat>,
                                              vaddr: u32, phys: u32, flags: u32, raw: nat)
    requires WellFormed(mem, pd, pages) && FreshGrant(pages, raw) && PageUp(raw) < 1024
    ensures var r := MapPage(mem, pd, vaddr, phys, flags, raw).mem;
            forall x :: 4096 * HEAP_PAGES <= x < LIMIT ==> r[x] == mem[x]
  {
    hide Word, MakeEntry, Translate;
  }

  // Conversely, writing frames changes no table.
  lemma {:induction false} FramesKeepTables(mem: seq<byte>, after: seq<byte>, pd: nat, pages: set<nat>)
    requires WellFormed(mem, pd, pages) && |after| == LIMIT
    requires forall x :: 0 <= x < 4096 * HEAP_PAGES ==> after[x] == mem[x]
    ensures WellFormed(after, pd, pages)
    ensures forall i :: 0 <= i < 1024 ==> Pde(after, pd, i) == Pde(mem, pd, i)
    ensures forall p :: 0 <= p < 0x10_0000 ==> Translate(after, pd, p) == Translate(mem, pd, p)
  {
    hide Word;
    forall i | 0 <= i < 1024
      ensures Pde(after, pd, i) == Pde(mem, pd, i)
    {
      WordKept(mem, after, 1024 * pd + i);
    }
    forall p | 0 <= p < 0x10_0000
      ensures Translate(after, pd, p) == Translate(mem, pd, p)
    {
      var q := PageOf(Pde(mem, pd, p / 1024));
      if HasTable(mem, pd, p / 1024) {
        WordKept(mem, after, 1024 * q + p % 1024);
      }
    }
  }

  // ---------------------------------------------------------------- flat view

  // `count` consecutive virtual pages from `start` on consecutive frames from `frame` on.
  datatype Region = Region(start: nat, count: nat, frame: nat, writable: bool) {
    predicate Contains(p: nat) { start <= p < start + count }
  }

  // The flat map of a list of regions; later ones win.
  function Lookup(regions: seq<Region>, p: nat): (r: Option<Mapping>) {
    if regions == [] then None else
    var last := regions[|regions| - 1];
    if last.Contains(p) then Some(Mapping(last.frame + p - last.start, last.writable, true))
    else Lookup(regions[..|regions| - 1], p)
  }

  // The user half translates exactly as the regions say.
  ghost predicate Maps(mem: seq<byte>, pd: nat, pages: set<nat>, regions: seq<Region>) {
    && WellFormed(mem, pd, pages)
    && forall p :: 0 <= p < USER_PAGES ==> Translate(mem, pd, p) == Lookup(regions, p)
  }

  // One more page of the last region.
  lemma {:induction false} RegionGrows(mem: seq<byte>, pd: nat, pages: set<nat>, regions: seq<Region>, r: Region,
                                       flags: u32, raw: nat)
    requires Maps(mem, pd, pages, regions + [r]) && FreshGrant(pages, raw) && PageUp(raw) < 1024
    requires r.start + r.count < USER_PAGES && r.frame + r.count < 0x10_0000
    requires User(flags) && Writable(flags) == r.writable
    ensures var m := MapPage(mem, pd, 4096 * (r.start + r.count), 4096 * (r.frame + r.count), flags, raw);
            m.ok ==> Maps(m.mem, pd, PagesAfter(mem, pd, pages, 4096 * (r.start + r.count), raw),
                          regions + [r.(count := r.count + 1)])
  {
    hide MapPage, Translate, WellFormed, PagesAfter;
    var v := r.start + r.count;
    MapPageUpdatesOnePage(mem, pd, pages, 4096 * v, 4096 * (r.frame + r.count), flags, raw);
    var before, after := regions + [r], regions + [r.(count := r.count + 1)];
    forall p | 0 <= p < USER_PAGES
      ensures Lookup(after, p) ==
                if p == v then Some(Mapping(r.frame + r.count, r.writable, true)) else Lookup(before, p)
    {
      assert before[..|regions|] == regions && after[..|regions|] == regions;
    }
  }
}

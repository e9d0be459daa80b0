/**
 The root directory: 32-byte entries, 8.3 names, and the two searches over the slots.
 */
module FatDirectory {
  import opened Bytes

  const FREE: byte := 0x00      // this slot and all later ones were never used
  const DELETED: byte := 0xE5
  const ATTR_DIR: byte := 0x10
  const ATTR_FILE: byte := 0x20
  const ATTR_LFN: byte := 0x0F
  const SPACE: byte := 0x20
  const DOT: byte := 0x2E

  type Name = n: seq<byte> | |n| == 11 witness seq(11, _ => 0x20)

  // A C string: no NUL inside.
  type CString = s: seq<byte> | 0 !in s witness []

  // ---------------------------------------------------------------- names

  function Upper(c: byte): (r: byte) {
    if 0x61 <= c <= 0x7A then c - 0x20 else c
  }

  function UpperAll(s: seq<byte>): (r: seq<byte>)
    ensures |r| == |s|
  {
    seq(|s|, i requires 0 <= i < |s| => Upper(s[i]))
  }

  // Index of the first dot, or the length when there is none.
  function DotIndex(s: seq<byte>): (k: nat)
    ensures k <= |s|
    ensures DOT !in s[..k]
    ensures k < |s| ==> s[k] == DOT
  {
    if s == [] || s[0] == DOT then 0 else 1 + DotIndex(s[1..])
  }

  // The first `width` bytes in upper case, filled up with spaces.
  function Field(s: seq<byte>, width: nat): (r: seq<byte>)
    ensures |r| == width
  {
    seq(width, i => if 0 <= i < |s| then Upper(s[i]) else SPACE)
  }

  // fat12_format_name
  function Format(name: CString): (r: Name) {
    var k := DotIndex(name);
    Field(name[..k], 8) + Field(if k < |name| then name[k + 1..] else [], 3)
  }

  // name_match: both sides are folded to upper case.
  predicate Matches(entry: Name, wanted: Name) {
    UpperAll(entry) == UpperAll(wanted)
  }

  // A formatted name is already folded, and never starts with the end marker.
  lemma {:induction false} FormatIsFolded(name: CString)
    ensures UpperAll(Format(name)) == Format(name)
    ensures Format(name)[0] != FREE
  {
    var k := DotIndex(name);
    if k > 0 {
      assert name[..k][0] == name[0];
      assert name[0] in name;
    }
  }

  // ---------------------------------------------------------------- entries

  datatype Dirent = Dirent(name: Name, attr: byte, middle: seq<byte>, first: u16, size: u32) {
    ghost predicate Valid() { |middle| == 14 }

    // The slot may be handed out.
    predicate Vacant() { name[0] == FREE || name[0] == DELETED }

    // The slot holds a file or a directory.
    predicate Live() { !Vacant() && attr != ATTR_LFN }
  }

  // A never-used slot: 32 zero bytes.
  function Unused(): (e: Dirent)
    ensures e.Valid() && e.name[0] == FREE && e.first == 0
  {
    Dirent(Zeros(11), 0, Zeros(14), 0, 0)
  }

  function ParseDirent(b: seq<byte>): (e: Dirent)
    requires |b| == 32
    ensures e.Valid()
  {
    Dirent(b[..11], b[11], b[12..26], Le16(b, 26), Le32(b, 28))
  }

  function DirentBytes(e: Dirent): (b: seq<byte>)
    requires e.Valid()
    ensures |b| == 32
  {
    e.name + [e.attr] + e.middle + Le16Bytes(e.first) + Le32Bytes(e.size)
  }

  lemma {:induction false} DirentRoundTrip(e: Dirent)
    requires e.Valid()
    ensures ParseDirent(DirentBytes(e)) == e
  {
    var b := DirentBytes(e);
    assert b[26] == Le16Bytes(e.first)[0] && b[27] == Le16Bytes(e.first)[1];
    assert b[28..32] == Le32Bytes(e.size);
    assert b[28] == b[28..32][0] && b[29] == b[28..32][1] && b[30] == b[28..32][2] && b[31] == b[28..32][3];
    assert b[..11] == e.name && b[12..26] == e.middle;
  }

  // The directory as a sequence of entries.
  function Slots(root: seq<byte>, n: nat): (s: seq<Dirent>)
    requires |root| == 32 * n
    ensures |s| == n
    ensures forall i :: 0 <= i < n ==> s[i].Valid() && s[i] == ParseDirent(root[32 * i..32 * i + 32])
  {
    seq(n, i requires 0 <= i < n => ParseDirent(root[32 * i..32 * i + 32]))
  }

  // The directory as bytes.
  function SlotBytes(s: seq<Dirent>): (root: seq<byte>)
    requires forall i :: 0 <= i < |s| ==> s[i].Valid()
    ensures |root| == 32 * |s|
  {
    if s == [] then [] else SlotBytes(s[..|s| - 1]) + DirentBytes(s[|s| - 1])
  }

  lemma {:induction false} SlotBytesAt(s: seq<Dirent>, i: nat)
    requires forall j :: 0 <= j < |s| ==> s[j].Valid()
    requires i < |s|
    ensures SlotBytes(s)[32 * i..32 * i + 32] == DirentBytes(s[i])
  {
    var m := |s| - 1;
    if i < m {
      SlotBytesAt(s[..m], i);
      assert SlotBytes(s)[32 * i..32 * i + 32] == SlotBytes(s[..m])[32 * i..32 * i + 32];
    }
  }

  lemma {:induction false} SlotRoundTripAt(s: seq<Dirent>, i: nat)
    requires forall j :: 0 <= j < |s| ==> s[j].Valid()
    requires i < |s|
    ensures Slots(SlotBytes(s), |s|)[i] == s[i]
  {
    hide ParseDirent, DirentBytes, SlotBytes;
    SlotBytesAt(s, i);
    DirentRoundTrip(s[i]);
  }

  // Directories and their bytes are in one-to-one correspondence.
  lemma {:induction false} SlotBytesRoundTrip(s: seq<Dirent>)
    requires forall i :: 0 <= i < |s| ==> s[i].Valid()
    ensures Slots(SlotBytes(s), |s|) == s
  {
    hide SlotBytes, Slots;
    forall i | 0 <= i < |s|
      ensures Slots(SlotBytes(s), |s|)[i] == s[i]
    {
      SlotRoundTripAt(s, i);
    }
  }

  lemma {:induction false} ParseRoundTrip(b: seq<byte>)
    requires |b| == 32
    ensures DirentBytes(ParseDirent(b)) == b
  {
    hide Le32Bytes, Le32, Le16, Le16Bytes;
    Le32RoundTrip(b, 28);
    assert Le16Bytes(Le16(b, 26)) == b[26..28] by { Le16RoundTrip(b, 26); }
    assert b == b[..11] + [b[11]] + b[12..26] + b[26..28] + b[28..32];
  }

  lemma {:induction false} SlotsFront(root: seq<byte>, n: nat)
    requires |root| == 32 * n && n > 0
    ensures Slots(root, n)[..n - 1] == Slots(root[..32 * (n - 1)], n - 1)
  {
    hide ParseDirent;
    forall i | 0 <= i < n - 1
      ensures Slots(root, n)[i] == Slots(root[..32 * (n - 1)], n - 1)[i]
    {
      assert root[32 * i..32 * i + 32] == root[..32 * (n - 1)][32 * i..32 * i + 32];
    }
  }

  lemma {:induction false} SlotsRoundTrip(root: seq<byte>, n: nat)
    requires |root| == 32 * n
    ensures SlotBytes(Slots(root, n)) == root
  {
    hide ParseDirent, DirentBytes, Slots;
    if n > 0 {
      var m := n - 1;
      SlotsRoundTrip(root[..32 * m], m);
      ParseRoundTrip(root[32 * m..32 * m + 32]);
      SlotsFront(root, n);
      assert root == root[..32 * m] + root[32 * m..32 * m + 32];
    }
  }

  // Replacing an entry rewrites its 32 bytes and no others.
  lemma {:induction false} SlotStored(s: seq<Dirent>, i: nat, e: Dirent)
    requires forall j :: 0 <= j < |s| ==> s[j].Valid()
    requires i < |s| && e.Valid()
    ensures SlotBytes(s[i := e]) == Splice(SlotBytes(s), 32 * i, DirentBytes(e))
    decreases |s|
  {
    hide DirentBytes, Splice, SlotBytes;
    var m := |s| - 1;
    var t := s[i := e];
    LastSlot(s);
    LastSlot(t);
    if i == m {
      assert t[..m] == s[..m];
      SpliceLast(SlotBytes(s[..m]), DirentBytes(s[m]), DirentBytes(e));
    } else {
      SlotStored(s[..m], i, e);
      assert t[..m] == s[..m][i := e];
      SpliceFront(SlotBytes(s[..m]), DirentBytes(s[m]), 32 * i, DirentBytes(e));
    }
  }

  lemma LastSlot(s: seq<Dirent>)
    requires s != [] && forall j :: 0 <= j < |s| ==> s[j].Valid()
    ensures SlotBytes(s) == SlotBytes(s[..|s| - 1]) + DirentBytes(s[|s| - 1])
  {
    hide DirentBytes;
  }

  lemma SpliceLast(a: seq<byte>, b: seq<byte>, x: seq<byte>)
    requires |x| == |b|
    ensures Splice(a + b, |a|, x) == a + x
  {
  }

  lemma SpliceFront(a: seq<byte>, b: seq<byte>, o: nat, x: seq<byte>)
    requires o + |x| <= |a|
    ensures Splice(a + b, o, x) == Splice(a, o, x) + b
  {
  }

  // Storing bytes inside slot `i` changes that slot only.
  lemma {:induction false} SlotPatched(root: seq<byte>, n: nat, i: nat, o: nat, bytes: seq<byte>)
    requires |root| == 32 * n && i < n && o + |bytes| <= 32
    ensures Slots(Splice(root, 32 * i + o, bytes), n)
            == Slots(root, n)[i := ParseDirent(Splice(root[32 * i..32 * i + 32], o, bytes))]
  {
    hide ParseDirent, Splice;
    var r := Splice(root, 32 * i + o, bytes);
    var e := Splice(root[32 * i..32 * i + 32], o, bytes);
    PatchedSlice(root, i, o, bytes);
    forall j | 0 <= j < n && j != i
      ensures Slots(r, n)[j] == Slots(root, n)[j]
    {
      assert r[32 * j..32 * j + 32] == root[32 * j..32 * j + 32];
    }
    assert Slots(r, n) == Slots(root, n)[i := ParseDirent(e)];
  }

  lemma {:induction false} PatchedSlice(root: seq<byte>, i: nat, o: nat, bytes: seq<byte>)
    requires 32 * i + 32 <= |root| && o + |bytes| <= 32
    ensures Splice(root, 32 * i + o, bytes)[32 * i..32 * i + 32] == Splice(root[32 * i..32 * i + 32], o, bytes)
  {
    hide Splice;
    var r, e := Splice(root, 32 * i + o, bytes), Splice(root[32 * i..32 * i + 32], o, bytes);
    forall k | 0 <= k < 32
      ensures r[32 * i + k] == e[k]
    {
      if o <= k < o + |bytes| {
        assert r[32 * i + o + (k - o)] == bytes[k - o];
        assert e[o + (k - o)] == bytes[k - o];
      }
    }
  }

  function TailBytes(first: u16, size: u32): (b: seq<byte>)
    ensures |b| == 6
  {
    Le16Bytes(first) + Le32Bytes(size)
  }

  function HeadBytes(name: Name, attr: byte): (b: seq<byte>)
    ensures |b| == 26
  {
    name + [attr] + Zeros(14)
  }

  lemma {:induction false} TailPatched(b: seq<byte>, first: u16, size: u32)
    requires |b| == 32
    ensures ParseDirent(Splice(b, 26, TailBytes(first, size))) == ParseDirent(b).(first := first, size := size)
  {
    hide Le16Bytes, Le32Bytes;
    var r := Splice(b, 26, TailBytes(first, size));
    assert r[..11] == b[..11] && r[12..26] == b[12..26];
    assert forall k :: 0 <= k < 2 ==> r[26 + k] == Le16Bytes(first)[k];
    assert forall k :: 0 <= k < 4 ==> r[28 + k] == Le32Bytes(size)[k];
  }

  lemma {:induction false} HeadPatched(b: seq<byte>, name: Name, attr: byte)
    requires |b| == 32
    ensures ParseDirent(Splice(b, 0, HeadBytes(name, attr)))
            == ParseDirent(b).(name := name, attr := attr, middle := Zeros(14))
  {
    var r := Splice(b, 0, HeadBytes(name, attr));
    assert r[..11] == name && r[12..26] == Zeros(14);
    assert forall k :: 26 <= k < 32 ==> r[k] == b[k];
  }

  lemma {:induction false} LeadPatched(b: seq<byte>, c: byte)
    requires |b| == 32
    ensures ParseDirent(Splice(b, 0, [c])) == ParseDirent(b).(name := [c] + b[1..11])
  {
    var r := Splice(b, 0, [c]);
    assert r[..11] == [c] + b[1..11] && r[12..26] == b[12..26];
    assert forall k :: 26 <= k < 32 ==> r[k] == b[k];
  }

  // ---------------------------------------------------------------- searches

  datatype Found = Hit(slot: nat) | Miss

  // find_dir_entry, also the search of fat12_find_file: the end marker stops it, deleted
  // and long-name slots are skipped.
  function FindFrom(s: seq<Dirent>, wanted: Name, i: nat): (r: Found)
    requires i <= |s|
    ensures r.Hit? ==> i <= r.slot < |s| && s[r.slot].Live() && Matches(s[r.slot].name, wanted)
    decreases |s| - i
  {
    if i == |s| || s[i].name[0] == FREE then Miss
    else if s[i].name[0] != DELETED && s[i].attr != ATTR_LFN && Matches(s[i].name, wanted) then Hit(i)
    else FindFrom(s, wanted, i + 1)
  }

  function Find(s: seq<Dirent>, wanted: Name): (r: Found)
    ensures r.Hit? ==> r.slot < |s| && s[r.slot].Live() && Matches(s[r.slot].name, wanted)
  {
    FindFrom(s, wanted, 0)
  }

  // A name starting with the deletion mark is never found.
  lemma {:induction false} DeletedNeverMatches(e: Dirent, wanted: Name)
    requires e.Live() && wanted[0] == DELETED
    ensures !Matches(e.name, wanted)
  {
    assert UpperAll(e.name)[0] != UpperAll(wanted)[0];
  }

  // find_free_dir_slot
  function VacantFrom(s: seq<Dirent>, i: nat): (r: Found)
    requires i <= |s|
    ensures r.Hit? ==> i <= r.slot < |s| && s[r.slot].Vacant()
    ensures r.Hit? ==> forall j :: i <= j < r.slot ==> !s[j].Vacant()
    ensures r.Miss? ==> forall j :: i <= j < |s| ==> !s[j].Vacant()
    decreases |s| - i
  {
    if i == |s| then Miss
    else if s[i].Vacant() then Hit(i)
    else VacantFrom(s, i + 1)
  }

  function VacantSlot(s: seq<Dirent>): (r: Found)
    ensures r.Hit? ==> r.slot < |s| && s[r.slot].Vacant()
    ensures r.Hit? ==> forall j :: 0 <= j < r.slot ==> !s[j].Vacant()
    ensures r.Miss? ==> forall j :: 0 <= j < |s| ==> !s[j].Vacant()
  {
    VacantFrom(s, 0)
  }

  // After a never-used slot there are only never-used slots.
  ghost predicate EndMarked(s: seq<Dirent>) {
    forall i, j :: 0 <= i < j < |s| && s[i].name[0] == FREE ==> s[j].name[0] == FREE
  }

  // No two live entries answer to the same name.
  ghost predicate NamesUnique(s: seq<Dirent>) {
    forall i, j :: 0 <= i < j < |s| && s[i].Live() && s[j].Live() ==> !Matches(s[i].name, s[j].name)
  }

  // In a well-marked directory the search is complete: it fails only if nobody matches.
  lemma {:induction false} FindIsComplete(s: seq<Dirent>, wanted: Name, i: nat)
    requires EndMarked(s) && i <= |s|
    ensures FindFrom(s, wanted, i).Miss? ==>
              forall j :: i <= j < |s| && s[j].Live() ==> !Matches(s[j].name, wanted)
    ensures FindFrom(s, wanted, i).Hit? ==>
              forall j :: i <= j < FindFrom(s, wanted, i).slot && s[j].Live() ==> !Matches(s[j].name, wanted)
    decreases |s| - i
  {
    if i < |s| && s[i].name[0] != FREE {
      FindIsComplete(s, wanted, i + 1);
    }
  }

  // What the search finds in any directory: the first live entry of that name, unless a never-used
  // slot comes before it.
  lemma {:induction false} FindIs(s: seq<Dirent>, wanted: Name, i: nat, k: nat)
    requires i <= |s|
    ensures FindFrom(s, wanted, i) == Hit(k)
            <==> && i <= k < |s| && s[k].Live() && Matches(s[k].name, wanted)
                 && forall j :: i <= j < k ==> s[j].name[0] != FREE && !(s[j].Live() && Matches(s[j].name, wanted))
    decreases |s| - i
  {
    hide Matches;
    if i < |s| {
      FindIs(s, wanted, i + 1, k);
    }
  }

  // The search for a name is the same in two directories that differ only in slots whose
  // old and new entries do not answer to it.
  lemma {:induction false} FindUnaffected(s: seq<Dirent>, s2: seq<Dirent>, wanted: Name, i: nat)
    requires |s2| == |s| && i <= |s| && EndMarked(s) && EndMarked(s2)
    requires forall k :: 0 <= k < |s| && s2[k] != s[k] ==>
               && (s[k].Live() ==> !Matches(s[k].name, wanted))
               && (s2[k].Live() ==> !Matches(s2[k].name, wanted))
    ensures FindFrom(s2, wanted, i) == FindFrom(s, wanted, i)
    decreases |s| - i
  {
    if i < |s| {
      FindUnaffected(s, s2, wanted, i + 1);
      FindIsComplete(s, wanted, i);
      FindIsComplete(s2, wanted, i);
    }
  }
}

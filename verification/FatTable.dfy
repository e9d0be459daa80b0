/**
 The 12-bit packed allocation table: reading an entry, storing one, and why two tables
 with the same entries are the same bytes.
 */
module FatTable {
  import opened Bytes

  // Three bytes hold two entries.
  function Offset(c: nat): (o: nat) {
    c * 3 / 2
  }

  // Entry `c` lies inside a table of `size` bytes.
  predicate InTable(size: nat, c: nat) {
    Offset(c) + 1 < size
  }

  function OddEntry(b0: int, b1: int): int { b0 / 16 + b1 * 16 }

  function EvenEntry(b0: int, b1: int): int { b0 + b1 % 16 * 0x100 }

  // get_fat_entry: a read past the table reports end-of-chain.
  function Entry(fat: seq<byte>, c: nat): (r: nat)
    ensures r < 0x1000
  {
    var o := Offset(c);
    if o + 1 >= |fat| then 0xFFF
    else if c % 2 == 1 then OddEntry(fat[o], fat[o + 1])
    else EvenEntry(fat[o], fat[o + 1])
  }

  // set_fat_entry: the neighbour's nibble in the shared byte is kept.
  function WithEntry(fat: seq<byte>, c: nat, v: u16): (r: seq<byte>)
    requires InTable(|fat|, c)
    ensures |r| == |fat|
  {
    var o := Offset(c);
    if c % 2 == 1 then
      fat[o := fat[o] % 16 + v % 16 * 16][o + 1 := v / 16 % 0x100]
    else
      fat[o := v % 0x100][o + 1 := fat[o + 1] / 16 * 16 + v / 0x100 % 16]
  }

  lemma Offsets(c: nat, d: nat)
    requires c < d
    ensures Offset(c) < Offset(d)
    ensures Offset(d) == Offset(c) + 1 ==> c % 2 == 0 && d % 2 == 1
  {
  }

  lemma OddNibbles(b: byte, v: u16)
    ensures OddEntry(b % 16 + v % 16 * 16, v / 16 % 0x100) == v % 0x1000
    ensures (b % 16 + v % 16 * 16) % 16 == b % 16
  {
  }

  lemma EvenNibbles(b: byte, v: u16)
    ensures EvenEntry(v % 0x100, b / 16 * 16 + v / 0x100 % 16) == v % 0x1000
    ensures (b / 16 * 16 + v / 0x100 % 16) / 16 == b / 16
  {
  }

  lemma {:induction false} StoreSame(fat: seq<byte>, c: nat, v: u16)
    requires InTable(|fat|, c)
    ensures Entry(WithEntry(fat, c, v), c) == v % 0x1000
  {
    var o := Offset(c);
    OddNibbles(fat[o], v);
    EvenNibbles(fat[o + 1], v);
  }

  lemma {:induction false} StoreBelow(fat: seq<byte>, c: nat, v: u16, d: nat)
    requires InTable(|fat|, c) && d < c
    ensures Entry(WithEntry(fat, c, v), d) == Entry(fat, d)
  {
    Offsets(d, c);
    OddNibbles(fat[Offset(c)], v);
  }

  lemma {:induction false} StoreAbove(fat: seq<byte>, c: nat, v: u16, d: nat)
    requires InTable(|fat|, c) && c < d
    ensures Entry(WithEntry(fat, c, v), d) == Entry(fat, d)
  {
    Offsets(c, d);
    EvenNibbles(fat[Offset(c) + 1], v);
  }

  // Storing an entry changes that entry and no other, shared nibbles included.
  lemma {:induction false} StoreThenLoad(fat: seq<byte>, c: nat, v: u16, d: nat)
    requires InTable(|fat|, c)
    ensures Entry(WithEntry(fat, c, v), d) == if d == c then v % 0x1000 else Entry(fat, d)
  {
    if d < c { StoreBelow(fat, c, v, d); }
    else if d == c { StoreSame(fat, c, v); }
    else { StoreAbove(fat, c, v, d); }
  }

  // The bits at the very end of the table that belong to no entry.
  function Slack(fat: seq<byte>): (r: nat) {
    if |fat| % 3 == 1 then fat[|fat| - 1]
    else if |fat| % 3 == 2 then fat[|fat| - 1] / 16
    else 0
  }

  lemma {:induction false} StoreKeepsSlack(fat: seq<byte>, c: nat, v: u16)
    requires InTable(|fat|, c)
    ensures Slack(WithEntry(fat, c, v)) == Slack(fat)
  {
    var k, m := c / 2, |fat| / 3;
    if c % 2 == 0 {
      assert c == 2 * k && Offset(c) == 3 * k;
      EvenNibbles(fat[3 * k + 1], v);
    } else {
      assert c == 2 * k + 1 && Offset(c) == 3 * k + 1;
    }
    assert |fat| == 3 * m + |fat| % 3;
  }

  // A table is determined by its entries and its slack bits.
  lemma {:induction false} EntriesDetermineBytes(f: seq<byte>, g: seq<byte>)
    requires |f| == |g|
    requires Slack(f) == Slack(g)
    requires forall c: nat :: Entry(f, c) == Entry(g, c)
    ensures f == g
  {
    forall i | 0 <= i < |f|
      ensures f[i] == g[i]
    {
      EntriesDetermineByte(f, g, i / 3, i);
    }
  }

  lemma OddInjective(a: byte, b: byte, c: byte, d: byte)
    requires OddEntry(a, b) == OddEntry(c, d)
    ensures a / 16 == c / 16 && b == d
  {
  }

  lemma EvenInjective(a: byte, b: byte, c: byte, d: byte)
    requires EvenEntry(a, b) == EvenEntry(c, d)
    ensures a == c && b % 16 == d % 16
  {
  }

  lemma {:induction false} EntriesDetermineByte(f: seq<byte>, g: seq<byte>, k: nat, i: nat)
    requires |f| == |g| && i < |f| && 3 * k <= i < 3 * k + 3
    requires Slack(f) == Slack(g)
    requires Entry(f, 2 * k) == Entry(g, 2 * k) && Entry(f, 2 * k + 1) == Entry(g, 2 * k + 1)
    ensures f[i] == g[i]
  {
    hide OddEntry, EvenEntry;
    assert Offset(2 * k) == 3 * k && Offset(2 * k + 1) == 3 * k + 1;
    if 3 * k + 1 < |f| {
      EvenInjective(f[3 * k], f[3 * k + 1], g[3 * k], g[3 * k + 1]);
      if 3 * k + 2 < |f| {
        OddInjective(f[3 * k + 1], f[3 * k + 2], g[3 * k + 1], g[3 * k + 2]);
      }
    }
  }

  // ---------------------------------------------------------------- the entries as a sequence

  type u12 = e: int | 0 <= e < 0x1000

  // Number of whole entries in a table of `size` bytes.
  function Capacity(size: nat): (n: nat)
    ensures forall c: nat :: InTable(size, c) <==> c < n
  {
    CapacityIsExact(size);
    size * 2 / 3
  }

  lemma {:induction false} CapacityIsExact(size: nat)
    ensures forall c: nat :: InTable(size, c) <==> c < size * 2 / 3
  {
    forall c: nat
      ensures InTable(size, c) <==> c < size * 2 / 3
    {
      var k := c / 2;
      assert c == 2 * k || c == 2 * k + 1;
    }
  }

  // The unpacked table.
  function Unpack(fat: seq<byte>): (t: seq<u12>)
    ensures |t| == Capacity(|fat|)
    ensures forall c: nat :: c < |t| ==> t[c] == Entry(fat, c)
  {
    seq(Capacity(|fat|), c requires 0 <= c < Capacity(|fat|) => Entry(fat, c))
  }

  // Storing one entry of the packed table stores that entry of the unpacked one.
  lemma {:induction false} StoreUnpacked(fat: seq<byte>, c: nat, v: u12)
    requires InTable(|fat|, c)
    ensures Unpack(WithEntry(fat, c, v)) == Unpack(fat)[c := v]
    ensures Slack(WithEntry(fat, c, v)) == Slack(fat)
  {
    hide Entry, WithEntry, Slack, Offset;
    StoreKeepsSlack(fat, c, v);
    forall d: nat | d < Capacity(|fat|)
      ensures Unpack(WithEntry(fat, c, v))[d] == Unpack(fat)[c := v][d]
    {
      StoreThenLoad(fat, c, v, d);
    }
  }

  // The table `fat` with the first `n` entries replaced by those of `t`.
  function PackUpTo(fat: seq<byte>, t: seq<u12>, n: nat): (r: seq<byte>)
    requires |t| == Capacity(|fat|) && n <= |t|
    ensures |r| == |fat|
  {
    if n == 0 then fat else WithEntry(PackUpTo(fat, t, n - 1), n - 1, t[n - 1])
  }

  // The table `fat` with all entries replaced by those of `t`.
  function Pack(fat: seq<byte>, t: seq<u12>): (r: seq<byte>)
    requires |t| == Capacity(|fat|)
    ensures |r| == |fat|
  {
    PackUpTo(fat, t, |t|)
  }

  lemma {:induction false} PackUpToEntries(fat: seq<byte>, t: seq<u12>, n: nat)
    requires |t| == Capacity(|fat|) && n <= |t|
    ensures Unpack(PackUpTo(fat, t, n)) == t[..n] + Unpack(fat)[n..]
    ensures Slack(PackUpTo(fat, t, n)) == Slack(fat)
  {
    hide WithEntry, Entry, Slack, OddEntry, EvenEntry;
    if n > 0 {
      PackUpToEntries(fat, t, n - 1);
      StoreUnpacked(PackUpTo(fat, t, n - 1), n - 1, t[n - 1]);
    }
  }

  // Packing then unpacking returns the entries.
  lemma {:induction false} PackThenUnpack(fat: seq<byte>, t: seq<u12>)
    requires |t| == Capacity(|fat|)
    ensures Unpack(Pack(fat, t)) == t
    ensures Slack(Pack(fat, t)) == Slack(fat)
  {
    PackUpToEntries(fat, t, |t|);
  }

  // A table that holds the entries `t` and has the unused bits of `fat` is `fat` repacked.
  lemma {:induction false} PackIsUnique(fat: seq<byte>, g: seq<byte>)
    requires |g| == |fat| && Slack(g) == Slack(fat)
    ensures g == Pack(fat, Unpack(g))
  {
    hide Pack, Slack, WithEntry;
    var p := Pack(fat, Unpack(g));
    PackThenUnpack(fat, Unpack(g));
    forall c: nat
      ensures Entry(p, c) == Entry(g, c)
    {
      if c < Capacity(|g|) {
        assert Unpack(p)[c] == Unpack(g)[c];
      }
    }
    EntriesDetermineBytes(p, g);
  }

  predicate SlackFits(size: nat, slack: nat) {
    slack < if size % 3 == 1 then 0x100 else if size % 3 == 2 then 16 else 1
  }

  // A table of `size` bytes whose entries are all free.
  function Blank(size: nat, slack: nat): (r: seq<byte>)
    requires SlackFits(size, slack)
    ensures |r| == size && Slack(r) == slack
  {
    seq(size, i => if i != size - 1 then 0 else if size % 3 == 1 then slack else slack * 16)
  }

  // The packed form of the entries `t` and the unused bits `slack`.
  function TableBytes(size: nat, t: seq<u12>, slack: nat): (r: seq<byte>)
    requires |t| == Capacity(size) && SlackFits(size, slack)
    ensures |r| == size
  {
    Pack(Blank(size, slack), t)
  }

  // Packed tables and (entries, unused bits) are in one-to-one correspondence.
  lemma {:induction false} TableBytesRoundTrip(size: nat, t: seq<u12>, slack: nat)
    requires |t| == Capacity(size) && SlackFits(size, slack)
    ensures Unpack(TableBytes(size, t, slack)) == t
    ensures Slack(TableBytes(size, t, slack)) == slack
  {
    PackThenUnpack(Blank(size, slack), t);
  }

  lemma {:induction false} UnpackRoundTrip(fat: seq<byte>)
    ensures SlackFits(|fat|, Slack(fat))
    ensures TableBytes(|fat|, Unpack(fat), Slack(fat)) == fat
  {
    PackIsUnique(Blank(|fat|, Slack(fat)), fat);
  }
}

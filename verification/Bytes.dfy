/**
 Machine integers, modelled as bounded mathematical integers. Shifts and masks of the
 C and Python sources become division and remainder by powers of two.
 */
module Bytes {

  type byte = b: int | 0 <= b < 0x100
  type u16 = w: int | 0 <= w < 0x1_0000
  type u32 = w: int | 0 <= w < 0x1_0000_0000

  const TWO32: int := 0x1_0000_0000

  // Little-endian fields at offset `o`.
  function Le16(s: seq<byte>, o: nat): (r: u16)
    requires o + 2 <= |s|
  {
    s[o] as int + s[o + 1] as int * 0x100
  }

  function Le32(s: seq<byte>, o: nat): (r: u32)
    requires o + 4 <= |s|
  {
    s[o] as int + s[o + 1] as int * 0x100 + s[o + 2] as int * 0x1_0000 + s[o + 3] as int * 0x100_0000
  }

  function Le16Bytes(w: u16): (r: seq<byte>)
    ensures |r| == 2 && Le16(r, 0) == w
  {
    [w % 0x100, w / 0x100]
  }

  function Le32Bytes(w: u32): (r: seq<byte>)
    ensures |r| == 4 && Le32(r, 0) == w
  {
    Digits32(w);
    [w % 0x100, w / 0x100 % 0x100, w / 0x1_0000 % 0x100, w / 0x100_0000]
  }

  lemma Base256(q: int, r: int)
    requires 0 <= r < 0x100
    ensures (0x100 * q + r) / 0x100 == q && (0x100 * q + r) % 0x100 == r
  {
  }

  lemma {:induction false} Digits32(w: u32)
    ensures w / 0x100_0000 < 0x100
    ensures w == w % 0x100 + w / 0x100 % 0x100 * 0x100 + w / 0x1_0000 % 0x100 * 0x1_0000 + w / 0x100_0000 * 0x100_0000
  {
    var mid := w / 0x100;
    var hi := mid / 0x100;
    assert w / 0x1_0000 == hi;
    assert w / 0x100_0000 == hi / 0x100;
    assert w == mid * 0x100 + w % 0x100 && mid == hi * 0x100 + mid % 0x100 && hi == hi / 0x100 * 0x100 + hi % 0x100;
  }

  lemma Le16RoundTrip(b: seq<byte>, o: nat)
    requires o + 2 <= |b|
    ensures Le16Bytes(Le16(b, o)) == b[o..o + 2]
  {
  }

  lemma {:induction false} Digits(b0: byte, b1: byte, b2: byte, b3: byte)
    ensures var w := b0 as int + b1 as int * 0x100 + b2 as int * 0x1_0000 + b3 as int * 0x100_0000;
            w % 0x100 == b0 && w / 0x100 % 0x100 == b1 && w / 0x1_0000 % 0x100 == b2 && w / 0x100_0000 == b3
  {
    var hi: int := b2 as int + b3 as int * 0x100;
    var mid: int := b1 as int + hi * 0x100;
    var w: int := b0 as int + mid * 0x100;
    assert w % 0x100 == b0 && w / 0x100 == mid;
    assert mid % 0x100 == b1 && w / 0x1_0000 == hi;
    assert hi % 0x100 == b2 && w / 0x100_0000 == b3;
  }

  lemma {:induction false} Le32RoundTrip(b: seq<byte>, o: nat)
    requires o + 4 <= |b|
    ensures Le32Bytes(Le32(b, o)) == b[o..o + 4]
  {
    Digits(b[o], b[o + 1], b[o + 2], b[o + 3]);
  }

  // A sequence with `repl` stored from offset `o` on.
  function Splice(s: seq<byte>, o: nat, repl: seq<byte>): (r: seq<byte>)
    requires o + |repl| <= |s|
    ensures |r| == |s|
    ensures r[o..o + |repl|] == repl
    ensures forall k :: 0 <= k < |s| && !(o <= k < o + |repl|) ==> r[k] == s[k]
    ensures forall k :: 0 <= k < |repl| ==> r[o + k] == repl[k]
  {
    s[..o] + repl + s[o + |repl|..]
  }

  function Zeros(n: nat): (r: seq<byte>)
    ensures |r| == n
    ensures forall k :: 0 <= k < n ==> r[k] == 0
  {
    seq(n, _ => 0)
  }
}

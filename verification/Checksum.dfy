/**
 The ones' complement checksum of RFC 1071: both forms used by the stack, over words and over
 bytes.
 */
module Checksum {
  import opened Bytes

  // ---------------------------------------------------------------- sums and folding

  function Total(w: seq<u16>): (n: nat) {
    if w == [] then 0 else Total(w[..|w| - 1]) + w[|w| - 1]
  }

  lemma {:induction false} TotalBound(w: seq<u16>)
    ensures Total(w) <= 65535 * |w|
    decreases |w|
  {
    if w != [] {
      TotalBound(w[..|w| - 1]);
    }
  }

  lemma {:induction false} TotalAppend(a: seq<u16>, b: seq<u16>)
    ensures Total(a + b) == Total(a) + Total(b)
    decreases |b|
  {
    if b == [] {
      assert a + b == a;
    } else {
      TotalAppend(a, b[..|b| - 1]);
      assert (a + b)[..|a + b| - 1] == a + b[..|b| - 1];
    }
  }

  // Adding the carries back in until the sum fits 16 bits.
  function Fold(n: nat): (r: u16)
    decreases n
  {
    if n < 0x1_0000 then n else Fold(n % 0x1_0000 + n / 0x1_0000)
  }

  // What folding comes to: the residue modulo 65535, with 65535 for a non-zero multiple.
  function Residue(n: nat): (r: u16) {
    if n == 0 then 0 else if n % 65535 == 0 then 65535 else n % 65535
  }

  lemma {:induction false} CarryKeeps(n: nat)
    requires n >= 0x1_0000
    ensures var m := n % 0x1_0000 + n / 0x1_0000; 0 < m < n && m % 65535 == n % 65535
  {
    var q, r := n / 0x1_0000, n % 0x1_0000;
    assert n == 65535 * q + (q + r);
    AddMultiple(q + r, q);
  }

  lemma AddMultiple(a: int, k: int)
    ensures (a + 65535 * k) % 65535 == a % 65535
  {
  }

  lemma {:induction false} FoldIsResidue(n: nat)
    ensures Fold(n) == Residue(n)
    decreases n
  {
    if n >= 0x1_0000 {
      CarryKeeps(n);
      FoldIsResidue(n % 0x1_0000 + n / 0x1_0000);
    }
  }

  // ---------------------------------------------------------------- byte order

  function Swap16(w: u16): (r: u16) {
    w % 256 * 256 + w / 256
  }

  function Swapped(w: seq<u16>): (r: seq<u16>)
    ensures |r| == |w| && forall i :: 0 <= i < |w| ==> r[i] == Swap16(w[i])
  {
    seq(|w|, i requires 0 <= i < |w| => Swap16(w[i]))
  }

  // Swapping the bytes of a word multiplies it by 256, modulo 65535.
  lemma {:induction false} SwapScales(w: u16)
    ensures Swap16(w) % 65535 == 256 * w % 65535
    ensures Swap16(w) == 0 <==> w == 0
  {
    var hi, lo := w / 256, w % 256;
    assert 256 * w == (256 * lo + hi) + 65535 * hi;
    AddMultiple(256 * lo + hi, hi);
  }

  lemma {:induction false} ModSum(a: int, b: int, c: int)
    requires a % 65535 == b % 65535
    ensures (a + c) % 65535 == (b + c) % 65535
  {
    var k := a / 65535 - b / 65535;
    assert a + c == (b + c) + 65535 * k;
    AddMultiple(b + c, k);
  }

  lemma {:induction false} ModScale(a: int, b: int)
    requires a % 65535 == b % 65535
    ensures 256 * a % 65535 == 256 * b % 65535
  {
    var k := a / 65535 - b / 65535;
    assert 256 * a == 256 * b + 65535 * (256 * k);
    AddMultiple(256 * b, 256 * k);
  }

  lemma {:induction false} TotalScales(w: seq<u16>)
    ensures Total(Swapped(w)) % 65535 == 256 * Total(w) % 65535
    ensures Total(Swapped(w)) == 0 <==> Total(w) == 0
    decreases |w|
  {
    if w != [] {
      var m := |w| - 1;
      var x, y := Total(w[..m]), Total(Swapped(w[..m]));
      assert Swapped(w)[..m] == Swapped(w[..m]);
      TotalScales(w[..m]);
      SwapScales(w[m]);
      ModSum(y, 256 * x, Swap16(w[m]));
      ModSum(Swap16(w[m]), 256 * (w[m] as int), 256 * x);
      assert 256 * x + 256 * (w[m] as int) == 256 * Total(w);
    }
  }

  // Numbers of 16 bits that agree modulo 65535 and in being zero are equal.
  lemma SameResidue(a: u16, b: u16)
    requires a % 65535 == b % 65535 && (a == 0 <==> b == 0)
    ensures a == b
  {
  }

  lemma ResidueFacts(n: nat)
    ensures Residue(n) % 65535 == n % 65535 && (Residue(n) == 0 <==> n == 0)
  {
  }

  // Folding the swapped sum and swapping the result back is folding the sum.
  lemma {:induction false} SwapFold(w: seq<u16>)
    ensures Swap16(Fold(Total(Swapped(w)))) == Fold(Total(w))
  {
    hide Fold, Swap16, Residue;
    var t, s := Total(w), Total(Swapped(w));
    FoldIsResidue(t);
    FoldIsResidue(s);
    ResidueFacts(t);
    ResidueFacts(s);
    TotalScales(w);
    var f := Residue(s);
    SwapScales(f);
    ModScale(f, 256 * t);
    assert 256 * (256 * t) == t + 65535 * t;
    AddMultiple(t, t);
    SameResidue(Swap16(f), Residue(t));
  }

  lemma {:induction false} SwapComplement(w: u16)
    ensures Swap16(65535 - w) == 65535 - Swap16(w)
  {
    var hi, lo := w / 256, w % 256;
    assert 65535 - w == 256 * (255 - hi) + (255 - lo);
  }

  // ---------------------------------------------------------------- both forms

  // The running 32-bit sum.
  function Sum32(w: seq<u16>): (n: u32) {
    Total(w) % TWO32
  }

  function NativeForm(w: seq<u16>): (c: u16) { 65535 - Fold(Sum32(w)) }

  function SwappingForm(w: seq<u16>): (c: u16) { Swap16(65535 - Fold(Sum32(Swapped(w)))) }

  // 65537 words cannot overflow the sum.
  lemma {:induction false} NoOverflow(w: seq<u16>)
    requires |w| <= 65537
    ensures Sum32(w) == Total(w)
  {
    TotalBound(w);
  }

  // Both forms agree on up to 65537 words, whatever the words.
  lemma {:induction false} ByteOrderIndependence(w: seq<u16>)
    requires |w| <= 65537
    ensures SwappingForm(w) == NativeForm(w)
  {
    hide Fold, Swap16, Sum32;
    NoOverflow(w);
    NoOverflow(Swapped(w));
    SwapFold(w);
    SwapComplement(Fold(Total(Swapped(w))));
  }

  // What is left of a sum after the 32-bit wrap, modulo 65535: each wrap loses 1.
  lemma {:induction false} WrapLosesOne(n: nat)
    ensures n % TWO32 % 65535 == (n - n / TWO32) % 65535
  {
    var q := n / TWO32;
    assert n % TWO32 == (n - q) - 65535 * (65537 * q);
    AddMultiple(n - q, -(65537 * q));
  }

  // The forms agree on an array, of any length, if and only if the wraps of the two sums match
  // (modulo 65535, the swapped one scaled) and neither sum wraps to zero alone.
  lemma {:induction false} FormsAgreeIff(w: seq<u16>)
    ensures var t, s := Total(w), Total(Swapped(w));
            SwappingForm(w) == NativeForm(w) <==>
              && t / TWO32 % 65535 == 256 * (s / TWO32) % 65535
              && (t % TWO32 == 0 <==> s % TWO32 == 0)
  {
    hide Fold, Swap16, Residue, Total;
    var t, s := Total(w), Total(Swapped(w));
    var a, b := t % TWO32, s % TWO32;
    FoldIsResidue(a);
    FoldIsResidue(b);
    ResidueFacts(a);
    ResidueFacts(b);
    SwapComplement(Fold(b));
    SwapScales(Fold(b));
    ModScale(Fold(b), b);
    assert SwappingForm(w) == NativeForm(w) <==> Fold(a) == Swap16(Fold(b));
    if a % 65535 == 256 * b % 65535 && (a == 0 <==> b == 0) {
      SameResidue(Fold(a), Swap16(Fold(b)));
    }
    assert Fold(a) == Swap16(Fold(b)) <==> a % 65535 == 256 * b % 65535 && (a == 0 <==> b == 0);
    TotalScales(w);
    WrapsMatch(t, s);
  }

  // Sums in the ratio 256 stay so under the wrap exactly when their wraps do.
  lemma {:induction false} WrapsMatch(t: nat, s: nat)
    requires s % 65535 == 256 * t % 65535
    ensures t % TWO32 % 65535 == 256 * (s % TWO32) % 65535 <==> t / TWO32 % 65535 == 256 * (s / TWO32) % 65535
  {
    var p, q := t / TWO32, s / TWO32;
    WrapLosesOne(t);
    WrapLosesOne(s);
    ModScale(s % TWO32, s - q);
    ModScale(s, 256 * t);
    ModSum(256 * s, 256 * (256 * t), -256 * q);
    AddMultiple(t - 256 * q, t);
    assert 256 * (256 * t) - 256 * q == (t - 256 * q) + 65535 * t;
    assert 256 * (s % TWO32) % 65535 == (t - 256 * q) % 65535;
    CancelSum(t, p, 256 * q);
  }

  lemma {:induction false} CancelSum(t: int, p: int, q: int)
    ensures (t - p) % 65535 == (t - q) % 65535 <==> p % 65535 == q % 65535
  {
    if p % 65535 == q % 65535 {
      var k := p / 65535 - q / 65535;
      assert t - q == (t - p) + 65535 * k;
      AddMultiple(t - p, k);
    }
    if (t - p) % 65535 == (t - q) % 65535 {
      var k := (t - q) / 65535 - (t - p) / 65535;
      assert p == q + 65535 * k;
      AddMultiple(q, k);
    }
  }

  // The forms agree on every array of a length if and only if that is at most 65537.
  lemma {:induction false} LengthAgreesIff(n: nat)
    ensures (forall w: seq<u16> :: |w| == n ==> SwappingForm(w) == NativeForm(w)) <==> n <= 65537
  {
    if n <= 65537 {
      forall w: seq<u16> | |w| == n
        ensures SwappingForm(w) == NativeForm(w)
      {
        ByteOrderIndependence(w);
      }
    } else {
      hide SwappingForm, NativeForm;
      OneWordTooMany(n);
      assert |TooMany(n)| == n;
    }
  }

  // 65538 words of ones, then zeros.
  function TooMany(n: nat): (w: seq<u16>)
    requires n >= 65538
    ensures |w| == n
  {
    seq(65538, _ => 65535) + seq(n - 65538, _ => 0)
  }

  // The bound is sharp: one word more, and the sum can wrap.
  lemma {:induction false} OneWordTooMany(n: nat)
    requires n >= 65538
    ensures NativeForm(TooMany(n)) == 1 && SwappingForm(TooMany(n)) == 256
  {
    var ones: seq<u16>, zeros: seq<u16> := seq(65538, _ => 65535), seq(n - 65538, _ => 0);
    var w := TooMany(n);
    AllOnes(65538);
    AllZeros(n - 65538);
    TotalAppend(ones, zeros);
    assert Swap16(65535) == 65535 && Swap16(0) == 0;
    assert Swapped(w) == w;
    assert Total(w) % TWO32 == 65534;
    assert Fold(65534) == 65534;
  }

  lemma {:induction false} AllZeros(n: nat)
    ensures Total(seq(n, _ => 0)) == 0
    decreases n
  {
    if n > 0 {
      AllZeros(n - 1);
      var w: seq<u16> := seq(n, _ => 0);
      assert w[..n - 1] == seq(n - 1, _ => 0);
    }
  }

  lemma {:induction false} AllOnes(n: nat)
    ensures Total(seq(n, _ => 65535)) == 65535 * n
    decreases n
  {
    if n > 0 {
      AllOnes(n - 1);
      var w: seq<u16> := seq(n, _ => 65535);
      assert w[..n - 1] == seq(n - 1, _ => 65535);
    }
  }

  lemma {:induction false} TotalStarts(w: seq<u16>)
    ensures Total(w[..0]) == 0
  {
    assert w[..0] == [];
  }

  lemma {:induction false} TotalGoesOn(w: seq<u16>, i: nat)
    requires i < |w|
    ensures Total(w[..i + 1]) == Total(w[..i]) + w[i]
  {
    assert w[..i + 1][..i] == w[..i];
  }

  lemma {:induction false} SumStarts(w: seq<u16>)
    ensures Sum32(w[..0]) == 0
  {
    TotalStarts(w);
  }

  lemma {:induction false} SumGoesOn(w: seq<u16>, i: nat)
    requires i < |w|
    ensures Sum32(w[..i + 1]) == (Sum32(w[..i]) + w[i]) % TWO32
  {
    TotalGoesOn(w, i);
  }

  // ip_checksum, in the form that swaps every word and the result
  method IpChecksum(data: seq<u16>) returns (c: u16)
    requires |data| < TWO32
    ensures c == SwappingForm(data)
  {
    hide Sum32, Swap16, Fold;
    var sum: u32 := 0;
    ghost var s := Swapped(data);
    SumStarts(s);
    for i := 0 to |data|
      invariant sum == Sum32(s[..i])
    {
      SumGoesOn(s, i);
      sum := (sum + Swap16(data[i])) % TWO32;
    }
    assert s[..|data|] == s;
    sum := FoldSum(sum);
    c := Swap16(65535 - sum);
  }

  // ip_checksum, in native order
  method NativeChecksum(data: seq<u16>) returns (c: u16)
    requires |data| < TWO32
    ensures c == NativeForm(data)
  {
    hide Sum32, Fold;
    var sum: u32 := 0;
    SumStarts(data);
    for i := 0 to |data|
      invariant sum == Sum32(data[..i])
    {
      SumGoesOn(data, i);
      sum := (sum + data[i]) % TWO32;
    }
    assert data[..|data|] == data;
    sum := FoldSum(sum);
    c := 65535 - sum;
  }

  // The folding loop.
  method FoldSum(n: u32) returns (r: u16)
    ensures r == Fold(n)
  {
    var sum: nat := n;
    while sum / 0x1_0000 != 0
      invariant Fold(sum) == Fold(n)
      decreases sum
    {
      sum := sum % 0x1_0000 + sum / 0x1_0000;
    }
    r := sum;
  }

  // ---------------------------------------------------------------- words of bytes

  // Network-order words; an odd last byte is padded with zero.
  function WordsOf(b: seq<byte>): (w: seq<u16>)
    ensures |w| == (|b| + 1) / 2
    ensures forall i :: 0 <= i < |w| ==> w[i] == WordAt(b, i)
  {
    seq((|b| + 1) / 2, i requires 0 <= i < (|b| + 1) / 2 => WordAt(b, i))
  }

  function WordAt(b: seq<byte>, i: nat): (w: u16)
    requires 2 * i < |b|
  {
    b[2 * i] as int * 256 + if 2 * i + 1 < |b| then b[2 * i + 1] as int else 0
  }

  lemma {:induction false} WordsAppend(a: seq<byte>, b: seq<byte>)
    requires |a| % 2 == 0
    ensures WordsOf(a + b) == WordsOf(a) + WordsOf(b)
  {
    hide WordsOf;
    var n := |a| / 2;
    assert |WordsOf(a + b)| == n + |WordsOf(b)|;
    forall i | 0 <= i < |WordsOf(a + b)|
      ensures WordAt(a + b, i) == if i < n then WordAt(a, i) else WordAt(b, i - n)
    {
    }
  }

  function Be16(w: u16): (b: seq<byte>)
    ensures |b| == 2
  {
    [w / 256, w % 256]
  }

  function Be32(w: u32): (b: seq<byte>)
    ensures |b| == 4
  {
    Be16(w / 0x1_0000) + Be16(w % 0x1_0000)
  }

  function Read16(b: seq<byte>, o: nat): (w: u16)
    requires o + 2 <= |b|
  {
    b[o] as int * 256 + b[o + 1] as int
  }

  function Read32(b: seq<byte>, o: nat): (w: u32)
    requires o + 4 <= |b|
  {
    Read16(b, o) * 0x1_0000 + Read16(b, o + 2)
  }

  // A block sums to zero on the wire: the receiver's test.
  predicate Verifies(b: seq<byte>) {
    65535 - Fold(Total(WordsOf(b))) == 0
  }

  // ... which is to say that its sum is a non-zero multiple of 65535.
  lemma {:induction false} VerifiesIff(b: seq<byte>)
    ensures Verifies(b) <==> Total(WordsOf(b)) > 0 && Total(WordsOf(b)) % 65535 == 0
  {
    FoldIsResidue(Total(WordsOf(b)));
  }

  // Filling a zero field with the checksum of the rest makes a block verify.
  lemma {:induction false} FilledVerifies(a: seq<byte>, b: seq<byte>)
    requires |a| % 2 == 0 && Total(WordsOf(a + Be16(0) + b)) > 0
    ensures Verifies(a + Be16(65535 - Fold(Total(WordsOf(a + Be16(0) + b)))) + b)
  {
    hide Fold, Total, WordsOf, Be16, Verifies, Residue;
    var t := Total(WordsOf(a + Be16(0) + b));
    var c := 65535 - Fold(t);
    FieldTotal(a, 0, b);
    FieldTotal(a, c, b);
    FoldIsResidue(t);
    ResidueFacts(t);
    VerifiesIff(a + Be16(c) + b);
    ModSum(Fold(t), t, c);
    assert Fold(t) + c == 65535;
  }

  lemma {:induction false} FieldTotal(a: seq<byte>, w: u16, b: seq<byte>)
    requires |a| % 2 == 0
    ensures Total(WordsOf(a + Be16(w) + b)) == Total(WordsOf(a)) + w + Total(WordsOf(b))
  {
    WordsAppend(a, Be16(w));
    WordsAppend(a + Be16(w), b);
    assert WordsOf(Be16(w)) == [w];
    TotalAppend(WordsOf(a) + [w], WordsOf(b));
    TotalAppend(WordsOf(a), [w]);
    assert Total([w]) == w by { assert [w][..0] == []; }
  }

  lemma {:induction false} SameWord(rest: int, v: u16, w: u16)
    requires (rest + v) % 65535 == 0 && (rest + w) % 65535 == 0 && v != w
    ensures (v == 0 && w == 65535) || (v == 65535 && w == 0)
  {
    ModSum(rest + v, rest + w, -rest);
  }

  // The test catches every change to one word, except between 0 and 65535.
  lemma {:induction false} CatchesOneWord(a: seq<byte>, v: u16, w: u16, b: seq<byte>)
    requires |a| % 2 == 0 && Verifies(a + Be16(v) + b) && v != w
    ensures Verifies(a + Be16(w) + b) ==> (v == 0 && w == 65535) || (v == 65535 && w == 0)
  {
    hide Verifies, Total, WordsOf, Be16;
    FieldTotal(a, v, b);
    FieldTotal(a, w, b);
    VerifiesIff(a + Be16(v) + b);
    VerifiesIff(a + Be16(w) + b);
    if Verifies(a + Be16(w) + b) {
      SameWord(Total(WordsOf(a)) + Total(WordsOf(b)), v, w);
    }
  }
}

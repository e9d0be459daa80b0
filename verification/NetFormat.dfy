/**
 The network formats byte by byte: what the stack sends, and what it makes of any well-formed IPv4
 header or TCP segment, options and all, as RFC 791 and RFC 793 lay them out.
 */
module NetFormat {
  import opened Bytes
  import opened Common
  import opened Checksum
  import opened IpPackets
  import opened TcpSegments

  // ---------------------------------------------------------------- network order

  // The most significant byte comes first.
  lemma {:induction false} NetworkOrder(a: byte, b: byte, c: byte, d: byte)
    ensures Be16(0x100 * a + b) == [a, b]
    ensures Be32(0x100_0000 * a + 0x1_0000 * b + 0x100 * c + d) == [a, b, c, d]
    ensures Read16([a, b], 0) == 0x100 * a + b
    ensures Read32([a, b, c, d], 0) == 0x100_0000 * a + 0x1_0000 * b + 0x100 * c + d
  {
    var hi, lo := 0x100 * a + b, 0x100 * c + d;
    assert 0x100_0000 * a + 0x1_0000 * b + 0x100 * c + d == 0x1_0000 * hi + lo;
    HighLow(hi, lo);
  }

  lemma HighLow(hi: u16, lo: u16)
    ensures (0x1_0000 * hi + lo) / 0x1_0000 == hi && (0x1_0000 * hi + lo) % 0x1_0000 == lo
  {
  }

  // ---------------------------------------------------------------- the checksum

  lemma {:induction false} FiveWords(a: u16, b: u16, c: u16, d: u16, e: u16)
    ensures Total([a, b, c, d, e]) == a + b + c + d + e
  {
    assert [a, b, c, d, e] == [a, b] + [c, d, e] && [c, d, e] == [c] + [d, e];
    TotalAppend([a, b], [c, d, e]);
    TotalAppend([c], [d, e]);
    TwoWords(a, b);
    TwoWords(d, e);
    assert [c][..0] == [];
  }

  lemma TwoWords(a: u16, b: u16)
    ensures Total([a, b]) == a + b
  {
    assert [a, b] == [a] + [b] && [a][..0] == [] && [b][..0] == [];
    TotalAppend([a], [b]);
  }

  // A header whose checksum, 0xB861, is known.
  const EXAMPLE: seq<byte> := [0x45, 0x00, 0x00, 0x73, 0x00, 0x00, 0x40, 0x00, 0x40, 0x11]
  const EXAMPLE_ADDRESSES: seq<byte> := [0xC0, 0xA8, 0x00, 0x01, 0xC0, 0xA8, 0x00, 0xC7]

  lemma {:induction false} KnownChecksum()
    ensures 65535 - Fold(Total(WordsOf(EXAMPLE + [0, 0] + EXAMPLE_ADDRESSES))) == 0xB861
    ensures Verifies(EXAMPLE + [0xB8, 0x61] + EXAMPLE_ADDRESSES)
  {
    var tail := [0, 0] + EXAMPLE_ADDRESSES;
    assert EXAMPLE + [0, 0] + EXAMPLE_ADDRESSES == EXAMPLE + tail;
    WordsAppend(EXAMPLE, tail);
    assert WordsOf(EXAMPLE) == [0x4500, 0x0073, 0x0000, 0x4000, 0x4011];
    assert WordsOf(tail) == [0x0000, 0xC0A8, 0x0001, 0xC0A8, 0x00C7];
    TotalAppend(WordsOf(EXAMPLE), WordsOf(tail));
    FiveWords(0x4500, 0x0073, 0x0000, 0x4000, 0x4011);
    FiveWords(0x0000, 0xC0A8, 0x0001, 0xC0A8, 0x00C7);
    NetworkOrder(0xB8, 0x61, 0, 0);
    assert Be16(0) == [0, 0];
    FilledVerifies(EXAMPLE, EXAMPLE_ADDRESSES);
  }

  // ---------------------------------------------------------------- IPv4

  // What is sent starts with these bytes, checksum left out, and carries both addresses.
  lemma {:induction false} PacketBytes(id: u16, dst: u32, protocol: byte, payload: seq<byte>)
    requires |payload| <= ETH_MTU - IP_HLEN
    ensures var p, n := Packet(id, dst, protocol, payload), 20 + |payload|;
            && p[..10] == [0x45, 0, n / 0x100, n % 0x100, id / 0x100, id % 0x100, 0x40, 0, 64, protocol]
            && p[12..16] == [10, 0, 2, 15] && Read32(p, 16) == dst && p[20..] == payload
  {
    hide HeaderChecksum, Be32;
    var p := Packet(id, dst, protocol, payload);
    assert p[16..20] == Be32(dst) && p[12..16] == Be32(OUR_IP);
    ReadsBack32(dst, 16, p);
    NetworkOrder(10, 0, 2, 15);
  }

  datatype IpFields = IpFields(tos: byte, id: u16, frag: u16, ttl: byte, protocol: byte, src: u32, dst: u32,
                               options: seq<byte>) {
    predicate Valid() { |options| <= 40 && |options| % 4 == 0 }
  }

  function IpStart(f: IpFields, total: u16): (b: seq<byte>)
    requires f.Valid()
    ensures |b| == 10
  {
    [0x45 + |f.options| / 4, f.tos] + Be16(total) + Be16(f.id) + Be16(f.frag) + [f.ttl, f.protocol]
  }

  function IpEnd(f: IpFields): (b: seq<byte>)
    ensures |b| == 8 + |f.options|
  {
    Be32(f.src) + Be32(f.dst) + f.options
  }

  // Any header, its checksum filled in.
  function IpHeader(f: IpFields, total: u16): (b: seq<byte>)
    requires f.Valid()
    ensures |b| == 20 + |f.options|
  {
    IpStart(f, total)
    + Be16(65535 - Fold(Total(WordsOf(IpStart(f, total) + Be16(0) + IpEnd(f))))) + IpEnd(f)
  }

  lemma {:induction false} IpHeaderVerifies(f: IpFields, total: u16)
    requires f.Valid()
    ensures Verifies(IpHeader(f, total))
  {
    hide Fold, Total, WordsOf, IpEnd, Be16;
    var a, b := IpStart(f, total), IpEnd(f);
    assert a[0] == 0x45 + |f.options| / 4;
    SomeWord(a, Be16(0) + b);
    assert a + (Be16(0) + b) == a + Be16(0) + b;
    FilledVerifies(a, b);
  }

  lemma {:induction false} IpHeaderFields(f: IpFields, total: u16, rest: seq<byte>)
    requires f.Valid()
    ensures var d := IpHeader(f, total) + rest;
            && d[0] == 0x45 + |f.options| / 4 && d[9] == f.protocol && Read16(d, 2) == total
            && Read16(d, 6) == f.frag && Read32(d, 12) == f.src
  {
    hide Be16, Be32, Fold, Total, WordsOf;
    var d := IpHeader(f, total) + rest;
    assert d[2..4] == Be16(total) && d[6..8] == Be16(f.frag) && d[12..16] == Be32(f.src);
    ReadsBack16(total, 2, d);
    ReadsBack16(f.frag, 6, d);
    ReadsBack32(f.src, 12, d);
  }

  // A packet with any such header is passed on, without its options and padding, exactly when it
  // is no fragment: more-fragments bit and offset are zero.
  lemma {:induction false} PacketAccepted(f: IpFields, payload: seq<byte>, padding: seq<byte>, reserved: nat, df: nat,
                                          mf: nat, offset: nat)
    requires f.Valid() && 20 + |f.options| + |payload| < 0x1_0000
    requires reserved < 2 && df < 2 && mf < 2 && offset < 0x2000
    requires f.frag == 0x8000 * reserved + 0x4000 * df + 0x2000 * mf + offset
    ensures Accept(IpHeader(f, 20 + |f.options| + |payload|) + payload + padding)
            == if mf == 0 && offset == 0 then Some(Datagram(f.protocol, payload, f.src)) else None
  {
    hide IpHeader, Read16, Read32, Verifies;
    var n := 20 + |f.options| + |payload|;
    var h := IpHeader(f, n);
    var d := h + payload + padding;
    assert d == h + (payload + padding);
    IpHeaderFields(f, n, payload + padding);
    IpHeaderVerifies(f, n);
    var hlen := 20 + |f.options|;
    assert (0x45 + |f.options| / 4) % 16 * 4 == hlen && (0x45 + |f.options| / 4) / 16 == 4;
    assert d[..hlen] == h && d[hlen..n] == payload;
    FragmentField(f.frag, reserved, df, mf, offset);
  }

  lemma FragmentField(frag: u16, reserved: nat, df: nat, mf: nat, offset: nat)
    requires reserved < 2 && df < 2 && mf < 2 && offset < 0x2000
    requires frag == 0x8000 * reserved + 0x4000 * df + 0x2000 * mf + offset
    ensures frag / 0x2000 % 2 == mf && frag % 0x2000 == offset
  {
    assert frag / 0x2000 == 4 * reserved + 2 * df + mf;
  }

  // A packet in whose header one word behind the first was changed is dropped, unless 0 became
  // 65535 or the reverse.
  lemma {:induction false} HeaderDamageIsDropped(a: seq<byte>, v: u16, w: u16, b: seq<byte>)
    requires |a| >= 2 && |a| % 2 == 0 && v != w && !(v == 0 && w == 65535) && !(v == 65535 && w == 0)
    requires |a| + 2 <= a[0] as int % 16 * 4
    requires Accept(a + Be16(v) + b).Some?
    ensures Accept(a + Be16(w) + b) == None
  {
    hide Verifies, Read16, Read32, Be16;
    var hlen := a[0] as int % 16 * 4;
    var d, d2 := a + Be16(v) + b, a + Be16(w) + b;
    assert d[0] == a[0] && d2[0] == a[0];
    var rest := b[..hlen - |a| - 2];
    assert d[..hlen] == a + Be16(v) + rest && d2[..hlen] == a + Be16(w) + rest;
    CatchesOneWord(a, v, w, rest);
  }

  // ---------------------------------------------------------------- TCP

  // What is sent starts with these bytes, checksum left out.
  lemma {:induction false} SegmentBytes(e: Ends, s: Segment)
    requires |s.payload| <= TCP_MSS
    ensures var b := Build(e, s);
            && b[..4] == [e.localPort / 0x100, e.localPort % 0x100, e.remotePort / 0x100, e.remotePort % 0x100]
            && Read32(b, 4) == s.seqNum && Read32(b, 8) == s.ackNum
            && b[12..16] == [0x50, s.flags, 0xFF, 0xFF] && b[18..] == [0, 0] + s.payload
    ensures SegmentPseudo(e, s)
            == Be32(e.localIp) + Be32(e.remoteIp) + [0, 6, (20 + |s.payload|) / 0x100, (20 + |s.payload|) % 0x100]
  {
    hide SegmentChecksum, Be32;
    BuiltFields(e, s);
  }

  datatype TcpExtras = TcpExtras(window: u16, urgent: u16, options: seq<byte>) {
    predicate Valid() { |options| <= 40 && |options| % 4 == 0 }
  }

  function TcpStart(e: Ends, s: Segment, x: TcpExtras): (b: seq<byte>)
    requires x.Valid()
    ensures |b| == 16
  {
    Be16(e.localPort) + Be16(e.remotePort) + Be32(s.seqNum) + Be32(s.ackNum)
    + [0x50 + 0x10 * (|x.options| / 4), s.flags] + Be16(x.window)
  }

  function TcpEnd(s: Segment, x: TcpExtras): (b: seq<byte>) {
    Be16(x.urgent) + x.options + s.payload
  }

  function TcpLength(s: Segment, x: TcpExtras): (n: nat) { 20 + |x.options| + |s.payload| }

  // Any segment, its checksum filled in.
  function TcpBytes(e: Ends, s: Segment, x: TcpExtras): (b: seq<byte>)
    requires x.Valid() && TcpLength(s, x) < 0x1_0000
    ensures |b| == TcpLength(s, x)
  {
    var a, z := TcpStart(e, s, x), TcpEnd(s, x);
    var pseudo := Pseudo(e.localIp, e.remoteIp, TcpLength(s, x));
    a + Be16(65535 - Fold(Total(WordsOf(pseudo + a + Be16(0) + z)))) + z
  }

  lemma {:induction false} TcpVerifies(e: Ends, s: Segment, x: TcpExtras)
    requires x.Valid() && TcpLength(s, x) < 0x1_0000
    ensures Verifies(Pseudo(e.localIp, e.remoteIp, TcpLength(s, x)) + TcpBytes(e, s, x))
  {
    hide Fold, Total, WordsOf, Be16, Be32, Verifies, TcpStart, TcpEnd;
    var p, a, b := Pseudo(e.localIp, e.remoteIp, TcpLength(s, x)), TcpStart(e, s, x), TcpEnd(s, x);
    ProtocolCounts(e, TcpLength(s, x), a + Be16(0) + b);
    assert p + (a + Be16(0) + b) == p + a + Be16(0) + b;
    FilledVerifies(p + a, b);
    assert p + TcpBytes(e, s, x) == p + a + Be16(65535 - Fold(Total(WordsOf(p + a + Be16(0) + b)))) + b;
  }

  lemma {:induction false} ProtocolCounts(e: Ends, n: u16, rest: seq<byte>)
    ensures Total(WordsOf(Pseudo(e.localIp, e.remoteIp, n) + rest)) > 0
  {
    hide Be16, Be32, WordsOf, Total;
    var ips, tail := Be32(e.localIp) + Be32(e.remoteIp), Be16(n) + rest;
    assert Be16(PROTO_TCP) == [0, PROTO_TCP] by { ProtocolWord(); }
    assert Pseudo(e.localIp, e.remoteIp, n) + rest == ips + Be16(PROTO_TCP) + tail;
    FieldTotal(ips, PROTO_TCP, tail);
  }

  lemma {:induction false} TcpFields(e: Ends, s: Segment, x: TcpExtras)
    requires x.Valid() && TcpLength(s, x) < 0x1_0000
    ensures var d := TcpBytes(e, s, x);
            && Read16(d, 0) == e.localPort && Read16(d, 2) == e.remotePort && Read32(d, 4) == s.seqNum
            && Read32(d, 8) == s.ackNum && d[12] == 0x50 + 0x10 * (|x.options| / 4) && d[13] == s.flags
            && d[20 + |x.options|..] == s.payload
  {
    hide Be16, Be32, Fold, Total, WordsOf, Pseudo;
    var d := TcpBytes(e, s, x);
    assert d[0..2] == Be16(e.localPort) && d[2..4] == Be16(e.remotePort);
    assert d[4..8] == Be32(s.seqNum) && d[8..12] == Be32(s.ackNum);
    ReadsBack16(e.localPort, 0, d);
    ReadsBack16(e.remotePort, 2, d);
    ReadsBack32(s.seqNum, 4, d);
    ReadsBack32(s.ackNum, 8, d);
  }

  // Any such segment is taken apart, options skipped, exactly when it comes from the other end of
  // this connection and is addressed to this one.
  lemma {:induction false} SegmentTaken(here: Ends, e: Ends, s: Segment, x: TcpExtras)
    requires x.Valid() && TcpLength(s, x) < 0x1_0000 && e.remoteIp == here.localIp
    ensures Parse(here, TcpBytes(e, s, x), e.localIp)
            == if e.localIp == here.remoteIp && e.localPort == here.remotePort && e.remotePort == here.localPort
               then Some(s) else None
  {
    hide TcpBytes, Read16, Read32, Verifies, Pseudo;
    TcpFields(e, s, x);
    TcpVerifies(e, s, x);
    assert (0x50 + 0x10 * (|x.options| / 4)) / 16 * 4 == 20 + |x.options|;
  }

  // A header length below 20 bytes or beyond the segment is refused.
  lemma BadLengthDropped(e: Ends, data: seq<byte>, src: u32)
    requires 20 <= |data| < 0x1_0000 && (data[12] < 0x50 || 4 * (data[12] / 16) > |data|)
    ensures Parse(e, data, src) == None
  {
    hide Verifies, Pseudo;
  }
}

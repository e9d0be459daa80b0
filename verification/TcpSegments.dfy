/**
 TCP segments: the checksum with its pseudo-header, building a segment and taking one apart.
 */
module TcpSegments {
  import opened Bytes
  import opened Common
  import opened Checksum
  import opened IpPackets

  const TCP_HLEN: nat := 20
  const TCP_MSS: nat := 1460
  const WINDOW: u16 := 65535

  // One end's view of a connection.
  datatype Ends = Ends(localIp: u32, localPort: u16, remoteIp: u32, remotePort: u16) {
    function Reversed(): (r: Ends) { Ends(remoteIp, remotePort, localIp, localPort) }
  }

  datatype Segment = Segment(seqNum: u32, ackNum: u32, flags: byte, payload: seq<byte>)

  // ---------------------------------------------------------------- checksum

  function Pseudo(src: u32, dst: u32, len: u16): (b: seq<byte>)
    ensures |b| == 12
  {
    Be32(src) + Be32(dst) + [0, PROTO_TCP] + Be16(len)
  }

  // The sum of a block's words, two bytes at a time, the last one padded.
  method SumBytes(b: seq<byte>, start: u32) returns (sum: u32)
    requires |b| < 0x1_0000 && start <= 65535 * 6
    ensures sum == start + Total(WordsOf(b))
  {
    hide WordsOf, Total;
    sum := start;
    ghost var w := WordsOf(b);
    TotalStarts(w);
    var i, n := 0, |b|;
    while i < n
      invariant 0 <= i <= n + 1 && i % 2 == 0
      invariant sum == start + Total(w[..i / 2])
    {
      var word: u16 := b[i] as int * 256;
      if i + 1 < n {
        word := word + b[i + 1] as int;
      }
      TotalGoesOn(w, i / 2);
      TotalBound(w[..i / 2]);
      sum := sum + word;
      i := i + 2;
    }
    assert w[..i / 2] == w;
  }

  // tcp_checksum: zero exactly when the segment with its pseudo-header verifies
  method TcpChecksum(pseudo: seq<byte>, seg: seq<byte>) returns (c: u16)
    requires |pseudo| == 12 && |seg| < 0x1_0000
    ensures c == Swap16(65535 - Fold(Total(WordsOf(pseudo + seg))))
    ensures c == 0 <==> Verifies(pseudo + seg)
  {
    hide Fold, WordsOf, Total, Swap16;
    var sum := SumBytes(pseudo, 0);
    TotalBound(WordsOf(pseudo));
    sum := SumBytes(seg, sum);
    WordsAppend(pseudo, seg);
    TotalAppend(WordsOf(pseudo), WordsOf(seg));
    var folded := FoldSum(sum);
    SwapScales(65535 - folded);
    c := Swap16(65535 - folded);
  }

  // ---------------------------------------------------------------- building

  function Start(e: Ends, s: Segment): (b: seq<byte>)
    ensures |b| == 16
  {
    Be16(e.localPort) + Be16(e.remotePort) + Be32(s.seqNum) + Be32(s.ackNum) + [0x50, s.flags] + Be16(WINDOW)
  }

  function SegmentPseudo(e: Ends, s: Segment): (b: seq<byte>)
    requires |s.payload| <= TCP_MSS
    ensures |b| == 12
  {
    Pseudo(e.localIp, e.remoteIp, TCP_HLEN + |s.payload|)
  }

  function SegmentChecksum(e: Ends, s: Segment): (c: u16)
    requires |s.payload| <= TCP_MSS
  {
    65535 - Fold(Total(WordsOf(SegmentPseudo(e, s) + (Start(e, s) + Be16(0) + (Be16(0) + s.payload)))))
  }

  // The bytes tcp_send_segment hands to ip_send
  function Build(e: Ends, s: Segment): (b: seq<byte>)
    requires |s.payload| <= TCP_MSS
    ensures |b| == TCP_HLEN + |s.payload|
  {
    Start(e, s) + Be16(SegmentChecksum(e, s)) + (Be16(0) + s.payload)
  }

  // tcp_send_segment; `None` when the payload is too long for one segment
  method SendSegment(e: Ends, s: Segment) returns (b: Option<seq<byte>>)
    requires |s.payload| < 0x1_0000
    ensures b == if |s.payload| > TCP_MSS then None else Some(Build(e, s))
  {
    hide Fold, Total, WordsOf, Be16, Swap16, Le16Bytes;
    if |s.payload| > TCP_MSS {
      return None;
    }
    var buf := Start(e, s) + Be16(0) + (Be16(0) + s.payload);
    var sum := TcpChecksum(SegmentPseudo(e, s), buf);
    StoredSwapped(SegmentChecksum(e, s));
    return Some(Start(e, s) + Le16Bytes(sum) + (Be16(0) + s.payload));
  }

  // Every segment built here verifies under its pseudo-header, odd lengths included.
  lemma {:induction false} BuiltVerifies(e: Ends, s: Segment)
    requires |s.payload| <= TCP_MSS
    ensures Verifies(SegmentPseudo(e, s) + Build(e, s))
  {
    hide Fold, Total, WordsOf, Be16, Be32, Verifies;
    var p, a, b := SegmentPseudo(e, s), Start(e, s), Be16(0) + s.payload;
    assert p + (a + Be16(0) + b) == (p + a) + Be16(0) + b;
    PseudoCounts(e, s, a + Be16(0) + b);
    FilledVerifies(p + a, b);
    assert p + Build(e, s) == (p + a) + Be16(SegmentChecksum(e, s)) + b;
  }

  // The protocol number alone makes the sum positive.
  lemma {:induction false} PseudoCounts(e: Ends, s: Segment, rest: seq<byte>)
    requires |s.payload| <= TCP_MSS
    ensures Total(WordsOf(SegmentPseudo(e, s) + rest)) > 0
  {
    hide Be16, Be32, WordsOf, Total;
    var ips, tail := Be32(e.localIp) + Be32(e.remoteIp), Be16(TCP_HLEN + |s.payload|) + rest;
    assert Be16(PROTO_TCP) == [0, PROTO_TCP] by { ProtocolWord(); }
    assert SegmentPseudo(e, s) + rest == ips + Be16(PROTO_TCP) + tail;
    FieldTotal(ips, PROTO_TCP, tail);
  }

  lemma ProtocolWord()
    ensures Be16(PROTO_TCP) == [0, PROTO_TCP]
  {
  }

  // ---------------------------------------------------------------- taking apart

  // The checks of tcp_handle_packet before its state machine
  function Parse(e: Ends, data: seq<byte>, src: u32): (r: Option<Segment>)
    requires |data| < 0x1_0000
  {
    if |data| < TCP_HLEN then None else
    if src != e.remoteIp || Read16(data, 0) != e.remotePort || Read16(data, 2) != e.localPort then None else
    var hlen := data[12] as int / 16 * 4;
    if hlen < TCP_HLEN || hlen > |data| || !Verifies(Pseudo(src, e.localIp, |data|) + data) then None
    else Some(Segment(Read32(data, 4), Read32(data, 8), data[13], data[hlen..]))
  }

  method ParsePacket(e: Ends, data: seq<byte>, src: u32) returns (r: Option<Segment>)
    requires |data| < 0x1_0000
    ensures r == Parse(e, data, src)
  {
    hide Verifies, Fold, WordsOf, Total, Swap16;
    if |data| < TCP_HLEN {
      return None;
    }
    if src != e.remoteIp || Read16(data, 0) != e.remotePort || Read16(data, 2) != e.localPort {
      return None;
    }
    var hlen := data[12] as int / 16 * 4;
    if hlen < TCP_HLEN || hlen > |data| {
      return None;
    }
    var sum := TcpChecksum(Pseudo(src, e.localIp, |data|), data);
    if sum != 0 {
      return None;
    }
    return Some(Segment(Read32(data, 4), Read32(data, 8), data[13], data[hlen..]));
  }

  lemma {:induction false} BuiltFields(e: Ends, s: Segment)
    requires |s.payload| <= TCP_MSS
    ensures var d := Build(e, s);
            && Read16(d, 0) == e.localPort && Read16(d, 2) == e.remotePort && Read32(d, 4) == s.seqNum
            && Read32(d, 8) == s.ackNum && d[12] == 0x50 && d[13] == s.flags && d[20..] == s.payload
  {
    hide SegmentChecksum, Be16, Be32;
    var d := Build(e, s);
    assert d[0..2] == Be16(e.localPort) && d[2..4] == Be16(e.remotePort);
    assert d[4..8] == Be32(s.seqNum) && d[8..12] == Be32(s.ackNum);
    ReadsBack16(e.localPort, 0, d);
    ReadsBack16(e.remotePort, 2, d);
    ReadsBack32(s.seqNum, 4, d);
    ReadsBack32(s.ackNum, 8, d);
  }

  // The other end takes out of a segment exactly what was put in.
  lemma {:induction false} BuiltParses(e: Ends, s: Segment)
    requires |s.payload| <= TCP_MSS
    ensures Parse(e.Reversed(), Build(e, s), e.localIp) == Some(s)
  {
    hide Build, Read16, Read32, Verifies, Pseudo;
    BuiltFields(e, s);
    BuiltVerifies(e, s);
  }

  // ... also across IP, padding included.
  lemma {:induction false} SegmentCrosses(e: Ends, s: Segment, id: u16, padding: seq<byte>)
    requires |s.payload| <= TCP_MSS && e.localIp == OUR_IP
    ensures var a := Accept(Packet(id, e.remoteIp, PROTO_TCP, Build(e, s)) + padding);
            && a.Some? && a.value.protocol == PROTO_TCP && |a.value.payload| < 0x1_0000
            && Parse(e.Reversed(), a.value.payload, a.value.src) == Some(s)
  {
    hide Build, Accept, Packet, Parse;
    SentIsAccepted(id, e.remoteIp, PROTO_TCP, Build(e, s), padding);
    BuiltParses(e, s);
  }

  // A segment in which one word was changed is dropped, unless 0 became 65535 or the reverse.
  lemma {:induction false} DamageIsDropped(e: Ends, src: u32, a: seq<byte>, v: u16, w: u16, b: seq<byte>)
    requires |a| % 2 == 0 && |a| + 2 + |b| < 0x1_0000 && v != w
    requires !(v == 0 && w == 65535) && !(v == 65535 && w == 0)
    requires Parse(e, a + Be16(v) + b, src).Some?
    ensures Parse(e, a + Be16(w) + b, src) == None
  {
    hide Verifies, Be16, Be32, Read16, Read32;
    var p := Pseudo(src, e.localIp, |a| + 2 + |b|);
    assert p + (a + Be16(v) + b) == (p + a) + Be16(v) + b;
    assert p + (a + Be16(w) + b) == (p + a) + Be16(w) + b;
    CatchesOneWord(p + a, v, w, b);
  }
}

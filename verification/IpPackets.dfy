/**
 IPv4 packets: building a header and accepting a packet.
 */
module IpPackets {
  import opened Bytes
  import opened Common
  import opened Checksum

  const IP_HLEN: nat := 20
  const ETH_MTU: nat := 1500
  const OUR_IP: u32 := 0x0A00020F
  const PROTO_TCP: byte := 6

  // ---------------------------------------------------------------- words as memory holds them

  // The 16-bit words a little-endian processor reads from these bytes.
  function NativeWords(b: seq<byte>): (w: seq<u16>)
    ensures |w| == (|b| + 1) / 2
  {
    Swapped(WordsOf(b))
  }

  lemma {:induction false} SwapTwice(w: seq<u16>)
    ensures Swapped(Swapped(w)) == w
  {
    hide Swap16;
    forall i | 0 <= i < |w|
      ensures Swapped(Swapped(w))[i] == w[i]
    {
      SwapBack(w[i]);
    }
  }

  lemma SwapBack(x: u16)
    ensures Swap16(Swap16(x)) == x
  {
    var hi, lo := x / 256, x % 256;
    assert Swap16(x) == 256 * lo + hi;
    assert Swap16(x) / 256 == lo && Swap16(x) % 256 == hi;
  }

  // What ip_checksum returns for a block of bytes, and that a result of zero is the receiver's test.
  lemma {:induction false} ChecksumOfBytes(b: seq<byte>)
    requires |b| <= 2 * 65537
    ensures SwappingForm(NativeWords(b)) == Swap16(65535 - Fold(Total(WordsOf(b))))
    ensures SwappingForm(NativeWords(b)) == 0 <==> Verifies(b)
  {
    hide Fold, Total, WordsOf, Swap16;
    SwapTwice(WordsOf(b));
    NoOverflow(WordsOf(b));
    SwapScales(65535 - Fold(Total(WordsOf(b))));
  }

  // A swapped word stored in little-endian memory is the word in network order.
  lemma StoredSwapped(w: u16)
    ensures Le16Bytes(Swap16(w)) == Be16(w)
  {
  }

  // ---------------------------------------------------------------- headers

  function HeaderStart(total: u16, id: u16, protocol: byte): (b: seq<byte>)
    ensures |b| == 10
  {
    [0x45, 0] + Be16(total) + Be16(id) + Be16(0x4000) + [64, protocol]
  }

  function Addresses(dst: u32): (b: seq<byte>)
    ensures |b| == 8
  {
    Be32(OUR_IP) + Be32(dst)
  }

  function HeaderChecksum(total: u16, id: u16, protocol: byte, dst: u32): (c: u16) {
    65535 - Fold(Total(WordsOf(HeaderStart(total, id, protocol) + Be16(0) + Addresses(dst))))
  }

  function Header(total: u16, id: u16, protocol: byte, dst: u32): (b: seq<byte>)
    ensures |b| == IP_HLEN
  {
    HeaderStart(total, id, protocol) + Be16(HeaderChecksum(total, id, protocol, dst)) + Addresses(dst)
  }

  lemma {:induction false} SomeWord(a: seq<byte>, b: seq<byte>)
    requires |a| >= 2 && a[0] > 0
    ensures Total(WordsOf(a + b)) > 0
  {
    var w := WordsOf(a + b);
    assert (a + b)[0] == a[0] && (a + b)[1] == a[1];
    assert w[0] == WordAt(a + b, 0) > 0;
    assert w == [w[0]] + w[1..];
    TotalAppend([w[0]], w[1..]);
    assert [w[0]][..0] == [];
  }

  // Every header built here passes the receiver's test.
  lemma {:induction false} HeaderVerifies(total: u16, id: u16, protocol: byte, dst: u32)
    ensures Verifies(Header(total, id, protocol, dst))
  {
    hide Fold, Total, WordsOf, Addresses, Be16;
    var a, b := HeaderStart(total, id, protocol), Addresses(dst);
    assert a[0] == 0x45;
    SomeWord(a, Be16(0) + b);
    assert a + (Be16(0) + b) == a + Be16(0) + b;
    FilledVerifies(a, b);
  }

  // ---------------------------------------------------------------- acceptance

  datatype Datagram = Datagram(protocol: byte, payload: seq<byte>, src: u32)

  // The checks of ip_handle_packet
  function Accept(data: seq<byte>): (r: Option<Datagram>) {
    if |data| < IP_HLEN then None else
    var hlen := data[0] as int % 16 * 4;
    if data[0] as int / 16 != 4 || hlen < 20 || hlen > |data| then None else
    var total := Read16(data, 2);
    if total < hlen || total > |data| || !Verifies(data[..hlen]) then None else
    var frag := Read16(data, 6);
    if frag / 0x2000 % 2 == 1 || frag % 0x2000 != 0 then None
    else Some(Datagram(data[9], data[hlen..total], Read32(data, 12)))
  }

  function Packet(id: u16, dst: u32, protocol: byte, payload: seq<byte>): (b: seq<byte>)
    requires |payload| <= ETH_MTU - IP_HLEN
    ensures |b| == IP_HLEN + |payload|
  {
    Header(IP_HLEN + |payload|, id, protocol, dst) + payload
  }

  lemma {:induction false} ReadsBack16(w: u16, o: nat, b: seq<byte>)
    requires o + 2 <= |b| && b[o..o + 2] == Be16(w)
    ensures Read16(b, o) == w
  {
    var x := b[o..o + 2];
    assert x[0] == b[o] && x[1] == b[o + 1];
  }

  lemma {:induction false} ReadsBack32(w: u32, o: nat, b: seq<byte>)
    requires o + 4 <= |b| && b[o..o + 4] == Be32(w)
    ensures Read32(b, o) == w
  {
    var x := b[o..o + 4];
    assert x[..2] == Be16(w / 0x1_0000) && x[2..] == Be16(w % 0x1_0000);
    assert b[o..o + 2] == x[..2] && b[o + 2..o + 4] == x[2..];
    ReadsBack16(w / 0x1_0000, o, b);
    ReadsBack16(w % 0x1_0000, o + 2, b);
  }

  lemma {:induction false} HeaderFields(total: u16, id: u16, protocol: byte, dst: u32, rest: seq<byte>)
    ensures var d := Header(total, id, protocol, dst) + rest;
            && d[0] == 0x45 && d[9] == protocol && Read16(d, 2) == total && Read16(d, 6) == 0x4000
            && Read32(d, 12) == OUR_IP && d[..IP_HLEN] == Header(total, id, protocol, dst) && d[IP_HLEN..] == rest
  {
    hide HeaderChecksum, Be16, Be32;
    var d := Header(total, id, protocol, dst) + rest;
    assert d[2..4] == Be16(total) && d[6..8] == Be16(0x4000) && d[12..16] == Be32(OUR_IP);
    ReadsBack16(total, 2, d);
    ReadsBack16(0x4000, 6, d);
    ReadsBack32(OUR_IP, 12, d);
  }

  // What is sent is accepted, whatever padding follows it on the wire, with payload, protocol and
  // sender intact.
  lemma {:induction false} SentIsAccepted(id: u16, dst: u32, protocol: byte, payload: seq<byte>, padding: seq<byte>)
    requires |payload| <= ETH_MTU - IP_HLEN
    ensures Accept(Packet(id, dst, protocol, payload) + padding) == Some(Datagram(protocol, payload, OUR_IP))
  {
    hide Header, Read16, Read32, Verifies;
    var total := IP_HLEN + |payload|;
    var d := Packet(id, dst, protocol, payload) + padding;
    assert d == Header(total, id, protocol, dst) + (payload + padding);
    HeaderFields(total, id, protocol, dst, payload + padding);
    HeaderVerifies(total, id, protocol, dst);
    assert d[IP_HLEN..total] == payload by { assert d[IP_HLEN..][..|payload|] == payload; }
  }

  // ---------------------------------------------------------------- in place

  class Ip {
    var nextId: u16        // g_ip_id

    constructor ()
      ensures nextId == 0
    {
      nextId := 0;
    }

    // ip_send up to the frame handed to the link; `None` when the payload is too long
    method Send(dst: u32, protocol: byte, payload: seq<byte>) returns (packet: Option<seq<byte>>)
      requires |payload| < 0x1_0000
      modifies this
      ensures if |payload| > 1480 then packet == None && nextId == old(nextId)
              else packet == Some(Packet(old(nextId), dst, protocol, payload)) && nextId == (old(nextId) + 1) % 0x1_0000
    {
      hide Fold, Total, WordsOf, Be16, Swap16, Le16Bytes, SwappingForm;
      if |payload| > ETH_MTU - IP_HLEN {
        return None;
      }
      var total := IP_HLEN + |payload|;
      var start, addresses := HeaderStart(total, nextId, protocol), Addresses(dst);
      var header := start + Be16(0) + addresses;
      ChecksumOfBytes(header);
      var sum := IpChecksum(NativeWords(header));
      StoredSwapped(HeaderChecksum(total, nextId, protocol, dst));
      header := start + Le16Bytes(sum) + addresses;
      nextId := (nextId + 1) % 0x1_0000;
      packet := Some(header + payload);
    }
  }

  // ip_handle_packet up to the dispatch
  method Receive(data: seq<byte>) returns (r: Option<Datagram>)
    requires |data| < 0x1_0000
    ensures r == Accept(data)
  {
    hide Verifies, SwappingForm;
    if |data| < IP_HLEN {
      return None;
    }
    var version, words := data[0] as int / 16, data[0] as int % 16;
    if version != 4 || words < 5 {
      return None;
    }
    var hlen := words * 4;
    if hlen > |data| {
      return None;
    }
    var total := Read16(data, 2);
    if total < hlen || total > |data| {
      return None;
    }
    ChecksumOfBytes(data[..hlen]);
    var sum := IpChecksum(NativeWords(data[..hlen]));
    if sum != 0 {
      return None;
    }
    var frag := Read16(data, 6);
    if frag / 0x2000 % 2 == 1 || frag % 0x2000 != 0 {
      return None;
    }
    return Some(Datagram(data[9], data[hlen..total], Read32(data, 12)));
  }
}

/**
 The connection as a value: what an arriving segment does to it, what waiting for an
 acknowledgement comes to, and what every run of arrivals and reads keeps.
 */
module TcpStates {
  import opened Bytes
  import opened Common
  import opened IpPackets
  import opened TcpSegments

  const RECV_SIZE: nat := 2048
  const MAX_RETRIES: nat := 3

  const FIN: byte := 1
  const SYN: byte := 2
  const RST: byte := 4
  const PSH: byte := 8
  const ACK: byte := 16

  predicate Has(flags: byte, bit: byte)
    requires bit > 0
  {
    flags / bit % 2 == 1
  }

  datatype State = Closed | SynSent | Established | FinWait1 | TimeWait

  // `recv` is the pending part of the receive buffer.
  datatype Conn = Conn(state: State, ends: Ends, seqNum: u32, ackNum: u32, recv: seq<byte>)

  // The connection after an arrival, the segments sent in answer, the payload taken in.
  datatype Handled = Handled(conn: Conn, out: seq<Segment>, accepted: seq<byte>)

  function Plus(a: u32, n: nat): (r: u32) { (a + n) % TWO32 }

  function Answer(c: Conn): (s: Segment) { Segment(c.seqNum, c.ackNum, ACK, []) }

  function Raise(c: Conn, s: Segment): (r: Conn) {
    if Has(s.flags, ACK) && s.ackNum >= c.ackNum then c.(ackNum := s.ackNum) else c
  }

  function HandleSynSent(c: Conn, s: Segment): (r: Handled) {
    if Has(s.flags, SYN) && Has(s.flags, ACK) then
      if s.ackNum != Plus(c.seqNum, 1) then Handled(c, [], [])
      else
        var d := c.(ackNum := Plus(s.seqNum, 1), seqNum := s.ackNum);
        Handled(d.(state := Established), [Answer(d)], [])
    else if Has(s.flags, RST) then Handled(c.(state := Closed), [], [])
    else Handled(c, [], [])
  }

  // A final segment is honoured only when it is the next one expected.
  function HandleFin(c: Conn, s: Segment): (r: Handled)
    ensures r.accepted == []
  {
    if !Has(s.flags, FIN) then Handled(c, [], [])
    else if s.seqNum != c.ackNum then Handled(c, [Answer(c)], [])
    else
      var d := c.(ackNum := Plus(s.seqNum, 1));
      Handled(d.(state := TimeWait), [Answer(d)], [])
  }

  // Data is taken in only when it is next in order, fits, and nothing is pending.
  predicate Takes(c: Conn, s: Segment) {
    s.seqNum == c.ackNum && |s.payload| <= RECV_SIZE && c.recv == []
  }

  function HandleEstablished(c0: Conn, s: Segment): (r: Handled) {
    if Has(s.flags, RST) then Handled(c0.(state := Closed), [], []) else
    var c := Raise(c0, s);
    if s.payload == [] then HandleFin(c, s)
    else if !Takes(c, s) then Handled(c, [Answer(c)], [])
    else
      var d := c.(recv := s.payload, ackNum := Plus(s.seqNum, |s.payload|));
      var f := HandleFin(d, s);
      Handled(f.conn, [Answer(d)] + f.out, s.payload)
  }

  function HandleFinWait(c0: Conn, s: Segment): (r: Handled) {
    var c := Raise(c0, s);
    if Has(s.flags, FIN) then
      var d := c.(ackNum := Plus(s.seqNum, 1));
      Handled(d.(state := TimeWait), [Answer(d)], [])
    else if Has(s.flags, ACK) && s.ackNum >= c.seqNum then Handled(c.(state := TimeWait), [], [])
    else Handled(c, [], [])
  }

  // The state machine of tcp_handle_packet
  function Handle(c: Conn, s: Segment): (r: Handled) {
    match c.state
    case SynSent => HandleSynSent(c, s)
    case Established => HandleEstablished(c, s)
    case FinWait1 => HandleFinWait(c, s)
    case TimeWait => Handled(c.(state := Closed), [], [])
    case Closed => Handled(c, [], [])
  }

  datatype Packet = Packet(data: seq<byte>, src: u32)

  // A poll of the network card: perhaps a packet.
  function Poll(c: Conn, m: Option<Packet>): (r: Handled) {
    if m.None? || |m.value.data| >= 0x1_0000 then Handled(c, [], [])
    else
      match Parse(c.ends, m.value.data, m.value.src)
      case None => Handled(c, [], [])
      case Some(s) => Handle(c, s)
  }

  // ---------------------------------------------------------------- one arrival

  // No arrival overwrites or drops pending data, and the buffer never overflows.
  lemma HandleConserves(c: Conn, s: Segment)
    requires |c.recv| <= RECV_SIZE
    ensures var r := Handle(c, s);
            r.conn.recv == c.recv + r.accepted && |r.conn.recv| <= RECV_SIZE && (r.accepted != [] ==> c.recv == [])
  {
  }

  // Only a SYN's acknowledgement moves the sequence number, and answers carry no data.
  lemma HandleLabels(c: Conn, s: Segment)
    ensures var r := Handle(c, s);
            && r.conn.ends == c.ends
            && (c.state != SynSent ==> r.conn.seqNum == c.seqNum && r.conn.state != SynSent)
            && (c.state == SynSent ==>
                  if r.conn.state == Established then r.conn.seqNum == Plus(c.seqNum, 1)
                  else r.conn.seqNum == c.seqNum && r.conn.state in {SynSent, Closed})
            && (c.state != Established && c.state != SynSent ==> r.conn.state != Established)
            && forall i :: 0 <= i < |r.out| ==> r.out[i].payload == [] && r.out[i].flags == ACK
  {
  }

  lemma {:induction false} PollFacts(c: Conn, m: Option<Packet>)
    requires |c.recv| <= RECV_SIZE
    ensures var r := Poll(c, m);
            && r.conn.recv == c.recv + r.accepted && |r.conn.recv| <= RECV_SIZE && r.conn.ends == c.ends
            && (c.state != SynSent ==> r.conn.seqNum == c.seqNum && r.conn.state != SynSent)
            && (c.state == SynSent ==>
                  if r.conn.state == Established then r.conn.seqNum == Plus(c.seqNum, 1)
                  else r.conn.seqNum == c.seqNum && r.conn.state in {SynSent, Closed})
            && forall i :: 0 <= i < |r.out| ==> r.out[i].payload == [] && r.out[i].flags == ACK
  {
    hide Parse, Handle, Plus;
    if m.Some? && |m.value.data| < 0x1_0000 {
      var p := Parse(c.ends, m.value.data, m.value.src);
      if p.Some? {
        HandleConserves(c, p.value);
        HandleLabels(c, p.value);
      }
    }
  }

  // ---------------------------------------------------------------- runs of arrivals and reads

  // Between packets a reader takes up to `n` bytes.
  datatype Event = Arrives(m: Option<Packet>) | Reads(n: nat)

  datatype Flow = Flow(conn: Conn, accepted: seq<byte>, returned: seq<byte>)

  function Min(a: nat, b: nat): (r: nat) { if a < b then a else b }

  function Step(f: Flow, e: Event): (r: Flow) {
    match e
    case Arrives(m) =>
      var h := Poll(f.conn, m);
      Flow(h.conn, f.accepted + h.accepted, f.returned)
    case Reads(n) =>
      var k := Min(n, |f.conn.recv|);
      Flow(f.conn.(recv := f.conn.recv[k..]), f.accepted, f.returned + f.conn.recv[..k])
  }

  function Run(f: Flow, es: seq<Event>): (r: Flow) {
    if es == [] then f else Step(Run(f, es[..|es| - 1]), es[|es| - 1])
  }

  // Nothing lost, nothing twice, nothing out of order: what was handed out and what is pending
  // make up what was accepted.
  ghost predicate Conserved(f: Flow) {
    f.returned + f.conn.recv == f.accepted && |f.conn.recv| <= RECV_SIZE
  }

  lemma {:induction false} RunConserves(f: Flow, es: seq<Event>)
    requires Conserved(f)
    ensures Conserved(Run(f, es))
    decreases |es|
  {
    hide Poll;
    if es != [] {
      var m := |es| - 1;
      RunConserves(f, es[..m]);
      var g := Run(f, es[..m]);
      match es[m] {
        case Arrives(p) =>
          PollFacts(g.conn, p);
          var h := Poll(g.conn, p);
          assert g.returned + (g.conn.recv + h.accepted) == (g.returned + g.conn.recv) + h.accepted;
        case Reads(n) =>
          var k := Min(n, |g.conn.recv|);
          assert g.returned + g.conn.recv[..k] + g.conn.recv[k..] == g.returned + g.conn.recv;
      }
    }
  }

  // ---------------------------------------------------------------- waiting

  // The connection after a run of polls.
  function After(c: Conn, polls: seq<Option<Packet>>): (r: Conn) {
    if polls == [] then c else Poll(After(c, polls[..|polls| - 1]), polls[|polls| - 1]).conn
  }

  // The wait of tcp_send ends well after `k` polls.
  ghost predicate AckedAt(c: Conn, polls: seq<Option<Packet>>, expected: u32, k: nat) {
    && 0 < k <= |polls| && After(c, polls[..k]).ackNum >= expected
    && (forall j :: 0 < j <= k ==> After(c, polls[..j]).state == Established)
    && (forall j :: 0 < j < k ==> After(c, polls[..j]).ackNum < expected)
  }

  // The packet carries an acknowledgement number that tcp_send would compare favourably.
  predicate Heard(c: Conn, m: Option<Packet>, expected: u32) {
    && m.Some? && |m.value.data| < 0x1_0000
    && var p := Parse(c.ends, m.value.data, m.value.src);
       p.Some? && Has(p.value.flags, ACK) && p.value.ackNum >= expected
  }

  // With data pending no payload is taken in, so only an acknowledgement raises the number.
  lemma {:induction false} PendingHears(c: Conn, m: Option<Packet>, expected: u32)
    requires c.state == Established && c.recv != []
    ensures var d := Poll(c, m).conn;
            d.state == Established ==> d.recv == c.recv && (c.ackNum < expected <= d.ackNum ==> Heard(c, m, expected))
  {
    hide Parse;
  }

  lemma {:induction false} StaysPending(c: Conn, polls: seq<Option<Packet>>)
    requires c.state == Established && c.recv != []
    requires forall j :: 0 < j <= |polls| ==> After(c, polls[..j]).state == Established
    ensures After(c, polls).recv == c.recv && After(c, polls).state == Established
    decreases |polls|
  {
    hide Poll;
    if polls != [] {
      var m := |polls| - 1;
      var front := polls[..m];
      forall j | 0 < j <= |front|
        ensures After(c, front[..j]).state == Established
      {
        assert front[..j] == polls[..j];
      }
      StaysPending(c, front);
      PendingHears(After(c, polls[..m]), polls[m], 0);
      assert polls[..m + 1] == polls;
    }
  }

  // What ends the wait well is a packet with such a number, when data is pending and the number is
  // not there yet.
  lemma {:induction false} PendingWaitHears(c: Conn, polls: seq<Option<Packet>>, expected: u32, k: nat)
    requires c.state == Established && c.recv != [] && c.ackNum < expected && AckedAt(c, polls, expected, k)
    ensures Heard(After(c, polls[..k - 1]), polls[k - 1], expected)
  {
    hide Poll, Heard;
    var d := After(c, polls[..k - 1]);
    var front := polls[..k - 1];
    forall j | 0 < j <= |front|
      ensures After(c, front[..j]).state == Established
    {
      assert front[..j] == polls[..j];
    }
    StaysPending(c, front);
    PendingHears(d, polls[k - 1], expected);
    assert polls[..k][..k - 1] == polls[..k - 1];
  }

  // A segment that acknowledges all but the last number and brings one byte: the byte, counted
  // in the same field, makes up the rest.
  function Byte(expected: u32): (s: Segment)
    requires expected > 0
  {
    Segment(expected - 1, expected - 1, ACK, [0])
  }

  lemma {:induction false} ByteRaises(c: Conn, expected: u32)
    requires c.state == Established && c.recv == [] && c.ackNum < expected
    ensures var m := Some(Packet(Build(c.ends.Reversed(), Byte(expected)), c.ends.remoteIp));
            && AckedAt(c, [m], expected, 1) && !Heard(c, m, expected)
  {
    hide Build, Parse;
    var e, s := c.ends.Reversed(), Byte(expected);
    var m := Some(Packet(Build(e, s), c.ends.remoteIp));
    BuiltParses(e, s);
    assert e.Reversed() == c.ends;
    assert Parse(c.ends, m.value.data, m.value.src) == Some(s);
    assert Has(ACK, ACK) && !Has(ACK, RST) && !Has(ACK, FIN);
    OnePoll(c, m);
  }

  lemma {:induction false} OnePoll(c: Conn, m: Option<Packet>)
    ensures [m][..1] == [m] && [m][..0] == [] && After(c, [m]) == Poll(c, m).conn && After(c, []) == c
  {
  }

  // A wait that ends well has heard such a number, whatever arrives, if and only if data is pending
  // (so that none is taken in) and the number is not there before the wait: otherwise the one field
  // that counts both directions can do without.
  lemma {:induction false} HeardIff(c: Conn, expected: u32)
    requires c.state == Established
    ensures (forall polls, k: nat :: AckedAt(c, polls, expected, k) ==>
               Heard(After(c, polls[..k - 1]), polls[k - 1], expected))
            <==> c.ackNum < expected && c.recv != []
  {
    hide Heard, Poll;
    if c.ackNum < expected && c.recv != [] {
      forall polls, k: nat | AckedAt(c, polls, expected, k)
        ensures Heard(After(c, polls[..k - 1]), polls[k - 1], expected)
      {
        PendingWaitHears(c, polls, expected, k);
      }
    } else if c.ackNum >= expected {
      SilenceAcks(c, expected);
      OnePoll(c, None);
    } else {
      var m := Some(Packet(Build(c.ends.Reversed(), Byte(expected)), c.ends.remoteIp));
      ByteRaises(c, expected);
      OnePoll(c, m);
    }
  }

  lemma SilenceAcks(c: Conn, expected: u32)
    requires c.state == Established && c.ackNum >= expected
    ensures AckedAt(c, [None], expected, 1) && !Heard(c, None, expected)
  {
    OnePoll(c, None);
  }

  // ---------------------------------------------------------------- acknowledging a chunk

  // The packet acknowledges the `chunk` bytes that start at `s0`, and no byte from `s0 + ahead` on.
  // Sequence numbers are compared modulo 2^32, as section 3.3 of RFC 793 has it; there `ahead` is
  // `chunk`, for nothing further has been sent.
  predicate Acks(c: Conn, m: Option<Packet>, s0: u32, chunk: nat, ahead: nat) {
    && m.Some? && |m.value.data| < 0x1_0000
    && var p := Parse(c.ends, m.value.data, m.value.src);
       p.Some? && Has(p.value.flags, ACK) && chunk <= (p.value.ackNum - s0) % TWO32 <= ahead
  }

  // The wait for `chunk` bytes from the connection's sequence number on never ends well but by a
  // packet that acknowledges them.
  ghost predicate Trusted(c: Conn, chunk: nat, ahead: nat) {
    forall polls, k: nat :: AckedAt(c, polls, Plus(c.seqNum, chunk), k) ==>
      Acks(After(c, polls[..k - 1]), polls[k - 1], c.seqNum, chunk, ahead)
  }

  // An acknowledgement and nothing else, as the other end would send it.
  function Bare(c: Conn, ack: u32): (m: Option<Packet>) {
    Some(Packet(Build(c.ends.Reversed(), Segment(0, ack, ACK, [])), c.ends.remoteIp))
  }

  lemma {:induction false} BareAcks(c: Conn, ack: u32, expected: u32, s0: u32, chunk: nat, ahead: nat)
    requires c.state == Established && c.ackNum <= ack && expected <= ack
    ensures AckedAt(c, [Bare(c, ack)], expected, 1)
    ensures Acks(c, Bare(c, ack), s0, chunk, ahead) <==> chunk <= (ack - s0) % TWO32 <= ahead
  {
    hide Build, Parse;
    var e, s := c.ends.Reversed(), Segment(0, ack, ACK, []);
    BuiltParses(e, s);
    assert e.Reversed() == c.ends;
    assert Has(ACK, ACK) && !Has(ACK, RST) && !Has(ACK, FIN);
    OnePoll(c, Bare(c, ack));
  }

  // Numbers that did not wrap compare as they should.
  lemma {:induction false} HeardAcks(c: Conn, m: Option<Packet>, s0: u32, chunk: nat)
    requires s0 + chunk < TWO32 && Heard(c, m, s0 + chunk)
    ensures Acks(c, m, s0, chunk, TWO32 - 1 - s0)
  {
    hide Parse;
    var a := Parse(c.ends, m.value.data, m.value.src).value.ackNum;
    assert (a - s0) % TWO32 == a - s0;
  }

  lemma AcksMore(c: Conn, m: Option<Packet>, s0: u32, chunk: nat, less: nat, more: nat)
    requires Acks(c, m, s0, chunk, less) && less <= more
    ensures Acks(c, m, s0, chunk, more)
  {
    hide Parse;
  }

  // A send may trust its wait if and only if data is pending, the number is not there before, the
  // chunk's own numbers do not wrap, and no number up to 2^32 - 1 is too far ahead.
  lemma {:induction false} TrustedIff(c: Conn, chunk: nat, ahead: nat)
    requires c.state == Established && 0 < chunk <= TCP_MSS && chunk <= ahead
    ensures Trusted(c, chunk, ahead) <==>
              && c.ackNum < Plus(c.seqNum, chunk) && c.recv != []
              && c.seqNum + chunk < TWO32 <= c.seqNum + ahead + 1
  {
    hide Heard, Poll, Acks;
    var expected := Plus(c.seqNum, chunk);
    if c.ackNum < expected && c.recv != [] && c.seqNum + chunk < TWO32 <= c.seqNum + ahead + 1 {
      forall polls, k: nat | AckedAt(c, polls, expected, k)
        ensures Acks(After(c, polls[..k - 1]), polls[k - 1], c.seqNum, chunk, ahead)
      {
        TrustedWait(c, polls, chunk, k);
        AcksMore(After(c, polls[..k - 1]), polls[k - 1], c.seqNum, chunk, TWO32 - 1 - c.seqNum, ahead);
      }
    } else {
      var m := Untrusted(c, chunk, ahead);
      OnePoll(c, m);
      assert [m][0] == m;
    }
  }

  lemma {:induction false} TrustedWait(c: Conn, polls: seq<Option<Packet>>, chunk: nat, k: nat)
    requires c.state == Established && c.recv != [] && c.ackNum < c.seqNum + chunk < TWO32
    requires AckedAt(c, polls, c.seqNum + chunk, k)
    ensures 0 < k <= |polls|
    ensures Acks(After(c, polls[..k - 1]), polls[k - 1], c.seqNum, chunk, TWO32 - 1 - c.seqNum)
  {
    hide Heard, Poll, Acks;
    PendingWaitHears(c, polls, c.seqNum + chunk, k);
    HeardAcks(After(c, polls[..k - 1]), polls[k - 1], c.seqNum, chunk);
  }

  // Otherwise one poll ends it well without: a silent one, a data byte, a second acknowledgement of
  // what came before the chunk, or one of bytes never sent.
  lemma {:induction false} Untrusted(c: Conn, chunk: nat, ahead: nat) returns (m: Option<Packet>)
    requires c.state == Established && 0 < chunk <= TCP_MSS && chunk <= ahead
    requires !(&& c.ackNum < Plus(c.seqNum, chunk) && c.recv != []
               && c.seqNum + chunk < TWO32 <= c.seqNum + ahead + 1)
    ensures AckedAt(c, [m], Plus(c.seqNum, chunk), 1) && !Acks(c, m, c.seqNum, chunk, ahead)
  {
    hide Heard, Poll, AckedAt, Acks, Build;
    var expected := Plus(c.seqNum, chunk);
    if c.ackNum >= expected {
      m := None;
      SilenceAcks(c, expected);
      SilenceSaysNothing(c, c.seqNum, chunk, ahead);
    } else if c.recv == [] {
      m := Some(Packet(Build(c.ends.Reversed(), Byte(expected)), c.ends.remoteIp));
      ByteRaises(c, expected);
      ByteFallsShort(c, chunk, ahead);
    } else if c.seqNum + chunk >= TWO32 {
      m := Bare(c, c.seqNum);
      BareAcks(c, c.seqNum, expected, c.seqNum, chunk, ahead);
      assert (c.seqNum - c.seqNum) % TWO32 == 0;
    } else {
      m := Bare(c, TWO32 - 1);
      BareAcks(c, TWO32 - 1, expected, c.seqNum, chunk, ahead);
      assert (TWO32 - 1 - c.seqNum) % TWO32 == TWO32 - 1 - c.seqNum;
    }
  }

  lemma SilenceSaysNothing(c: Conn, s0: u32, chunk: nat, ahead: nat)
    ensures !Acks(c, None, s0, chunk, ahead)
  {
  }

  lemma {:induction false} ByteFallsShort(c: Conn, chunk: nat, ahead: nat)
    requires 0 < chunk <= TCP_MSS && Plus(c.seqNum, chunk) > 0
    ensures var m := Some(Packet(Build(c.ends.Reversed(), Byte(Plus(c.seqNum, chunk))), c.ends.remoteIp));
            !Acks(c, m, c.seqNum, chunk, ahead)
  {
    hide Build, Parse;
    BuiltParses(c.ends.Reversed(), Byte(Plus(c.seqNum, chunk)));
    assert c.ends.Reversed().Reversed() == c.ends;
    assert (Plus(c.seqNum, chunk) - 1 - c.seqNum) % TWO32 == chunk - 1;
  }

  // For instance, 50 bytes before the wrap a second acknowledgement of the sequence number itself,
  // and so of none of the 100 bytes, ends the wait for them.
  lemma {:induction false} DuplicateEndsWait(ends: Ends)
    ensures var c := Conn(Established, ends, TWO32 - 50, 10, [0]);
            && Plus(c.seqNum, 100) == 50
            && AckedAt(c, [Bare(c, c.seqNum)], 50, 1)
            && !Acks(c, Bare(c, c.seqNum), c.seqNum, 100, TWO32 - 1)
  {
    hide AckedAt, Acks, Build;
    var c := Conn(Established, ends, TWO32 - 50, 10, [0]);
    BareAcks(c, c.seqNum, 50, c.seqNum, 100, TWO32 - 1);
  }

  // Silence ends the wait well exactly when the number is already there.
  lemma {:induction false} SilentWait(c: Conn, polls: seq<Option<Packet>>, expected: u32)
    requires polls != [] && forall i :: 0 <= i < |polls| ==> polls[i] == None
    ensures (exists k :: AckedAt(c, polls, expected, k)) <==> c.state == Established && c.ackNum >= expected
  {
    forall k | 0 <= k <= |polls|
      ensures After(c, polls[..k]) == c
    {
      SilenceKeeps(c, polls[..k]);
    }
    if c.state == Established && c.ackNum >= expected {
      assert AckedAt(c, polls, expected, 1);
    }
  }

  lemma {:induction false} SilenceKeeps(c: Conn, polls: seq<Option<Packet>>)
    requires forall i :: 0 <= i < |polls| ==> polls[i] == None
    ensures After(c, polls) == c
    decreases |polls|
  {
    if polls != [] {
      SilenceKeeps(c, polls[..|polls| - 1]);
    }
  }

  // So a send can succeed unacknowledged. Right after a handshake with a peer that counts from
  // 5000, a chunk of 100 bytes counts as acknowledged at the first silent poll.
  lemma {:induction false} SucceedsUnheard(ends: Ends)
    ensures var c := Handle(Conn(SynSent, ends, 1000, 0, []), Segment(5000, 1001, SYN + ACK, [])).conn;
            c.state == Established && c.seqNum == 1001 && AckedAt(c, [None], Plus(c.seqNum, 100), 1)
  {
    var c := Handle(Conn(SynSent, ends, 1000, 0, []), Segment(5000, 1001, SYN + ACK, [])).conn;
    var polls: seq<Option<Packet>> := [None];
    SilenceKeeps(c, polls);
    assert polls[..1] == polls;
  }
}

/**
 Whole TCP sessions: the handshake, a stream of data segments with a reader between them, and the
 end. Since one field counts both what the peer has sent and what it has acknowledged, a peer that
 does everything in order is heard out if and only if its numbers stay above ours.
 */
module TcpSessions {
  import opened Bytes
  import opened Common
  import opened IpPackets
  import opened TcpSegments
  import opened TcpStates

  // ---------------------------------------------------------------- flags

  // FIN, SYN, RST, PSH and ACK are the bits 0 to 4, whatever the others are.
  lemma {:induction false} FlagBits(fin: nat, syn: nat, rst: nat, psh: nat, ack: nat, rest: nat, flags: byte)
    requires fin < 2 && syn < 2 && rst < 2 && psh < 2 && ack < 2
    requires flags == fin + 2 * syn + 4 * rst + 8 * psh + 16 * ack + 32 * rest
    ensures Has(flags, FIN) <==> fin == 1
    ensures Has(flags, SYN) <==> syn == 1
    ensures Has(flags, RST) <==> rst == 1
    ensures Has(flags, PSH) <==> psh == 1
    ensures Has(flags, ACK) <==> ack == 1
  {
    assert flags / 2 == syn + 2 * rst + 4 * psh + 8 * ack + 16 * rest;
    assert flags / 4 == rst + 2 * psh + 4 * ack + 8 * rest;
    assert flags / 8 == psh + 2 * ack + 4 * rest;
    assert flags / 16 == ack + 2 * rest;
  }

  lemma KnownFlags()
    ensures Has(0x12, SYN) && Has(0x12, ACK) && !Has(0x12, RST) && !Has(0x12, FIN)
    ensures Has(0x10, ACK) && !Has(0x10, SYN) && !Has(0x10, RST) && !Has(0x10, FIN)
    ensures Has(0x11, FIN) && Has(0x11, ACK) && !Has(0x11, RST) && !Has(0x11, SYN)
    ensures Has(0x04, RST) && !Has(0x04, SYN) && !Has(0x04, FIN) && !Has(0x04, ACK)
  {
  }

  // ---------------------------------------------------------------- single segments

  // What the other end's segment arrives as.
  function Sent(c: Conn, s: Segment): (m: Option<Packet>)
    requires |s.payload| <= TCP_MSS
  {
    Some(Packet(Build(c.ends.Reversed(), s), c.ends.remoteIp))
  }

  lemma {:induction false} SentArrives(c: Conn, s: Segment)
    requires |s.payload| <= TCP_MSS
    ensures Poll(c, Sent(c, s)) == Handle(c, s)
  {
    hide Build, Parse, Handle;
    BuiltParses(c.ends.Reversed(), s);
    assert c.ends.Reversed().Reversed() == c.ends;
  }

  // A connecting end answers the SYN-ACK for its own SYN with the two next numbers, and is
  // established. Any other SYN-ACK is ignored.
  lemma {:induction false} Handshake(c: Conn, isn: u32, ack: u32, payload: seq<byte>)
    requires c.state == SynSent
    ensures Handle(c, Segment(isn, ack, 0x12, payload))
            == if ack == (c.seqNum + 1) % TWO32
               then Handled(Conn(Established, c.ends, ack, (isn + 1) % TWO32, c.recv),
                            [Segment(ack, (isn + 1) % TWO32, 0x10, [])], [])
               else Handled(c, [], [])
  {
    KnownFlags();
  }

  // What the number expected next becomes when `ack` is heard.
  function Expected(c: Conn, ack: u32): (n: u32) { if ack >= c.ackNum then ack else c.ackNum }

  // Data in the expected place is taken in whole and acknowledged up to its end; other data is
  // answered with the number expected.
  lemma {:induction false} DataArrives(c: Conn, seqNum: u32, ack: u32, data: seq<byte>)
    requires c.state == Established && c.recv == [] && 0 < |data| <= 2048
    ensures Handle(c, Segment(seqNum, ack, 0x10, data))
            == if seqNum == Expected(c, ack)
               then Handled(c.(ackNum := (seqNum + |data|) % TWO32, recv := data),
                            [Segment(c.seqNum, (seqNum + |data|) % TWO32, 0x10, [])], data)
               else Handled(c.(ackNum := Expected(c, ack)), [Segment(c.seqNum, Expected(c, ack), 0x10, [])], [])
  {
    KnownFlags();
  }

  // While data is pending, or when it is larger than the buffer, nothing is taken in.
  lemma {:induction false} DataRefused(c: Conn, seqNum: u32, ack: u32, data: seq<byte>)
    requires c.state == Established && (c.recv != [] || |data| > 2048) && data != []
    ensures Handle(c, Segment(seqNum, ack, 0x10, data))
            == Handled(c.(ackNum := Expected(c, ack)), [Segment(c.seqNum, Expected(c, ack), 0x10, [])], [])
  {
    KnownFlags();
  }

  // A reset ends the connection without an answer; what is pending stays to be read.
  lemma {:induction false} ResetCloses(c: Conn, s: Segment)
    requires Has(s.flags, RST) && (c.state == Established || (c.state == SynSent && !Has(s.flags, ACK)))
    ensures Handle(c, s) == Handled(c.(state := Closed), [], [])
  {
  }

  // An established connection is ended by a final segment exactly when it is in the expected place
  // and carries no data: behind data in the same segment it is never in that place.
  lemma {:induction false} FinEndsIff(c: Conn, s: Segment)
    requires c.state == Established && !Has(s.flags, RST)
    ensures Handle(c, s).conn.state == TimeWait
            <==> && Has(s.flags, FIN) && s.payload == []
                 && s.seqNum == if Has(s.flags, ACK) then Expected(c, s.ackNum) else c.ackNum
    ensures Handle(c, s).conn.state != TimeWait ==> Handle(c, s).conn.state == Established
    ensures Handle(c, s).conn.state == TimeWait ==>
              && Handle(c, s).conn == Conn(TimeWait, c.ends, c.seqNum, (s.seqNum + 1) % TWO32, c.recv)
              && Handle(c, s).out == [Segment(c.seqNum, (s.seqNum + 1) % TWO32, 0x10, [])]
  {
    if 0 < |s.payload| <= RECV_SIZE {
      assert Plus(s.seqNum, |s.payload|) != s.seqNum;
    }
  }

  // An end that has sent its own final segment is done when that is acknowledged or the other's
  // arrives, which alone is answered; any segment then clears the connection.
  lemma {:induction false} FinWaitEndsIff(c: Conn, s: Segment)
    requires c.state == FinWait1
    ensures var r := Handle(c, s);
            && (r.conn.state == TimeWait <==> Has(s.flags, FIN) || (Has(s.flags, ACK) && s.ackNum >= c.seqNum))
            && (r.conn.state != TimeWait ==> r.conn.state == FinWait1)
            && r.out == (if Has(s.flags, FIN) then [Segment(c.seqNum, (s.seqNum + 1) % TWO32, 0x10, [])] else [])
            && r.conn.recv == c.recv && r.accepted == []
            && forall t :: Handle(r.conn.(state := TimeWait), t) == Handled(r.conn.(state := Closed), [], [])
  {
  }

  // ---------------------------------------------------------------- a stream

  function Concat(chunks: seq<seq<byte>>): (r: seq<byte>) {
    if chunks == [] then [] else Concat(chunks[..|chunks| - 1]) + chunks[|chunks| - 1]
  }

  predicate Chunks(chunks: seq<seq<byte>>) {
    forall i :: 0 <= i < |chunks| ==> 0 < |chunks[i]| <= TCP_MSS
  }

  // The number of the first byte of chunk `i`, when the first one starts at `next`.
  function Place(next: u32, chunks: seq<seq<byte>>, i: nat): (n: u32)
    requires i <= |chunks|
  {
    (next + |Concat(chunks[..i])|) % TWO32
  }

  // The peer sends chunk after chunk, numbered from `next` and acknowledging `ack`, and after each
  // a reader empties the buffer.
  function Stream(c: Conn, next: u32, ack: u32, chunks: seq<seq<byte>>): (es: seq<Event>)
    requires Chunks(chunks)
    decreases |chunks|
  {
    if chunks == [] then [] else
    var m := |chunks| - 1;
    Stream(c, next, ack, chunks[..m])
    + [Arrives(Sent(c, Segment(Place(next, chunks, m), ack, 0x10, chunks[m]))), Reads(2048)]
  }

  lemma {:induction false} TwoMore(f: Flow, es: seq<Event>, a: Event, b: Event)
    ensures Run(f, es + [a, b]) == Step(Step(Run(f, es), a), b)
  {
    var all := es + [a, b];
    assert all[..|all| - 1] == es + [a] && all[|all| - 1] == b;
    assert (es + [a])[..|es|] == es && (es + [a])[|es|] == a;
    assert Run(f, es + [a]) == Step(Run(f, es), a);
  }

  lemma Arrived(f: Flow, m: Option<Packet>, h: Handled)
    requires Poll(f.conn, m) == h
    ensures Step(f, Arrives(m)) == Flow(h.conn, f.accepted + h.accepted, f.returned)
  {
    hide Poll;
  }

  lemma {:induction false} Emptied(f: Flow)
    requires |f.conn.recv| <= 2048
    ensures Step(f, Reads(2048)) == Flow(f.conn.(recv := []), f.accepted, f.returned + f.conn.recv)
  {
    var b := f.conn.recv;
    assert b[..|b|] == b && b[|b|..] == [];
  }

  // One chunk, and the read behind it.
  lemma {:induction false} ChunkThenRead(f: Flow, seqNum: u32, ack: u32, data: seq<byte>)
    requires f.conn.state == Established && f.conn.recv == [] && 0 < |data| <= TCP_MSS
    ensures var g := Step(Step(f, Arrives(Sent(f.conn, Segment(seqNum, ack, 0x10, data)))), Reads(2048));
            if seqNum == Expected(f.conn, ack)
            then && g.conn == f.conn.(ackNum := (seqNum + |data|) % TWO32) && g.returned == f.returned + data
            else g.conn == f.conn.(ackNum := Expected(f.conn, ack)) && g.returned == f.returned
  {
    hide Poll, Sent, Handle, Step;
    var s := Segment(seqNum, ack, 0x10, data);
    SentArrives(f.conn, s);
    DataArrives(f.conn, seqNum, ack, data);
    Arrived(f, Sent(f.conn, s), Handle(f.conn, s));
    Emptied(Step(f, Arrives(Sent(f.conn, s))));
    assert f.returned + [] == f.returned;
  }

  // Every chunk starts at or above the number the peer acknowledges.
  ghost predicate Above(next: u32, ack: u32, chunks: seq<seq<byte>>) {
    forall i :: 0 <= i < |chunks| ==> ack <= Place(next, chunks, i)
  }

  lemma {:induction false} AboveLast(next: u32, ack: u32, chunks: seq<seq<byte>>)
    requires chunks != []
    ensures var m := |chunks| - 1;
            Above(next, ack, chunks) <==> Above(next, ack, chunks[..m]) && ack <= Place(next, chunks, m)
  {
    var m := |chunks| - 1;
    forall i | 0 <= i < m
      ensures Place(next, chunks[..m], i) == Place(next, chunks, i)
    {
      assert chunks[..m][..i] == chunks[..i];
    }
  }

  lemma PlaceOn(next: u32, chunks: seq<seq<byte>>)
    requires chunks != []
    ensures var m := |chunks| - 1;
            && Place(next, chunks[..m], m) == Place(next, chunks, m)
            && Place(next, chunks, m + 1) == (Place(next, chunks, m) + |chunks[m]|) % TWO32
  {
    assert chunks[..|chunks|] == chunks;
    assert chunks[..|chunks| - 1][..|chunks| - 1] == chunks[..|chunks| - 1];
  }

  lemma {:induction false} StreamRuns(f: Flow, next: u32, ack: u32, chunks: seq<seq<byte>>)
    requires Chunks(chunks) && f.conn.state == Established && f.conn.recv == [] && f.conn.ackNum == next
    ensures var g, total := Run(f, Stream(f.conn, next, ack, chunks)), |Concat(chunks)|;
            && g.conn == f.conn.(ackNum := g.conn.ackNum)
            && |g.returned| <= |f.returned| + total
            && (|g.returned| == |f.returned| + total <==> Above(next, ack, chunks))
            && (Above(next, ack, chunks) ==>
                  g.returned == f.returned + Concat(chunks) && g.conn.ackNum == Place(next, chunks, |chunks|))
    decreases |chunks|
  {
    hide Step, Sent, Above, Place, Run, Stream, Concat;
    if chunks == [] {
      Nothing(f, next, ack);
    } else {
      var m := |chunks| - 1;
      var front, data := chunks[..m], chunks[m];
      StreamRuns(f, next, ack, front);
      var es, at := Stream(f.conn, next, ack, front), Place(next, chunks, m);
      var g, s := Run(f, es), Segment(at, ack, 0x10, data);
      StreamLast(f.conn, next, ack, chunks);
      SameSent(f.conn, g.conn, s);
      TwoMore(f, es, Arrives(Sent(f.conn, s)), Reads(2048));
      ChunkThenRead(g, at, ack, data);
      AboveLast(next, ack, chunks);
      PlaceOn(next, chunks);
      assert f.returned + Concat(front) + data == f.returned + (Concat(front) + data);
    }
  }

  lemma StreamLast(c: Conn, next: u32, ack: u32, chunks: seq<seq<byte>>)
    requires Chunks(chunks) && chunks != []
    ensures var m := |chunks| - 1;
            && Stream(c, next, ack, chunks)
               == Stream(c, next, ack, chunks[..m])
                  + [Arrives(Sent(c, Segment(Place(next, chunks, m), ack, 0x10, chunks[m]))), Reads(2048)]
            && Concat(chunks) == Concat(chunks[..m]) + chunks[m]
  {
    hide Sent, Place;
  }

  lemma Nothing(f: Flow, next: u32, ack: u32)
    requires f.conn.ackNum == next
    ensures Run(f, Stream(f.conn, next, ack, [])) == f && Concat([]) == []
    ensures Above(next, ack, []) && Place(next, [], 0) == next
  {
  }

  lemma SameSent(c: Conn, d: Conn, s: Segment)
    requires c.ends == d.ends && |s.payload| <= TCP_MSS
    ensures Sent(c, s) == Sent(d, s)
  {
    hide Build;
  }

  // Every byte of an ordered stream is returned, in order, if and only if each chunk starts at or
  // above the number the peer acknowledges.
  lemma {:induction false} StreamReturnedIff(f: Flow, next: u32, ack: u32, chunks: seq<seq<byte>>)
    requires Chunks(chunks) && f.conn.state == Established && f.conn.recv == [] && f.conn.ackNum == next
    ensures Run(f, Stream(f.conn, next, ack, chunks)).returned == f.returned + Concat(chunks)
            <==> Above(next, ack, chunks)
  {
    hide Run, Stream, Above, Concat;
    StreamRuns(f, next, ack, chunks);
  }

  // As long as the peer's numbers do not wrap this depends on the first number alone.
  lemma {:induction false} AboveIff(next: u32, ack: u32, chunks: seq<seq<byte>>)
    requires chunks != [] && next + |Concat(chunks)| < TWO32
    ensures Above(next, ack, chunks) <==> ack <= next
  {
    forall i | 0 <= i < |chunks|
      ensures next <= Place(next, chunks, i)
    {
      ConcatGrows(chunks, i);
    }
    assert chunks[..0] == [] && Place(next, chunks, 0) == next;
  }

  lemma {:induction false} ConcatGrows(chunks: seq<seq<byte>>, i: nat)
    requires i <= |chunks|
    ensures |Concat(chunks[..i])| <= |Concat(chunks)|
    decreases |chunks|
  {
    if i == |chunks| {
      assert chunks[..i] == chunks;
    } else {
      ConcatGrows(chunks[..|chunks| - 1], i);
      assert chunks[..|chunks| - 1][..i] == chunks[..i];
    }
  }

  // ---------------------------------------------------------------- a session

  // From the SYN-ACK with the peer's first number `isn`, over its chunks, to its final segment.
  function Session(c: Conn, isn: u32, chunks: seq<seq<byte>>): (es: seq<Event>)
    requires Chunks(chunks)
  {
    var next, ack := (isn + 1) % TWO32, (c.seqNum + 1) % TWO32;
    [Arrives(Sent(c, Segment(isn, ack, 0x12, [])))]
    + Stream(c, next, ack, chunks)
    + [Arrives(Sent(c, Segment(Place(next, chunks, |chunks|), ack, 0x11, [])))]
  }

  // The whole session goes through, every byte returned and the end acknowledged, if and only if
  // the peer's numbers, from its first byte to its final segment, are at or above ours.
  lemma {:induction false} SessionIff(c: Conn, isn: u32, chunks: seq<seq<byte>>)
    requires c.state == SynSent && c.recv == [] && Chunks(chunks)
    ensures var next, ack := (isn + 1) % TWO32, (c.seqNum + 1) % TWO32;
            var g := Run(Flow(c, [], []), Session(c, isn, chunks));
            g.returned == Concat(chunks) && g.conn.state == TimeWait
            <==> Above(next, ack, chunks) && ack <= Place(next, chunks, |chunks|)
  {
    hide Sent, Stream, Above, Place, Handle, Step;
    var next, ack, n := (isn + 1) % TWO32, (c.seqNum + 1) % TWO32, |chunks|;
    var syn, fin := Segment(isn, ack, 0x12, []), Segment(Place(next, chunks, n), ack, 0x11, []);
    var f, es := Flow(c, [], []), Stream(c, next, ack, chunks);
    var first := Step(f, Arrives(Sent(c, syn)));
    Opens(c, isn);
    var d := first.conn;
    StreamSame(c, d, next, ack, chunks);
    StreamRuns(first, next, ack, chunks);
    Between(f, Arrives(Sent(c, syn)), es, Arrives(Sent(c, fin)));
    var g := Run(first, es);
    SameSent(c, g.conn, fin);
    Finishes(g, fin);
  }

  // The first connection after a start counts from 1000: a session whose numbers do not wrap goes
  // through if and only if the peer counts from 1000 or more.
  lemma {:induction false} FirstSessionIff(ends: Ends, isn: u32, chunks: seq<seq<byte>>)
    requires Chunks(chunks) && isn + 1 + |Concat(chunks)| < TWO32
    ensures var c := Conn(SynSent, ends, 1000, 0, []);
            var g := Run(Flow(c, [], []), Session(c, isn, chunks));
            g.returned == Concat(chunks) && g.conn.state == TimeWait <==> isn >= 1000
  {
    hide Run, Session;
    SessionIff(Conn(SynSent, ends, 1000, 0, []), isn, chunks);
    assert chunks[..|chunks|] == chunks;
    assert Place(isn + 1, chunks, |chunks|) == isn + 1 + |Concat(chunks)|;
    if chunks != [] {
      AboveIff(isn + 1, 1001, chunks);
    }
  }

  lemma {:induction false} Opens(c: Conn, isn: u32)
    requires c.state == SynSent && c.recv == []
    ensures var ack := (c.seqNum + 1) % TWO32;
            Step(Flow(c, [], []), Arrives(Sent(c, Segment(isn, ack, 0x12, []))))
            == Flow(Conn(Established, c.ends, ack, (isn + 1) % TWO32, []), [], [])
  {
    hide Poll, Sent, Handle;
    var ack := (c.seqNum + 1) % TWO32;
    SentArrives(c, Segment(isn, ack, 0x12, []));
    Handshake(c, isn, ack, []);
  }

  lemma {:induction false} Finishes(g: Flow, fin: Segment)
    requires g.conn.state == Established && fin.flags == 0x11 && fin.payload == []
    ensures var h := Step(g, Arrives(Sent(g.conn, fin)));
            h.returned == g.returned && (h.conn.state == TimeWait <==> fin.seqNum == Expected(g.conn, fin.ackNum))
  {
    hide Poll, Sent, Handle;
    SentArrives(g.conn, fin);
    KnownFlags();
    FinEndsIff(g.conn, fin);
  }

  lemma {:induction false} Between(f: Flow, a: Event, es: seq<Event>, b: Event)
    ensures Run(f, [a] + es + [b]) == Step(Run(Step(f, a), es), b)
  {
    hide Step;
    var all := [a] + es + [b];
    assert all[..|all| - 1] == [a] + es && all[|all| - 1] == b;
    FirstFirst(f, a, es);
  }

  lemma {:induction false} FirstFirst(f: Flow, a: Event, es: seq<Event>)
    ensures Run(f, [a] + es) == Run(Step(f, a), es)
    decreases |es|
  {
    hide Step;
    if es == [] {
      assert [a] + es == [a] && [a][..0] == [];
    } else {
      var m := |es| - 1;
      FirstFirst(f, a, es[..m]);
      assert ([a] + es)[..m + 1] == [a] + es[..m];
    }
  }

  lemma {:induction false} StreamSame(c: Conn, d: Conn, next: u32, ack: u32, chunks: seq<seq<byte>>)
    requires c.ends == d.ends && Chunks(chunks)
    ensures Stream(c, next, ack, chunks) == Stream(d, next, ack, chunks)
    decreases |chunks|
  {
    if chunks != [] {
      var m := |chunks| - 1;
      StreamSame(c, d, next, ack, chunks[..m]);
      SameSent(c, d, Segment(Place(next, chunks, m), ack, 0x10, chunks[m]));
    }
  }
}

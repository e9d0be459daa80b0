/**
 The TCP connection in place: packet handling, connecting, sending with retransmission and
 receiving. Arrivals are given per attempt as the polls made while it waits.
 */
module Tcp {
  import opened Bytes
  import opened Common
  import opened IpPackets
  import opened TcpSegments
  import opened TcpStates

  const LOCAL_PORT: u16 := 12345

  // ---------------------------------------------------------------- what went out

  // A copy of the data bytes from offset `o` on, labelled `s0 + o`.
  ghost predicate CopyAt(s: Segment, data: seq<byte>, s0: u32, o: nat) {
    o + |s.payload| <= |data| && s.payload == data[o..o + |s.payload|] && s.seqNum == Plus(s0, o)
  }

  // Every transmitted data byte carries its own sequence number, in every copy.
  ghost predicate Labelled(out: seq<Segment>, data: seq<byte>, s0: u32) {
    forall i :: 0 <= i < |out| ==> out[i].payload == [] || exists o: nat :: CopyAt(out[i], data, s0, o)
  }

  // The bytes below `n` have all been transmitted.
  ghost predicate Covers(out: seq<Segment>, data: seq<byte>, s0: u32, n: nat) {
    forall k :: 0 <= k < n ==> Carried(out, data, s0, k)
  }

  ghost predicate Carried(out: seq<Segment>, data: seq<byte>, s0: u32, k: nat) {
    exists i: nat, o: nat :: Carries(out, data, s0, i, o, k)
  }

  ghost predicate Carries(out: seq<Segment>, data: seq<byte>, s0: u32, i: nat, o: nat, k: nat) {
    i < |out| && CopyAt(out[i], data, s0, o) && o <= k < o + |out[i].payload|
  }

  ghost predicate Quiet(out: seq<Segment>) {
    forall i :: 0 <= i < |out| ==> out[i].payload == [] && out[i].flags == ACK
  }

  lemma {:induction false} QuietGoesOn(out: seq<Segment>, more: seq<Segment>, data: seq<byte>, s0: u32, n: nat)
    requires Labelled(out, data, s0) && Covers(out, data, s0, n) && Quiet(more)
    ensures Labelled(out + more, data, s0) && Covers(out + more, data, s0, n)
  {
    hide CopyAt;
    forall k | 0 <= k < n
      ensures Carried(out + more, data, s0, k)
    {
      assert Carried(out, data, s0, k);
      var i: nat, o: nat :| Carries(out, data, s0, i, o, k);
      assert Carries(out + more, data, s0, i, o, k);
    }
  }

  lemma {:induction false} CopyGoesOut(out: seq<Segment>, s: Segment, data: seq<byte>, s0: u32, o: nat)
    requires Labelled(out, data, s0) && Covers(out, data, s0, o) && CopyAt(s, data, s0, o)
    ensures Labelled(out + [s], data, s0) && Covers(out + [s], data, s0, o + |s.payload|)
  {
    hide CopyAt;
    var all := out + [s];
    forall i | 0 <= i < |all|
      ensures all[i].payload == [] || exists x: nat :: CopyAt(all[i], data, s0, x)
    {
      if i == |out| { assert CopyAt(all[i], data, s0, o); }
    }
    forall k | 0 <= k < o + |s.payload|
      ensures Carried(all, data, s0, k)
    {
      if k < o {
        assert Carried(out, data, s0, k);
        var i: nat, x: nat :| Carries(out, data, s0, i, x, k);
        assert Carries(all, data, s0, i, x, k);
      } else {
        assert Carries(all, data, s0, |out|, o, k);
      }
    }
  }

  class Connection {
    var state: State
    var ends: Ends
    var seqNum: u32
    var ackNum: u32
    const recvBuf: array<byte>
    var recvLen: nat
    var wire: seq<Segment>               // segments sent, oldest first
    ghost var accepted: seq<byte>        // payload taken in so far
    ghost var returned: seq<byte>        // bytes handed to readers so far

    ghost predicate Valid()
      reads this, recvBuf
    {
      && recvBuf.Length == RECV_SIZE && recvLen <= RECV_SIZE
      && returned + recvBuf[..recvLen] == accepted
    }

    ghost function View(): (c: Conn)
      requires recvLen <= recvBuf.Length
      reads this, recvBuf
    {
      Conn(state, ends, seqNum, ackNum, recvBuf[..recvLen])
    }

    // tcp_init
    constructor ()
      ensures Valid() && View() == Conn(Closed, Ends(0, 0, 0, 0), 1000, 0, []) && wire == []
      ensures accepted == [] && returned == [] && fresh(recvBuf)
    {
      state, ends, seqNum, ackNum := Closed, Ends(0, 0, 0, 0), 1000, 0;
      recvBuf := new byte[RECV_SIZE](_ => 0);
      recvLen, wire, accepted, returned := 0, [], [], [];
    }

    // tcp_send_segment, handed to IP in one step; fails only for a payload over the segment size
    method Transmit(flags: byte, payload: seq<byte>) returns (ok: bool)
      requires |payload| < 0x1_0000
      modifies this`wire
      ensures ok <==> |payload| <= 1460
      ensures wire == if ok then old(wire) + [Segment(seqNum, ackNum, flags, payload)] else old(wire)
    {
      var s := Segment(seqNum, ackNum, flags, payload);
      var bytes := SendSegment(ends, s);
      ok := bytes.Some?;
      if ok {
        BuiltParses(ends, s);
        wire := wire + [s];
      }
    }

    // The copy loop that fills the receive buffer.
    method Fill(payload: seq<byte>)
      requires recvBuf.Length == RECV_SIZE && |payload| <= RECV_SIZE
      modifies recvBuf, this`recvLen
      ensures recvLen == |payload| && recvBuf[..recvLen] == payload
    {
      for i := 0 to |payload|
        invariant recvBuf[..i] == payload[..i]
      {
        recvBuf[i] := payload[i];
      }
      recvLen := |payload|;
    }

    // The SYN_SENT case of tcp_handle_packet
    method OnSynSent(s: Segment)
      requires Valid() && state == SynSent
      modifies this`state, this`seqNum, this`ackNum, this`wire
      ensures Valid() && (var r := HandleSynSent(old(View()), s); View() == r.conn && wire == old(wire) + r.out)
    {
      if Has(s.flags, SYN) && Has(s.flags, ACK) {
        if s.ackNum != Plus(seqNum, 1) {
          return;
        }
        ackNum := Plus(s.seqNum, 1);
        seqNum := s.ackNum;
        var _ := Transmit(ACK, []);
        state := Established;
      } else if Has(s.flags, RST) {
        state := Closed;
      }
    }

    method RaiseAck(s: Segment)
      requires Valid()
      modifies this`ackNum
      ensures Valid() && View() == Raise(old(View()), s)
    {
      if Has(s.flags, ACK) {
        if s.ackNum >= ackNum {
          ackNum := s.ackNum;
        }
      }
    }

    // The end of the ESTABLISHED case: a final segment
    method OnFin(s: Segment)
      requires Valid()
      modifies this`state, this`ackNum, this`wire
      ensures Valid() && (var r := HandleFin(old(View()), s); View() == r.conn && wire == old(wire) + r.out)
    {
      if Has(s.flags, FIN) {
        if s.seqNum != ackNum {
          var _ := Transmit(ACK, []);
          return;
        }
        ackNum := Plus(s.seqNum, 1);
        var _ := Transmit(ACK, []);
        state := TimeWait;
      }
    }

    // The ESTABLISHED case of tcp_handle_packet
    method OnEstablished(s: Segment)
      requires Valid() && state == Established
      modifies this`state, this`ackNum, this`wire, this`recvLen, this`accepted, recvBuf
      ensures Valid()
      ensures var r := HandleEstablished(old(View()), s);
              View() == r.conn && wire == old(wire) + r.out && accepted == old(accepted) + r.accepted
    {
      hide Has, Plus, HandleFin;
      if Has(s.flags, RST) {
        state := Closed;
        return;
      }
      RaiseAck(s);
      if s.payload != [] {
        if s.seqNum != ackNum || |s.payload| > RECV_SIZE || recvLen != 0 {
          var _ := Transmit(ACK, []);
          return;
        }
        TakeIn(s);
      }
      OnFin(s);
    }

    // Data that is next in order goes into the empty buffer and is acknowledged.
    method TakeIn(s: Segment)
      requires Valid() && Takes(View(), s)
      modifies this`ackNum, this`wire, this`recvLen, this`accepted, recvBuf
      ensures Valid() && accepted == old(accepted) + s.payload
      ensures View() == old(View()).(recv := s.payload, ackNum := Plus(s.seqNum, |s.payload|))
      ensures wire == old(wire) + [Answer(View())]
    {
      hide Plus;
      Fill(s.payload);
      accepted := accepted + s.payload;
      ackNum := Plus(s.seqNum, |s.payload|);
      var _ := Transmit(ACK, []);
    }

    // The FIN_WAIT_1 case of tcp_handle_packet
    method OnFinWait(s: Segment)
      requires Valid() && state == FinWait1
      modifies this`state, this`ackNum, this`wire
      ensures Valid() && (var r := HandleFinWait(old(View()), s); View() == r.conn && wire == old(wire) + r.out)
    {
      RaiseAck(s);
      if Has(s.flags, FIN) {
        ackNum := Plus(s.seqNum, 1);
        var _ := Transmit(ACK, []);
        state := TimeWait;
      } else if Has(s.flags, ACK) {
        if s.ackNum >= seqNum {
          state := TimeWait;
        }
      }
    }

    // tcp_handle_packet
    method HandlePacket(data: seq<byte>, src: u32)
      requires Valid() && |data| < 0x1_0000
      modifies this`state, this`seqNum, this`ackNum, this`wire, this`recvLen, this`accepted, recvBuf
      ensures Valid()
      ensures var r := Poll(old(View()), Some(Packet(data, src)));
              View() == r.conn && wire == old(wire) + r.out && accepted == old(accepted) + r.accepted
    {
      hide Parse, HandleSynSent, HandleEstablished, HandleFinWait;
      var p := ParsePacket(ends, data, src);
      if p.Some? {
        NoDataOutside(View(), p.value);
        match state {
          case SynSent => OnSynSent(p.value);
          case Established => OnEstablished(p.value);
          case FinWait1 => OnFinWait(p.value);
          case TimeWait => state := Closed;
          case Closed =>
        }
      }
    }

    // net_poll_once
    method PollOnce(m: Option<Packet>)
      requires Valid()
      modifies this`state, this`seqNum, this`ackNum, this`wire, this`recvLen, this`accepted, recvBuf
      ensures Valid()
      ensures var r := Poll(old(View()), m);
              View() == r.conn && wire == old(wire) + r.out && accepted == old(accepted) + r.accepted
    {
      hide Parse, Handle;
      if m.Some? && |m.value.data| < 0x1_0000 {
        HandlePacket(m.value.data, m.value.src);
      }
    }

    // The wait of tcp_send for an acknowledgement number of `expected` or more.
    method AwaitAck(polls: seq<Option<Packet>>, expected: u32)
      returns (acked: bool, ghost k: nat, ghost more: seq<Segment>)
      requires Valid() && state == Established
      modifies this`state, this`seqNum, this`ackNum, this`wire, this`recvLen, this`accepted, recvBuf
      ensures Valid() && k <= |polls| && View() == After(old(View()), polls[..k])
      ensures acked <==> AckedAt(old(View()), polls, expected, k)
      ensures acked && old(ackNum) < expected && old(recvLen) > 0 ==>
                Heard(After(old(View()), polls[..k - 1]), polls[k - 1], expected)
      ensures acked && old(ackNum) < expected && old(recvLen) > 0 && old(seqNum) < expected ==>
                Acks(After(old(View()), polls[..k - 1]), polls[k - 1], old(seqNum), expected - old(seqNum),
                     TWO32 - 1 - old(seqNum))
      ensures !acked ==> (state != Established || k == |polls|) && forall j :: !AckedAt(old(View()), polls, expected, j)
      ensures wire == old(wire) + more && Quiet(more) && seqNum == old(seqNum) && ends == old(ends)
    {
      hide Poll, Heard, Acks;
      ghost var c := View();
      k, more := 0, [];
      assert polls[..0] == [];
      for i := 0 to |polls|
        invariant k == i && Valid() && View() == After(c, polls[..i]) && state == Established
        invariant wire == old(wire) + more && Quiet(more) && seqNum == c.seqNum && ends == c.ends
        invariant forall j :: 0 < j <= i ==>
                    After(c, polls[..j]).state == Established && After(c, polls[..j]).ackNum < expected
      {
        PollFacts(View(), polls[i]);
        more := more + Poll(View(), polls[i]).out;
        PollOnce(polls[i]);
        k := i + 1;
        assert polls[..i + 1][..i] == polls[..i];
        if state != Established {
          assert After(c, polls[..i + 1]).state != Established;
          return false, k, more;
        }
        if ackNum >= expected {
          assert AckedAt(c, polls, expected, k);
          if c.ackNum < expected && c.recv != [] {
            PendingWaitHears(c, polls, expected, k);
            if c.seqNum < expected {
              TrustedWait(c, polls, expected - c.seqNum, k);
            }
          }
          return true, k, more;
        }
      }
      acked := false;
    }

    // The retry loop of tcp_send for one chunk, at offset `sent` of the data.
    method SendChunk(data: seq<byte>, sent: nat, chunk: nat, arrivals: nat -> seq<Option<Packet>>, n: nat,
                     ghost s0: u32, ghost out: seq<Segment>)
      returns (acked: bool, attempts: nat, ghost more: seq<Segment>)
      requires Valid() && state == Established && 0 < chunk <= TCP_MSS && sent + chunk <= |data|
      requires seqNum == Plus(s0, sent) && Labelled(out, data, s0) && Covers(out, data, s0, sent)
      modifies this`state, this`seqNum, this`ackNum, this`wire, this`recvLen, this`accepted, recvBuf
      ensures Valid() && wire == old(wire) + more && seqNum == old(seqNum) && ends == old(ends)
      ensures Labelled(out + more, data, s0) && Covers(out + more, data, s0, if acked then sent + chunk else sent)
      ensures acked ==> state == Established && ackNum >= Plus(seqNum, chunk)
      ensures DataCopies(more) == attempts - n && 1 <= attempts - n <= 3
      ensures !acked && state == Established ==> attempts - n == 3
    {
      hide After, Labelled, Covers, Plus, DataCopies;
      NoCopies();
      var segmentSeq := seqNum;
      var expected := Plus(segmentSeq, chunk);
      acked, attempts, more := false, n, [];
      assert out + [] == out;
      for retry := 0 to MAX_RETRIES
        invariant Valid() && state == Established && wire == old(wire) + more
        invariant seqNum == segmentSeq && ends == old(ends) && attempts == n + retry
        invariant Labelled(out + more, data, s0) && Covers(out + more, data, s0, sent)
        invariant DataCopies(more) == retry
      {
        seqNum := segmentSeq;
        ghost var s := Segment(seqNum, ackNum, PSH + ACK, data[sent..sent + chunk]);
        var _ := Transmit(PSH + ACK, data[sent..sent + chunk]);
        CopyGoesOut(out + more, s, data, s0, sent);
        ghost var k, waiting;
        var ok;
        ok, k, waiting := AwaitAck(arrivals(attempts), expected);
        QuietGoesOn(out + more + [s], waiting, data, s0, sent + chunk);
        assert out + more + [s] + waiting == out + (more + [s] + waiting);
        OneCopy(more, s, waiting);
        more := more + [s] + waiting;
        attempts := attempts + 1;
        if ok {
          acked := true;
          return;
        }
        FewerCovered(out + more, data, s0, sent + chunk, sent);
        if state != Established {
          return;
        }
      }
    }

    // tcp_send. Whatever arrives and however often a chunk is sent again, every copy of data byte
    // `k` carries `s0 + k`; success moves the sequence number on by exactly the length.
    method Send(data: seq<byte>, arrivals: nat -> seq<Option<Packet>>)
        returns (r: int, ghost done: nat, ghost out: seq<Segment>)
      requires Valid() && |data| < 0x1_0000
      modifies this`state, this`seqNum, this`ackNum, this`wire, this`recvLen, this`accepted, recvBuf
      ensures Valid() && ends == old(ends) && wire == old(wire) + out && Labelled(out, data, old(seqNum))
      ensures old(state) != Established ==> r == -1 && done == 0 && out == [] && View() == old(View())
      ensures old(state) == Established ==> (r == if done == |data| then |data| else -1)
      ensures done <= |data| && seqNum == Plus(old(seqNum), done) && Covers(out, data, old(seqNum), done)
      ensures r > 0 ==> state == Established && ackNum >= seqNum
    {
      hide After, Labelled, Covers, Plus, Poll;
      ghost var s0 := seqNum;
      out, done := [], 0;
      NothingOut(data, s0);
      if state != Established {
        return -1, 0, [];
      }
      var sent, attempts := 0, 0;
      while sent < |data|
        invariant Valid() && state == Established && ends == old(ends) && sent == done <= |data|
        invariant wire == old(wire) + out && seqNum == Plus(s0, sent)
        invariant Labelled(out, data, s0) && Covers(out, data, s0, sent)
        invariant sent > 0 ==> ackNum >= seqNum
        decreases |data| - sent
      {
        var chunk := |data| - sent;
        if chunk > TCP_MSS {
          chunk := TCP_MSS;
        }
        var acked;
        ghost var more;
        acked, attempts, more := SendChunk(data, sent, chunk, arrivals, attempts, s0, out);
        out := out + more;
        if !acked {
          return -1, done, out;
        }
        PlusPlus(s0, sent, chunk);
        seqNum := Plus(seqNum, chunk);
        sent := sent + chunk;
        done := sent;
      }
      r := sent;
    }

    // The wait of tcp_connect for the peer's answer.
    method AwaitAnswer(polls: seq<Option<Packet>>) returns (ghost more: seq<Segment>)
      requires Valid() && state == SynSent
      modifies this`state, this`seqNum, this`ackNum, this`wire, this`recvLen, this`accepted, recvBuf
      ensures Valid() && ends == old(ends) && wire == old(wire) + more && Quiet(more)
      ensures state in {SynSent, Established, Closed}
      ensures seqNum == if state == Established then Plus(old(seqNum), 1) else old(seqNum)
    {
      hide Poll, Plus;
      more := [];
      for i := 0 to |polls|
        invariant Valid() && state == SynSent && ends == old(ends) && seqNum == old(seqNum)
        invariant wire == old(wire) + more && Quiet(more)
      {
        PollFacts(View(), polls[i]);
        more := more + Poll(View(), polls[i]).out;
        PollOnce(polls[i]);
        if state == Established || state == Closed {
          return;
        }
      }
    }

    // One attempt of tcp_connect.
    method TrySyn(polls: seq<Option<Packet>>) returns (ghost syn: Segment, ghost more: seq<Segment>)
      requires Valid() && state == SynSent
      modifies this`state, this`seqNum, this`ackNum, this`wire, this`recvLen, this`accepted, recvBuf
      ensures Valid() && ends == old(ends) && syn == Segment(old(seqNum), old(ackNum), SYN, []) && Quiet(more)
      ensures wire == old(wire) + ([syn] + more) && state in {SynSent, Established, Closed}
      ensures seqNum == if state == Established then Plus(old(seqNum), 1) else old(seqNum)
    {
      hide Plus;
      syn := Segment(seqNum, ackNum, SYN, []);
      var _ := Transmit(SYN, []);
      more := AwaitAnswer(polls);
    }

    // tcp_connect. All copies of the SYN carry the same sequence number, of which there are at
    // most three, and success has moved it on by exactly one.
    method Connect(remoteIp: u32, remotePort: u16, arrivals: nat -> seq<Option<Packet>>)
        returns (ok: bool, ghost out: seq<Segment>)
      requires Valid()
      modifies this`state, this`ends, this`seqNum, this`ackNum, this`wire, this`recvLen, this`accepted, recvBuf
      ensures Valid() && wire == old(wire) + out
      ensures old(state) != Closed ==> !ok && out == [] && View() == old(View())
      ensures old(state) == Closed ==> ends == Ends(0x0A00020F, 12345, remoteIp, remotePort)
      ensures old(state) == Closed ==> state == if ok then Established else Closed
      ensures seqNum == if ok then Plus(old(seqNum), 1) else old(seqNum)
      ensures SynCopies(out, old(seqNum)) && Syns(out) <= 3
    {
      hide Plus, Syns, SynCopies, Quiet, Has, Poll, Build;
      ok, out := false, [];
      ghost var s0 := seqNum;
      NoSyns(s0);
      if state != Closed {
        return;
      }
      ends := Ends(OUR_IP, LOCAL_PORT, remoteIp, remotePort);
      state := SynSent;
      var synSeq, retries := seqNum, 0;
      while state == SynSent && retries < MAX_RETRIES
        invariant Valid() && state == SynSent && retries <= MAX_RETRIES && seqNum == s0 == synSeq
        invariant ends == Ends(OUR_IP, LOCAL_PORT, remoteIp, remotePort)
        invariant wire == old(wire) + out && SynCopies(out, s0) && Syns(out) == retries
      {
        seqNum := synSeq;
        ghost var syn, more := TrySyn(arrivals(retries));
        OneSyn(out, syn, more);
        GoesOn(old(wire), out, [syn] + more);
        out := out + ([syn] + more);
        retries := retries + 1;
        if state == Established {
          return true, out;
        }
        if state == Closed {
          return false, out;
        }
      }
      state := Closed;
    }

    // The wait of tcp_close for the other end.
    method AwaitEnd(polls: seq<Option<Packet>>) returns (ghost more: seq<Segment>)
      requires Valid() && state == FinWait1
      modifies this`state, this`seqNum, this`ackNum, this`wire, this`recvLen, this`accepted, recvBuf
      ensures Valid() && ends == old(ends) && wire == old(wire) + more && Quiet(more) && seqNum == old(seqNum)
      ensures recvBuf[..recvLen] == old(recvBuf[..recvLen]) && accepted == old(accepted)
    {
      hide Poll;
      more := [];
      for i := 0 to |polls|
        invariant Valid() && state == FinWait1 && ends == old(ends) && seqNum == old(seqNum)
        invariant wire == old(wire) + more && Quiet(more)
        invariant recvBuf[..recvLen] == old(recvBuf[..recvLen]) && accepted == old(accepted)
      {
        PollFacts(View(), polls[i]);
        FinWaitTakesNothing(View(), polls[i]);
        more := more + Poll(View(), polls[i]).out;
        PollOnce(polls[i]);
        if state == TimeWait || state == Closed {
          return;
        }
      }
    }

    // tcp_close. One final segment goes out, whatever comes back; data that was not read stays.
    method Close(polls: seq<Option<Packet>>) returns (ghost more: seq<Segment>)
      requires Valid()
      modifies this`state, this`seqNum, this`ackNum, this`wire, this`recvLen, this`accepted, recvBuf
      ensures Valid() && ends == old(ends) && Quiet(more)
      ensures old(state) != Established ==> View() == old(View()) && wire == old(wire)
      ensures old(state) == Established ==>
                && state == Closed && seqNum == Plus(old(seqNum), 1)
                && wire == old(wire) + [Segment(old(seqNum), old(ackNum), FIN + ACK, [])] + more
                && recvBuf[..recvLen] == old(recvBuf[..recvLen])
    {
      more := [];
      if state != Established {
        return;
      }
      var finSeq := seqNum;
      state := FinWait1;
      var _ := Transmit(FIN + ACK, []);
      seqNum := Plus(finSeq, 1);
      more := AwaitEnd(polls);
      state := Closed;
    }

    // The wait of tcp_recv for data; false when the connection has ended without any.
    method AwaitData(polls: seq<Option<Packet>>) returns (open: bool, ghost k: nat)
      requires Valid() && polls != []
      modifies this`state, this`seqNum, this`ackNum, this`wire, this`recvLen, this`accepted, recvBuf
      ensures Valid() && k <= |polls| && View() == After(old(View()), polls[..k])
      ensures old(recvLen) > 0 ==> k == 0
      ensures open || (recvLen == 0 && state != Established && state != FinWait1)
      ensures open && recvLen == 0 ==> k == |polls|
    {
      hide Poll;
      ghost var c := View();
      k := 0;
      assert polls[..0] == [];
      for i := 0 to |polls|
        invariant k == i && Valid() && View() == After(c, polls[..i]) && (i > 0 ==> recvLen == 0 && old(recvLen) == 0)
      {
        if recvLen > 0 {
          return true, k;
        }
        PollFacts(View(), polls[i]);
        PollOnce(polls[i]);
        k := i + 1;
        assert polls[..i + 1][..i] == polls[..i];
        if state != Established && state != FinWait1 {
          return recvLen > 0, k;
        }
        if recvLen > 0 {
          return true, k;
        }
      }
      open := true;
    }

    // The copies at the end of tcp_recv.
    method Take(buf: array<byte>, len: nat) returns (n: nat)
      requires Valid() && recvLen > 0 && 0 < len <= buf.Length && buf != recvBuf
      modifies this`recvLen, this`returned, recvBuf, buf
      ensures Valid() && n == Min(len, old(recvLen)) && recvLen == old(recvLen) - n
      ensures buf[..n] == old(recvBuf[..recvLen])[..n] && recvBuf[..recvLen] == old(recvBuf[..recvLen])[n..]
      ensures returned == old(returned) + buf[..n]
    {
      n := recvLen;
      if n > len {
        n := len;
      }
      ghost var pending, before := recvBuf[..recvLen], returned;
      CopyOut(buf, n, pending);
      Shift(n, pending);
      returned := returned + buf[..n];
      Split(before, pending, n);
    }

    method CopyOut(buf: array<byte>, n: nat, ghost pending: seq<byte>)
      requires n <= buf.Length && n <= recvLen <= recvBuf.Length && buf != recvBuf && pending == recvBuf[..recvLen]
      modifies buf
      ensures buf[..n] == pending[..n]
    {
      for i := 0 to n
        invariant buf[..i] == pending[..i]
      {
        buf[i] := recvBuf[i];
      }
    }

    // tcp_recv into a caller's buffer: the oldest pending bytes, and the rest stays pending
    method Recv(buf: array<byte>, len: nat, polls: seq<Option<Packet>>) returns (r: int, ghost k: nat)
      requires Valid() && len <= buf.Length && polls != [] && buf != recvBuf
      modifies this`state, this`seqNum, this`ackNum, this`wire, this`recvLen, this`accepted, this`returned, recvBuf, buf
      ensures Valid() && k <= |polls| && -1 <= r <= len
      ensures var c := After(old(View()), polls[..k]);
              && (len == 0 ==> k == 0 && r == 0)
              && (r == -1 ==> c.recv == [] && c.state != Established && c.state != FinWait1)
              && (r == 0 && len > 0 ==> c.recv == [] && k == |polls|)
              && (r > 0 ==> r == Min(len, |c.recv|) && buf[..r] == c.recv[..r])
              && View() == c.(recv := c.recv[if r > 0 then r else 0..])
      ensures returned == old(returned) + if r > 0 then buf[..r] else []
    {
      hide Poll, After;
      assert polls[..0] == [];
      NoPolls(View());
      if len == 0 {
        return 0, 0;
      }
      var open;
      open, k := AwaitData(polls);
      if !open {
        return -1, k;
      }
      if recvLen == 0 {
        return 0, k;
      }
      r := Take(buf, len);
    }

    // What is left moves to the front of the buffer.
    method Shift(n: nat, ghost pending: seq<byte>)
      requires recvBuf.Length == RECV_SIZE && 0 < n <= recvLen <= RECV_SIZE && pending == recvBuf[..recvLen]
      modifies this`recvLen, recvBuf
      ensures recvLen == old(recvLen) - n && recvBuf[..recvLen] == pending[n..]
    {
      if n < recvLen {
        var remaining := recvLen - n;
        for i := 0 to remaining
          invariant recvBuf[..i] == pending[n..n + i]
          invariant forall x :: n + i <= x < |pending| ==> recvBuf[x] == pending[x]
        {
          recvBuf[i] := recvBuf[n + i];
        }
        recvLen := remaining;
      } else {
        recvLen := 0;
      }
    }
  }

  lemma {:induction false} FinWaitTakesNothing(c: Conn, m: Option<Packet>)
    requires c.state == FinWait1
    ensures Poll(c, m).accepted == [] && Poll(c, m).conn.recv == c.recv
    ensures Poll(c, m).conn.state in {FinWait1, TimeWait}
  {
    hide Parse, Has, Plus;
  }

  lemma {:induction false} Split(a: seq<byte>, b: seq<byte>, n: nat)
    requires n <= |b|
    ensures a + b[..n] + b[n..] == a + b
  {
    assert b[..n] + b[n..] == b;
  }

  lemma NoPolls(c: Conn)
    ensures After(c, []) == c
  {
  }

  lemma NothingOut(data: seq<byte>, s0: u32)
    ensures Labelled([], data, s0) && Covers([], data, s0, 0) && Plus(s0, 0) == s0
  {
  }

  lemma PlusPlus(a: u32, n: nat, m: nat)
    ensures Plus(Plus(a, n), m) == Plus(a, n + m)
  {
  }

  // ---------------------------------------------------------------- data copies

  function DataCopies(out: seq<Segment>): (n: nat) {
    if out == [] then 0 else DataCopies(out[..|out| - 1]) + if out[|out| - 1].payload != [] then 1 else 0
  }

  lemma NoCopies()
    ensures DataCopies([]) == 0
  {
  }

  lemma {:induction false} QuietCopies(out: seq<Segment>, more: seq<Segment>)
    requires Quiet(more)
    ensures DataCopies(out + more) == DataCopies(out)
    decreases |more|
  {
    if more == [] {
      assert out + more == out;
    } else {
      var m := |more| - 1;
      QuietCopies(out, more[..m]);
      assert (out + more)[..|out| + m] == out + more[..m];
    }
  }

  lemma {:induction false} OneCopy(out: seq<Segment>, s: Segment, more: seq<Segment>)
    requires Quiet(more) && s.payload != []
    ensures DataCopies(out + [s] + more) == DataCopies(out) + 1
  {
    QuietCopies(out + [s], more);
    assert (out + [s])[..|out|] == out;
  }

  // ---------------------------------------------------------------- SYN copies

  ghost predicate SynCopies(out: seq<Segment>, s0: u32) {
    forall i :: 0 <= i < |out| ==>
      out[i].payload == [] && (out[i].flags == ACK || (out[i].flags == SYN && out[i].seqNum == s0))
  }

  function Syns(out: seq<Segment>): (n: nat) {
    if out == [] then 0 else Syns(out[..|out| - 1]) + if Has(out[|out| - 1].flags, SYN) then 1 else 0
  }

  lemma {:induction false} QuietSyns(out: seq<Segment>, more: seq<Segment>)
    requires Quiet(more)
    ensures Syns(out + more) == Syns(out) && Syns([]) == 0
    decreases |more|
  {
    hide Has;
    if more == [] {
      assert out + more == out;
    } else {
      var m := |more| - 1;
      QuietSyns(out, more[..m]);
      assert (out + more)[..|out| + m] == out + more[..m];
      AckIsNoSyn();
    }
  }

  lemma AckIsNoSyn()
    ensures !Has(ACK, SYN)
  {
  }

  lemma GoesOn(a: seq<Segment>, b: seq<Segment>, c: seq<Segment>)
    ensures a + b + c == a + (b + c)
  {
  }

  lemma NoSyns(s0: u32)
    ensures Syns([]) == 0 && SynCopies([], s0)
  {
  }

  lemma {:induction false} OneSyn(out: seq<Segment>, syn: Segment, more: seq<Segment>)
    requires SynCopies(out, syn.seqNum) && Quiet(more) && syn.flags == SYN && syn.payload == []
    ensures Syns(out + ([syn] + more)) == Syns(out) + 1 && SynCopies(out + ([syn] + more), syn.seqNum)
  {
    assert out + ([syn] + more) == out + [syn] + more;
    QuietSyns(out + [syn], more);
    assert (out + [syn])[..|out|] == out;
    assert Has(SYN, SYN);
  }

  lemma FewerCovered(out: seq<Segment>, data: seq<byte>, s0: u32, n: nat, m: nat)
    requires Covers(out, data, s0, n) && m <= n
    ensures Covers(out, data, s0, m)
  {
  }

  lemma {:induction false} NoDataOutside(c: Conn, s: Segment)
    ensures c.state != Established ==> Handle(c, s).accepted == []
  {
  }
}

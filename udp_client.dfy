/**
 * UDPClient as the Java code runs it: static fields updated in place by the
 * methods of one object, the loops of sendData and waitForAck as `while` loops.
 * Each method is proved to have exactly the effect of the function of
 * SenderSpec that describes it; what those functions promise is proved there.
 *
 * The socket is two sequences: `wire`, the packets handed to the network (each
 * travels as the text Framing.Encode gives it), and `inbox`, the datagrams the
 * network will deliver. Scheduling a timer appends its sequence number to
 * `armed`; OnTimer is the body a fired timer runs.
 */
module UdpClient {
  import opened JavaLib
  import opened Framing
  import opened Congestion
  import opened Chunking
  import opened SenderSpec

  class Client {
    var cwnd: int
    var threshold: int
    var sequenceNumber: int
    var sentPackets: map<int, string>
    var ackedPackets: set<int>
    var wire: seq<Frame>
    var armed: seq<int>
    var inbox: seq<string>
    const crc32: string -> Crc
    const md5Hex: string -> string

    /** The client's fields as a value. */
    function State(): ClientState
      reads this
    {
      ClientState(Window(cwnd, threshold), sequenceNumber, sentPackets, ackedPackets, wire, armed, inbox)
    }

    /** The static initialisers: cwnd = 1, threshold = 64, sequenceNumber = 2, empty tables. */
    constructor (inbox: seq<string>, crc32: string -> Crc, md5Hex: string -> string)
      ensures State() == Start(inbox)
      ensures this.crc32 == crc32 && this.md5Hex == md5Hex
    {
      cwnd := INITIAL_CWND;
      threshold := INITIAL_THRESHOLD;
      sequenceNumber := FIRST_DATA_SEQ;
      sentPackets := map[];
      ackedPackets := {};
      wire := [];
      armed := [];
      this.inbox := inbox;
      this.crc32 := crc32;
      this.md5Hex := md5Hex;
    }

    method ManageCongestionControl()
      modifies this
      ensures State() == old(State()).(window := OnAck(old(State()).window))
    {
      if cwnd < threshold {
        cwnd := Wrap32(cwnd * 2);
      } else {
        cwnd := Wrap32(cwnd + 1);
      }
    }

    /** sendPacket when the send is not lost: send, record in sentPackets, scheduleTimeout. */
    method SendPacket(content: string, seqNum: int)
      modifies this
      ensures State() == Transmit(old(State()), content, seqNum, crc32)
    {
      var packet := Frame(seqNum, crc32(content), content);
      wire := wire + [packet];
      sentPackets := sentPackets[seqNum := content];
      armed := armed + [seqNum];
    }

    /** The body of waitForAck's loop once a datagram has been received; false: the exception. */
    method HandleResponse(datagram: string) returns (ok: bool)
      modifies this
      ensures ok == SenderSpec.HandleResponse(old(State()), datagram).Some?
      ensures ok ==> State() == SenderSpec.HandleResponse(old(State()), datagram).value
      ensures !ok ==> State() == old(State())
    {
      var response := ReceivedText(datagram);
      if StartsWith(response, "ACK") {
        var parsed := ParseAck(response);
        if parsed.Malformed? {
          return false;
        }
        var ackNum := parsed.n;
        ackedPackets := ackedPackets + {ackNum};
        sentPackets := sentPackets - {ackNum};
        ManageCongestionControl();
      }
      return true;
    }

    method WaitForAck() returns (status: Status)
      modifies this
      ensures Run(State(), status) == SenderSpec.WaitForAck(old(State()))
    {
      while |ackedPackets| < |sentPackets|
        invariant SenderSpec.WaitForAck(State()) == SenderSpec.WaitForAck(old(State()))
        decreases |inbox|
      {
        if inbox == [] {
          return Blocked;
        }
        ghost var before := State();
        var datagram := inbox[0];
        inbox := inbox[1..];
        ghost var received := State();
        assert received == before.(inbox := before.inbox[1..]);
        var ok := HandleResponse(datagram);
        if !ok {
          return Crashed;
        }
      }
      return Completed;
    }

    /** The body of the TimerTask scheduled for seqNum. */
    method OnTimer(seqNum: int)
      modifies this
      ensures State() == Timeout(old(State()), seqNum, crc32)
    {
      if seqNum !in ackedPackets && seqNum in sentPackets {
        cwnd := 1;
        threshold := Congestion.Max(HalfTowardZero(threshold), MIN_THRESHOLD);
        SendPacket(sentPackets[seqNum], seqNum);
      }
    }

    /** sendData's inner loop: pad and send chunks while the window has room; returns the new start. */
    method FillWindow(fileData: string, start: nat) returns (next: nat)
      modifies this
      ensures (State(), next) == SenderSpec.FillWindow(old(State()), fileData, start, crc32)
    {
      next := start;
      while next < |fileData| && |sentPackets| < cwnd
        invariant SenderSpec.FillWindow(State(), fileData, next, crc32) == SenderSpec.FillWindow(old(State()), fileData, start, crc32)
        decreases Remaining(fileData, next)
      {
        ghost var before := State();
        var end := Min(next + PACKET_SIZE, |fileData|);
        var packetData := fileData[next..end];
        if |packetData| < PACKET_SIZE {
          packetData := packetData + Fill(PACKET_SIZE - |packetData|);
        }
        assert packetData == Chunk(fileData, next);
        var seqNum := sequenceNumber;
        sequenceNumber := sequenceNumber + 1;
        SendPacket(packetData, seqNum);
        assert State() == SendChunk(before, fileData, next, crc32);
        next := next + PACKET_SIZE;
      }
    }

    method SendData(fileData: string) returns (status: Status)
      modifies this
      ensures Run(State(), status) == SendDataFrom(old(State()), fileData, 0, crc32)
    {
      var start: nat := 0;
      while start < |fileData|
        invariant SendDataFrom(State(), fileData, start, crc32) == SendDataFrom(old(State()), fileData, 0, crc32)
        decreases |inbox|, Remaining(fileData, start)
      {
        ghost var before := State();
        var first := start;
        var pending := |inbox|;
        start := FillWindow(fileData, start);
        ghost var filled := State();
        status := WaitForAck();
        WaitForAckFrame(filled);
        if status != Completed {
          return;
        }
        if start == first && |inbox| == pending {
          status := Spinning;
          return;
        }
      }
      status := Completed;
    }

    method StartHandShaking(fileName: string, fileData: string) returns (status: Status)
      modifies this
      ensures Run(State(), status) == HandShake(old(State()), fileName, fileData, crc32, md5Hex)
    {
      ghost var initial := State();
      SendPacket("SYN", SYN_SEQ);
      status := WaitForAck();
      ghost var w1 := SendAndWait(initial, "SYN", SYN_SEQ, crc32);
      assert Run(State(), status) == w1;
      if status != Completed {
        return;
      }
      SendPacket(fileName, NAME_SEQ);
      status := WaitForAck();
      ghost var w2 := SendAndWait(w1.st, fileName, NAME_SEQ, crc32);
      assert Run(State(), status) == w2;
      if status != Completed {
        return;
      }
      status := SendData(fileData);
      ghost var w3 := SendDataFrom(w2.st, fileData, 0, crc32);
      assert Run(State(), status) == w3;
      if status != Completed {
        return;
      }
      assert HandShake(initial, fileName, fileData, crc32, md5Hex) == SenderSpec.Finish(w3.st, fileData, crc32, md5Hex);
      status := Finish(fileData);
    }

    /** The end of startHandShaking: the MD5 packet, then FIN, each under sequenceNumber.getAndIncrement(). */
    method Finish(fileData: string) returns (status: Status)
      modifies this
      ensures Run(State(), status) == SenderSpec.Finish(old(State()), fileData, crc32, md5Hex)
    {
      ghost var sent := State();
      var fileHash := md5Hex(fileData);
      var seqNum := sequenceNumber;
      sequenceNumber := sequenceNumber + 1;
      SendPacket("HASH:" + fileHash, seqNum);
      ghost var hash := State();
      ghost var w := SendNextAndWait(sent, HashContent(fileData, md5Hex), crc32);
      assert hash == Transmit(sent.(nextSeq := sent.nextSeq + 1), HashContent(fileData, md5Hex), sent.nextSeq, crc32);
      assert SenderSpec.WaitForAck(hash) == w;
      status := WaitForAck();
      if status != Completed {
        return;
      }
      seqNum := sequenceNumber;
      sequenceNumber := sequenceNumber + 1;
      SendPacket("FIN", seqNum);
      ghost var fin := State();
      assert fin == Transmit(w.st.(nextSeq := w.st.nextSeq + 1), "FIN", w.st.nextSeq, crc32);
      assert SenderSpec.WaitForAck(fin) == SendNextAndWait(w.st, "FIN", crc32);
      status := WaitForAck();
    }
  }
}

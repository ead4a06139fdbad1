/**
 * UDPServer as the Java code runs it: the variables of main updated in place
 * by one pass of its loop per datagram, and the loop itself, which stops at
 * FIN or at an exception. Each method is proved to have exactly the effect of
 * the function of ReceiverSpec that describes it.
 *
 * The socket is the sequence of datagrams the method is given and `outbox`,
 * the messages sent back (ACKs and CLOSE), oldest first.
 */
module UdpServer {
  import opened JavaLib
  import opened Framing
  import opened ReceiverSpec

  class Server {
    var expectedSequenceNumber: int
    var fileContent: string
    var originalFileName: Option<string>
    var expectedHash: Option<string>
    var outbox: seq<string>
    const crc32: string -> Crc
    const md5Hex: string -> string

    /** The loop variables as a value. */
    function State(): ServerState
      reads this
    {
      ServerState(expectedSequenceNumber, fileContent, originalFileName, expectedHash)
    }

    /** The state main starts its loop in: counter 0, empty content, no name, no hash. */
    constructor (crc32: string -> Crc, md5Hex: string -> string)
      ensures State() == ReceiverSpec.Initial() && outbox == []
      ensures this.crc32 == crc32 && this.md5Hex == md5Hex
    {
      expectedSequenceNumber := 0;
      fileContent := "";
      originalFileName := None;
      expectedHash := None;
      outbox := [];
      this.crc32 := crc32;
      this.md5Hex := md5Hex;
    }

    /** sendAck(n): the message "ACK " + n. */
    method SendAck(n: int)
      modifies this
      ensures outbox == old(outbox) + [AckText(n)]
      ensures State() == old(State())
    {
      outbox := outbox + ["ACK " + IntText(n)];
    }

    /** One pass of main's loop, short of the break after FIN. */
    method HandleDatagram(datagram: string) returns (step: Step)
      modifies this
      ensures step == Handle(old(State()), datagram, crc32, md5Hex)
      ensures State() == StateAfter(old(State()), step)
      ensures outbox == old(outbox) + Reply(step)
    {
      var message := Message(datagram);
      var decoded := Decode(message);
      if decoded.None? {
        return Crash;
      }
      var sequenceNumber := decoded.value.seqNum;
      var receivedCrc := decoded.value.crc;
      var content := decoded.value.content;
      if sequenceNumber == expectedSequenceNumber && crc32(content) == receivedCrc {
        step := Process(decoded.value);
      } else {
        step := Discard;
      }
    }

    /** The branches main takes for an accepted packet. */
    method Process(f: Frame) returns (step: Step)
      modifies this
      ensures step == Effect(old(State()), f, md5Hex)
      ensures State() == StateAfter(old(State()), step)
      ensures outbox == old(outbox) + Reply(step)
    {
      var sequenceNumber := f.seqNum;
      var content := f.content;
      var ack := Inc32(sequenceNumber);
      var kind := Classify(sequenceNumber, content);
      assert Effect(State(), f, md5Hex) == EffectOf(State(), f, kind, md5Hex);
      match kind {
        case SynPacket =>
          originalFileName := None;
          fileContent := "";
        case NamePacket =>
          originalFileName := Some(Trim(content));
        case HashPacket =>
          var field := HashField(content);
          if field.None? {
            return Crash;
          }
          expectedHash := field;
          SendAck(ack);
          expectedSequenceNumber := Inc32(expectedSequenceNumber);
          return Accept(State(), ack, Some(md5Hex(fileContent) == field.value), false);
        case FinPacket =>
          SendAck(ack);
          outbox := outbox + [CLOSE];
          return Accept(State(), ack, None, true);
        case DataPacket =>
          fileContent := fileContent + Trim(content);
      }
      SendAck(ack);
      expectedSequenceNumber := Inc32(expectedSequenceNumber);
      step := Accept(State(), ack, None, false);
    }

    /** main's while (true) loop over the datagrams delivered, until FIN, an exception or the last datagram. */
    method Serve(datagrams: seq<string>) returns (end: End)
      modifies this
      ensures Served(State(), outbox, end) == ReceiverSpec.Serve(old(State()), old(outbox), datagrams, crc32, md5Hex)
    {
      var pending := datagrams;
      while pending != []
        invariant ReceiverSpec.Serve(State(), outbox, pending, crc32, md5Hex)
               == ReceiverSpec.Serve(old(State()), old(outbox), datagrams, crc32, md5Hex)
        decreases |pending|
      {
        ghost var before, sent := State(), outbox;
        var step := HandleDatagram(pending[0]);
        assert ReceiverSpec.Serve(before, sent, pending, crc32, md5Hex) ==
          if step.Crash? then Served(before, sent, Crashed)
          else if step.Accept? && step.fin then Served(before, outbox, Closed(before.fileContent, before.fileName))
          else ReceiverSpec.Serve(State(), outbox, pending[1..], crc32, md5Hex);
        if step.Crash? {
          return Crashed;
        }
        if step.Accept? && step.fin {
          return Closed(fileContent, originalFileName);
        }
        pending := pending[1..];
      }
      return Listening;
    }
  }
}

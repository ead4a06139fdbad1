/**
 * The receiver (UDPServer) as values: the four local variables of its main
 * loop, the step one datagram makes, and the whole loop over a sequence of
 * datagrams. The class UdpServer.Server runs the same loop in place.
 *
 * CRC-32 and MD5-as-hex are function parameters; the socket is the sequence of
 * datagrams delivered, each a string, and the sequence of messages sent back.
 */
module ReceiverSpec {
  import opened JavaLib
  import opened Framing

  /** The variables the server's main loop updates. */
  datatype ServerState = ServerState(
    expected: int,                // the static int expectedSequenceNumber
    fileContent: string,          // the StringBuilder fileContent
    fileName: Option<string>,     // originalFileName, None for null
    expectedHash: Option<string>) // expectedHash, None for null

  function Initial(): ServerState
  {
    ServerState(0, "", None, None)
  }

  const CLOSE: string := "CLOSE"

  /** The text main reads: at most the 1024 bytes its receive buffer holds. */
  function Message(datagram: string): (m: string)
    ensures |m| <= RECEIVE_BUFFER && m <= datagram
    ensures |datagram| <= RECEIVE_BUFFER ==> m == datagram
    ensures |datagram| > RECEIVE_BUFFER ==> m == datagram[..RECEIVE_BUFFER]
  {
    if |datagram| <= RECEIVE_BUFFER then datagram else datagram[..RECEIVE_BUFFER]
  }

  /** verifyCRC: the CRC of the content equals the one the packet carries. */
  predicate CrcMatches(content: string, receivedCrc: int, crc32: string -> Crc)
  {
    crc32(content) == receivedCrc
  }

  /** The acceptance test of the main loop: in sequence and CRC-valid. */
  predicate Accepts(st: ServerState, f: Frame, crc32: string -> Crc)
  {
    f.seqNum == st.expected && CrcMatches(f.content, f.crc, crc32)
  }

  predicate AllSeparators(s: string)
  {
    forall k :: 0 <= k < |s| ==> s[k] == ':'
  }

  /**
   * content.split(":")[1] for a content that starts with "HASH:": the text after
   * "HASH:" up to the next ':'. split drops trailing empty fields, so when what
   * follows "HASH:" is only separators there is no field 1 and Java throws (None).
   */
  function HashField(content: string): (r: Option<string>)
    requires StartsWith(content, "HASH:")
    ensures r.None? <==> AllSeparators(content[5..])
    ensures r.Some? ==> ':' !in r.value && r.value <= content[5..]
    ensures r.Some? ==> |r.value| == |content[5..]| || content[5..][|r.value|] == ':'
  {
    var rest := content[5..];
    if AllSeparators(rest) then None
    else
      match IndexOf(rest, ':')
      case None => Some(rest)
      case Some(j) => Some(rest[..j])
  }

  /**
   * The effect of one datagram. Crash: an exception leaves main (a field that is
   * not a number, a missing ':' or a HASH packet with no digest field). Discard:
   * out of sequence or bad CRC, so nothing changes and nothing is sent.
   * Accept: the new state, the number acknowledged, the logged MD5 verdict of a
   * HASH packet, and whether it was FIN (which ends the loop).
   */
  datatype Step = Crash | Discard | Accept(next: ServerState, ack: int, hashVerdict: Option<bool>, fin: bool)

  /** Which branch of the main loop an accepted packet takes, tested in the order the code tests them. */
  datatype Kind = SynPacket | NamePacket | HashPacket | FinPacket | DataPacket

  function Classify(seqNum: int, content: string): (k: Kind)
    ensures k == HashPacket ==> StartsWith(content, "HASH:")
    ensures k == NamePacket ==> seqNum == 1
  {
    if Trim(content) == "SYN" then SynPacket
    else if seqNum == 1 then NamePacket
    else if StartsWith(content, "HASH:") then HashPacket
    else if Trim(content) == "FIN" then FinPacket
    else DataPacket
  }

  /** What an accepted packet does. */
  function Effect(st: ServerState, f: Frame, md5Hex: string -> string): (r: Step)
    ensures r.Accept? && r.fin ==> r.next == st
  {
    EffectOf(st, f, Classify(f.seqNum, f.content), md5Hex)
  }

  /** What an accepted packet does once its branch is known. */
  function EffectOf(st: ServerState, f: Frame, kind: Kind, md5Hex: string -> string): (r: Step)
    requires kind == Classify(f.seqNum, f.content)
    ensures r.Accept? && r.fin ==> r.next == st
  {
    var ack := Inc32(f.seqNum);
    var advanced := Inc32(st.expected);
    match kind
    case SynPacket => Accept(st.(fileName := None, fileContent := "", expected := advanced), ack, None, false)
    case NamePacket => Accept(st.(fileName := Some(Trim(f.content)), expected := advanced), ack, None, false)
    case HashPacket =>
      (match HashField(f.content)
       case None => Crash
       case Some(h) =>
         Accept(st.(expectedHash := Some(h), expected := advanced), ack, Some(md5Hex(st.fileContent) == h), false))
    case FinPacket => Accept(st, ack, None, true)
    case DataPacket =>
      Accept(st.(fileContent := st.fileContent + Trim(f.content), expected := advanced), ack, None, false)
  }

  /** One pass of the server's main loop. */
  function Handle(st: ServerState, datagram: string, crc32: string -> Crc, md5Hex: string -> string): (r: Step)
    ensures r.Accept? && r.fin ==> r.next == st
  {
    match Decode(Message(datagram))
    case None => Crash
    case Some(f) => if Accepts(st, f, crc32) then Effect(st, f, md5Hex) else Discard
  }

  /** How the main loop ends: still waiting, saved the file after FIN (content, name), or an exception. */
  datatype End = Listening | Closed(content: string, name: Option<string>) | Crashed

  /** The final state, every message sent back so far, in order, and how the loop ended. */
  datatype Served = Served(st: ServerState, outbox: seq<string>, end: End)

  /** The state after a step: the new state of an accepted packet, the old one otherwise. */
  function StateAfter(st: ServerState, step: Step): ServerState
  {
    if step.Accept? then step.next else st
  }

  /** What a step sends back: "ACK <n>" for an accepted packet, then "CLOSE" after FIN. */
  function Reply(step: Step): seq<string>
  {
    if !step.Accept? then []
    else if step.fin then [AckText(step.ack), CLOSE]
    else [AckText(step.ack)]
  }

  /** The server's main loop over the datagrams delivered to it, in order, after sending `sent`. */
  function Serve(st: ServerState, sent: seq<string>, datagrams: seq<string>,
                 crc32: string -> Crc, md5Hex: string -> string): Served
    decreases |datagrams|
  {
    if datagrams == [] then Served(st, sent, Listening)
    else
      var step := Handle(st, datagrams[0], crc32, md5Hex);
      if step.Crash? then Served(st, sent, Crashed)
      else if step.Accept? && step.fin then Served(st, sent + Reply(step), Closed(st.fileContent, st.fileName))
      else Serve(StateAfter(st, step), sent + Reply(step), datagrams[1..], crc32, md5Hex)
  }

  // ----- properties of one step -----

  /**
   * A packet is accepted exactly when it is in sequence and its CRC matches;
   * a decodable packet that is not has no effect at all.
   */
  lemma AcceptsExactly(st: ServerState, datagram: string, crc32: string -> Crc, md5Hex: string -> string)
    requires Decode(Message(datagram)).Some?
    ensures Handle(st, datagram, crc32, md5Hex).Discard? <==> !Accepts(st, Decode(Message(datagram)).value, crc32)
    ensures Handle(st, datagram, crc32, md5Hex).Accept? ==> Accepts(st, Decode(Message(datagram)).value, crc32)
  {
  }

  /** A discarded datagram changes no state and sends nothing. */
  lemma DiscardChangesNothing(st: ServerState, sent: seq<string>, datagram: string, rest: seq<string>,
                              crc32: string -> Crc, md5Hex: string -> string)
    requires Handle(st, datagram, crc32, md5Hex).Discard?
    ensures Serve(st, sent, [datagram] + rest, crc32, md5Hex) == Serve(st, sent, rest, crc32, md5Hex)
  {
    assert ([datagram] + rest)[1..] == rest;
    assert sent + Reply(Discard) == sent;
  }

  /**
   * Every accepted packet is acknowledged with its sequence number plus one;
   * every accepted packet but FIN moves expectedSequenceNumber on by exactly
   * one; FIN changes no variable and ends the loop.
   */
  lemma AcceptedAckAndAdvance(st: ServerState, datagram: string, crc32: string -> Crc, md5Hex: string -> string)
    requires Handle(st, datagram, crc32, md5Hex).Accept?
    requires st.expected < INT_MAX
    ensures Decode(Message(datagram)).Some?
    ensures Handle(st, datagram, crc32, md5Hex).ack == Decode(Message(datagram)).value.seqNum + 1 == st.expected + 1
    ensures !Handle(st, datagram, crc32, md5Hex).fin ==> Handle(st, datagram, crc32, md5Hex).next.expected == st.expected + 1
    ensures Handle(st, datagram, crc32, md5Hex).fin ==>
      Handle(st, datagram, crc32, md5Hex).next == st && Trim(Decode(Message(datagram)).value.content) == "FIN"
  {
    var f := Decode(Message(datagram)).value;
    assert Handle(st, datagram, crc32, md5Hex) == Effect(st, f, md5Hex) && f.seqNum == st.expected;
    EffectAckAndAdvance(st, f, md5Hex);
  }

  /** AcceptedAckAndAdvance for the frame once decoded and accepted. */
  lemma EffectAckAndAdvance(st: ServerState, f: Frame, md5Hex: string -> string)
    requires Effect(st, f, md5Hex).Accept? && f.seqNum == st.expected < INT_MAX
    ensures Effect(st, f, md5Hex).ack == f.seqNum + 1
    ensures !Effect(st, f, md5Hex).fin ==> Effect(st, f, md5Hex).next.expected == st.expected + 1
    ensures Effect(st, f, md5Hex).fin ==> Trim(f.content) == "FIN"
  {
    EffectAdvances(st, f, md5Hex);
  }

  /**
   * A packet delivered again right after it was accepted is discarded: the
   * counter has moved past its sequence number. RedeliveredLater covers a copy
   * that arrives after other datagrams.
   */
  lemma RedeliveryIgnored(st: ServerState, datagram: string, crc32: string -> Crc, md5Hex: string -> string)
    requires Handle(st, datagram, crc32, md5Hex).Accept? && !Handle(st, datagram, crc32, md5Hex).fin
    ensures Handle(Handle(st, datagram, crc32, md5Hex).next, datagram, crc32, md5Hex) == Discard
  {
    var f := Decode(Message(datagram)).value;
    var next := Handle(st, datagram, crc32, md5Hex).next;
    EffectAdvances(st, f, md5Hex);
    assert next.expected != f.seqNum;
  }

  /**
   * Over any run of datagrams that stays below the int wrap, the counter never
   * moves back and moves on by at most one per datagram.
   */
  lemma {:induction false} ServeMonotone(st: ServerState, sent: seq<string>, ds: seq<string>,
                                         crc32: string -> Crc, md5Hex: string -> string)
    requires IsInt(st.expected) && st.expected + |ds| < INT_MAX
    ensures st.expected <= Serve(st, sent, ds, crc32, md5Hex).st.expected <= st.expected + |ds|
    decreases |ds|
  {
    if ds != [] {
      var step := Handle(st, ds[0], crc32, md5Hex);
      if step.Accept? && !step.fin {
        var f := Decode(Message(ds[0])).value;
        EffectAdvances(st, f, md5Hex);
        assert step.next.expected == st.expected + 1;
      }
      if !step.Crash? && !(step.Accept? && step.fin) {
        ServeMonotone(StateAfter(st, step), sent + Reply(step), ds[1..], crc32, md5Hex);
      }
    }
  }

  /**
   * A packet delivered again after it was accepted is discarded however many
   * other datagrams came between (a timer resend overtaken by later packets):
   * the counter has moved past its sequence number for good.
   */
  lemma RedeliveredLater(st: ServerState, datagram: string, sent: seq<string>, ds: seq<string>,
                         crc32: string -> Crc, md5Hex: string -> string)
    requires Handle(st, datagram, crc32, md5Hex).Accept? && !Handle(st, datagram, crc32, md5Hex).fin
    requires IsInt(st.expected) && st.expected + 1 + |ds| < INT_MAX
    ensures Handle(Serve(Handle(st, datagram, crc32, md5Hex).next, sent, ds, crc32, md5Hex).st,
                   datagram, crc32, md5Hex) == Discard
  {
    var f := Decode(Message(datagram)).value;
    var next := Handle(st, datagram, crc32, md5Hex).next;
    EffectAdvances(st, f, md5Hex);
    assert next.expected == f.seqNum + 1;
    ServeMonotone(next, sent, ds, crc32, md5Hex);
    var later := Serve(next, sent, ds, crc32, md5Hex).st;
    assert !Accepts(later, f, crc32);
  }

  /** Every accepted packet but FIN moves the counter on by one, in Java int arithmetic. */
  lemma EffectAdvances(st: ServerState, f: Frame, md5Hex: string -> string)
    requires Effect(st, f, md5Hex).Accept?
    ensures Effect(st, f, md5Hex).ack == Inc32(f.seqNum)
    ensures !Effect(st, f, md5Hex).fin ==> Effect(st, f, md5Hex).next.expected == Inc32(st.expected)
    ensures Effect(st, f, md5Hex).fin ==> Effect(st, f, md5Hex).next == st
    ensures Inc32(st.expected) != st.expected
  {
  }

  /** The decoded content of the packet `FrameText(seqNum, content, crc32)` as the server reads it. */
  lemma ServerDecodes(seqNum: int, content: string, crc32: string -> Crc)
    requires IsInt(seqNum) && |content| <= RECEIVE_BUFFER - 23
    ensures Decode(Message(FrameText(seqNum, content, crc32))) == Some(Frame(seqNum, crc32(content), content))
    ensures Accepts(ServerState(seqNum, "", None, None), Frame(seqNum, crc32(content), content), crc32)
  {
    FrameTextLength(seqNum, content, crc32);
    DecodeFrameText(seqNum, content, crc32);
  }

  /** A packet the client builds is at most 23 characters longer than its content. */
  lemma FrameTextLength(seqNum: int, content: string, crc32: string -> Crc)
    requires IsInt(seqNum)
    ensures |FrameText(seqNum, content, crc32)| <= |content| + 23
  {
    IntTextLength(seqNum);
    assert Pow10(10) == 10_000_000_000;
    NatTextLength(crc32(content), 10);
  }

  /**
   * A packet the client builds is handled by its branch when its number is the
   * expected one, and discarded otherwise: its CRC always matches.
   */
  lemma HandlePacket(st: ServerState, seqNum: int, content: string, crc32: string -> Crc, md5Hex: string -> string)
    requires IsInt(seqNum) && |content| <= RECEIVE_BUFFER - 23
    ensures Handle(st, FrameText(seqNum, content, crc32), crc32, md5Hex) ==
      if seqNum == st.expected then EffectOf(st, Packet(seqNum, content, crc32), Classify(seqNum, content), md5Hex)
      else Discard
  {
    ServerDecodes(seqNum, content, crc32);
  }

  /** An in-sequence SYN clears the name and the content, whatever its sequence number (the check comes first). */
  lemma SynResets(st: ServerState, content: string, crc32: string -> Crc, md5Hex: string -> string)
    requires IsInt(st.expected) && |content| <= RECEIVE_BUFFER - 23 && Trim(content) == "SYN"
    ensures Handle(st, FrameText(st.expected, content, crc32), crc32, md5Hex) ==
      Accept(ServerState(Inc32(st.expected), "", None, st.expectedHash), Inc32(st.expected), None, false)
  {
    HandlePacket(st, st.expected, content, crc32, md5Hex);
    assert Classify(st.expected, content) == SynPacket;
  }

  /** An in-sequence packet under number 1 that is not SYN sets the file name to its trimmed content. */
  lemma NameRecorded(st: ServerState, content: string, crc32: string -> Crc, md5Hex: string -> string)
    requires st.expected == 1 && |content| <= RECEIVE_BUFFER - 23 && Trim(content) != "SYN"
    ensures Handle(st, FrameText(1, content, crc32), crc32, md5Hex) ==
      Accept(st.(fileName := Some(Trim(content)), expected := 2), 2, None, false)
  {
    HandlePacket(st, 1, content, crc32, md5Hex);
    assert Classify(1, content) == NamePacket;
  }

  /**
   * An in-sequence "HASH:" packet stores the digest field and is acknowledged
   * whether or not the MD5 of the content so far matches it; the verdict is
   * only reported.
   */
  lemma HashRecorded(st: ServerState, digest: string, crc32: string -> Crc, md5Hex: string -> string)
    requires IsInt(st.expected) && st.expected != 1 && |digest| <= RECEIVE_BUFFER - 28
    requires digest != [] && ':' !in digest
    ensures Handle(st, FrameText(st.expected, "HASH:" + digest, crc32), crc32, md5Hex) ==
      Accept(st.(expectedHash := Some(digest), expected := Inc32(st.expected)),
             Inc32(st.expected), Some(md5Hex(st.fileContent) == digest), false)
  {
    var content := "HASH:" + digest;
    HandlePacket(st, st.expected, content, crc32, md5Hex);
    TrimKeepsFirst(content);
    assert Trim(content) != "SYN" by { assert Trim(content)[0] == 'H'; }
    assert StartsWith(content, "HASH:");
    assert Classify(st.expected, content) == HashPacket;
    assert content[5..] == digest;
    assert !AllSeparators(digest) by { assert digest[0] != ':'; }
    assert HashField(content) == Some(digest);
  }

  /** An in-sequence packet whose trimmed content is FIN (not under number 1) is acknowledged and ends the loop with the state unchanged. */
  lemma FinCloses(st: ServerState, content: string, crc32: string -> Crc, md5Hex: string -> string)
    requires IsInt(st.expected) && st.expected != 1 && |content| <= RECEIVE_BUFFER - 23 && Trim(content) == "FIN"
    ensures Handle(st, FrameText(st.expected, content, crc32), crc32, md5Hex) == Accept(st, Inc32(st.expected), None, true)
  {
    TrimmedFinIsNotHash(content);
    HandlePacket(st, st.expected, content, crc32, md5Hex);
    assert Classify(st.expected, content) == FinPacket;
  }

  /** A content that trims to FIN does not start with "HASH:", so the HASH branch does not take it. */
  lemma TrimmedFinIsNotHash(content: string)
    requires Trim(content) == "FIN"
    ensures !StartsWith(content, "HASH:")
  {
    if StartsWith(content, "HASH:") {
      assert content[..5][0] == 'H';
      TrimKeepsFirst(content);
      assert false;
    }
  }

  /** Content that is not a control word: not SYN or FIN once trimmed, and not starting with "HASH:". */
  predicate Ordinary(content: string)
  {
    Trim(content) != "SYN" && Trim(content) != "FIN" && !StartsWith(content, "HASH:")
  }

  /** An in-sequence ordinary packet (not under number 1) appends its trimmed content and nothing else. */
  lemma DataAppended(st: ServerState, content: string, crc32: string -> Crc, md5Hex: string -> string)
    requires IsInt(st.expected) && st.expected != 1 && |content| <= RECEIVE_BUFFER - 23 && Ordinary(content)
    ensures Handle(st, FrameText(st.expected, content, crc32), crc32, md5Hex) ==
      Accept(st.(fileContent := st.fileContent + Trim(content), expected := Inc32(st.expected)),
             Inc32(st.expected), None, false)
    ensures (st.fileContent + Trim(content))[..|st.fileContent|] == st.fileContent
  {
    HandlePacket(st, st.expected, content, crc32, md5Hex);
    assert Classify(st.expected, content) == DataPacket;
  }

  /** The datagram "abc:123:data" makes the server crash, not discard it. */
  lemma AbcCrashesServer(st: ServerState, crc32: string -> Crc, md5Hex: string -> string)
    ensures Handle(st, "abc:123:data", crc32, md5Hex) == Crash
  {
    DecodeRejectsAbc();
  }
}

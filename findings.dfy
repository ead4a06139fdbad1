/**
 * Two places where the code does not do what the protocol means it to do,
 * each shown on the model of the code as written and paired with a corrected
 * definition that has the intended property.
 *
 * 1. The server acknowledges the packet numbered s with "ACK s+1", but the client
 *    marks the number it reads as acknowledged, so s itself is never acknowledged.
 * 2. The server trims every data payload, so white space the file has at the
 *    end of a ten-byte piece is lost along with the filler.
 */
module Findings {
  import opened JavaLib
  import opened Framing
  import opened Congestion
  import opened Chunking
  import opened SenderSpec
  import opened Transfer

  // ----- 1. the acknowledged number is one past the packet's -----

  /**
   * As written: the server's answer "ACK s+1" to packet s leaves packet s
   * unacknowledged and still in sentPackets, so its timer stays due.
   */
  lemma AckOfNextLeavesTimerDue(st: ClientState, s: int)
    requires IsInt(s + 1) && TimerDue(st, s)
    ensures HandleResponse(st, AckText(s + 1)).Some?
    ensures TimerDue(HandleResponse(st, AckText(s + 1)).value, s)
  {
    ParseAckText(s + 1);
  }

  /**
   * As written, on the first exchange: SYN goes out under 0 and the server's
   * "ACK 1" arrives. waitForAck returns, because one number is acknowledged and
   * one packet is in the table, yet the SYN timer is still due: when it fires it
   * resets the window to one packet, halves the threshold and sends SYN again.
   */
  lemma SynTimerFiresAfterAck(crc32: string -> Crc)
    ensures var w := SendAndWait(Start([AckText(1)]), "SYN", SYN_SEQ, crc32);
      && w.status == Completed
      && w.st.acked == {1} && SYN_SEQ in w.st.sent
      && TimerDue(w.st, SYN_SEQ)
      && Timeout(w.st, SYN_SEQ, crc32).window == Window(1, 32)
      && Timeout(w.st, SYN_SEQ, crc32).wire == w.st.wire + [Packet(SYN_SEQ, "SYN", crc32)]
  {
    ParseAckText(1);
    SynAnsweredBy(AckText(1), crc32);
  }

  /** SynTimerFiresAfterAck for any datagram the client reads as "ACK 1". */
  lemma SynAnsweredBy(d: string, crc32: string -> Crc)
    requires ParseAck(ReceivedText(d)) == Ack(1)
    ensures var w := SendAndWait(Start([d]), "SYN", SYN_SEQ, crc32);
      && w.status == Completed
      && w.st.acked == {1} && SYN_SEQ in w.st.sent
      && TimerDue(w.st, SYN_SEQ)
      && Timeout(w.st, SYN_SEQ, crc32).window == Window(1, 32)
      && Timeout(w.st, SYN_SEQ, crc32).wire == w.st.wire + [Packet(SYN_SEQ, "SYN", crc32)]
  {
    var st0 := Transmit(Start([d]), "SYN", SYN_SEQ, crc32);
    var st1 := st0.(inbox := []);
    assert st0.sent == map[SYN_SEQ := "SYN"] && st0.acked == {};
    assert st0.inbox == [d] && st0.inbox[1..] == [];
    HandleResponseEffect(st1, d);
    var st2 := HandleResponse(st1, d).value;
    assert st2.acked == {1};
    assert st2.sent.Keys == {SYN_SEQ};
    assert WaitForAck(st0) == WaitForAck(st2);
    assert st2.window == Window(2, 64);
    TimeoutEffect(st2, SYN_SEQ, crc32);
  }

  /**
   * Corrected: "ACK n" acknowledges the packet numbered n - 1, the one the
   * server answered with it.
   */
  function HandleResponseCorrected(st: ClientState, datagram: string): (r: Option<ClientState>)
    ensures r.Some? ==> OnlyAcks(st, r.value) && r.value.inbox == st.inbox
    ensures r.None? <==> ParseAck(ReceivedText(datagram)).Malformed?
  {
    match ParseAck(ReceivedText(datagram))
    case NotAck => Some(st)
    case Malformed => None
    case Ack(n) => Some(st.(acked := st.acked + {n - 1}, sent := st.sent - {n - 1}, window := OnAck(st.window)))
  }

  /**
   * With the correction, the answer to packet s stops exactly the timer of s:
   * s is acknowledged and out of the table, and every other timer is as due as
   * it was before.
   */
  lemma AckOfNextClearsTimer(st: ClientState, s: int)
    requires IsInt(s + 1)
    ensures HandleResponseCorrected(st, AckText(s + 1)).Some?
    ensures var r := HandleResponseCorrected(st, AckText(s + 1)).value;
      && s in r.acked && s !in r.sent && !TimerDue(r, s)
      && (forall k :: k != s ==> (TimerDue(r, k) <==> TimerDue(st, k)))
  {
    ParseAckText(s + 1);
  }

  // ----- 2. white space at the end of a piece is lost -----

  /**
   * As written: a file "HELLO" followed by a newline travels as one payload,
   * the newline and four filler spaces after the text, and the server trims
   * the newline away with the filler.
   */
  lemma TrailingNewlineLost()
    ensures Chunks("HELLO\n") == ["HELLO\n    "]
    ensures Stored("HELLO\n") == "HELLO"
    ensures Stored("HELLO\n") != "HELLO\n"
  {
    var d := "HELLO\n";
    assert d[6..] == [];
    assert Chunks(d) == [Chunk(d, 0)] + Chunks([]);
    assert Piece(d, 0) == d;
    assert Fill(4) == "    ";
    assert Chunk(d, 0) == "HELLO\n    ";
    assert "HELLO\n    " == "HELLO" + "\n    ";
    TrimDropsWhiteTail("HELLO", "\n    ");
    assert ["HELLO\n    "][1..] == [];
    assert TrimAll(["HELLO\n    "]) == ["HELLO"];
    assert ["HELLO"][1..] == [];
    assert Flatten(["HELLO"]) == "HELLO" + [];
  }

  /** The number of filler characters the last payload of a file of length n carries. */
  function Padding(n: nat): (p: nat)
    ensures p < PACKET_SIZE && (n + p) % PACKET_SIZE == 0
  {
    if n % PACKET_SIZE == 0 then 0 else PACKET_SIZE - n % PACKET_SIZE
  }

  /** Corrected reconstruction: the payloads joined in order, with the trailing filler removed once, at the end. */
  function RestoreFile(chunks: seq<string>): string
  {
    DropFiller(Flatten(chunks))
  }

  /** The text without the run of filler characters at its end. */
  function DropFiller(s: string): (r: string)
    ensures r <= s
    ensures r == [] || r[|r| - 1] != FILLER
    ensures forall k :: |r| <= k < |s| ==> s[k] == FILLER
    decreases |s|
  {
    if s != [] && s[|s| - 1] == FILLER then DropFiller(s[..|s| - 1]) else s
  }

  /** The payloads of a file, joined, are the file followed by the last payload's filler. */
  lemma {:induction false} FlattenChunks(data: string)
    ensures Flatten(Chunks(data)) == data + Fill(Padding(|data|))
    decreases |data|
  {
    if data != [] {
      var m := Min(PACKET_SIZE, |data|);
      var rest := data[m..];
      assert Chunks(data)[1..] == Chunks(rest);
      FlattenChunks(rest);
      if |data| <= PACKET_SIZE {
        assert rest == [];
        assert Chunks(rest) == [] && Fill(Padding(0)) == [];
        assert Flatten(Chunks(data)) == Chunk(data, 0) + [];
        assert Piece(data, 0) == data;
      } else {
        assert Padding(|rest|) == Padding(|data|);
        assert Chunk(data, 0) == data[..m] + Fill(0);
        assert data == data[..m] + rest;
        AppendAssoc(data[..m], rest, Fill(Padding(|data|)));
      }
    }
  }

  /** Removing the filler from a text padded with it gives the text back, when the text does not end with filler. */
  lemma {:induction false} DropFillerOfPadded(s: string, k: nat)
    requires s == [] || s[|s| - 1] != FILLER
    ensures DropFiller(s + Fill(k)) == s
    decreases k
  {
    if k == 0 {
      assert s + Fill(0) == s;
    } else {
      var t := s + Fill(k);
      assert t[|t| - 1] == FILLER;
      assert t[..|t| - 1] == s + Fill(k - 1);
      DropFillerOfPadded(s, k - 1);
    }
  }

  /**
   * Corrected round trip: every file that is empty or does not end with the
   * filler character is rebuilt exactly from its payloads, white space and all.
   */
  lemma RestoreFileRoundTrip(data: string)
    requires data == [] || data[|data| - 1] != FILLER
    ensures RestoreFile(Chunks(data)) == data
  {
    FlattenChunks(data);
    DropFillerOfPadded(data, Padding(|data|));
  }

  /** The file of TrailingNewlineLost comes back whole under the correction. */
  lemma TrailingNewlineRestored()
    ensures RestoreFile(Chunks("HELLO\n")) == "HELLO\n"
  {
    RestoreFileRoundTrip("HELLO\n");
  }
}

/**
 * The datagram formats both programs share. A data or control packet travels
 * as the text "<seq>:<crc>:<content>", where <crc> is the CRC-32 of the content;
 * the receiver answers each accepted packet with the text "ACK <n>".
 *
 * CRC-32 itself is not modelled: it is any function from contents to 32-bit
 * unsigned values, passed in where it is used.
 */
module Framing {
  import opened JavaLib

  /** A value `CRC32.getValue()` can return. */
  type Crc = x: int | 0 <= x < 0x1_0000_0000

  /** The three fields of a packet as the receiver reads them. */
  datatype Frame = Frame(seqNum: int, crc: int, content: string)

  /** The packet text UDPClient.sendPacket builds: seqNum + ":" + crcValue + ":" + content. */
  function Encode(f: Frame): string
  {
    IntText(f.seqNum) + ":" + IntText(f.crc) + ":" + f.content
  }

  /** The packet sendPacket builds for `content` under sequence number `seqNum`. */
  function Packet(seqNum: int, content: string, crc32: string -> Crc): Frame
  {
    Frame(seqNum, crc32(content), content)
  }

  /** The text of that packet on the socket. */
  function FrameText(seqNum: int, content: string, crc32: string -> Crc): string
  {
    Encode(Packet(seqNum, content, crc32))
  }

  /**
   * How the receiver's main loop reads a datagram: the sequence number is the text
   * before the first ':' (Integer.parseInt), the CRC the text between the first and
   * the second ':' (Long.parseLong), and the content everything after the second ':'.
   * With no second ':', indexOf yields -1 and substring(0) makes the content the
   * whole message. None is the exception Java throws: no ':' at all (split(":")[1]
   * does not exist) or a field that is not a number.
   */
  function Decode(m: string): (r: Option<Frame>)
    ensures r.Some? ==> ':' in m && IsInt(r.value.seqNum) && IsLong(r.value.crc)
    ensures r.Some? ==> |r.value.content| <= |m| && m[|m| - |r.value.content|..] == r.value.content
  {
    match IndexOf(m, ':')
    case None => None
    case Some(i) =>
      var rest := m[i + 1..];
      var second := IndexOf(rest, ':');
      var crcField := if second.Some? then rest[..second.value] else rest;
      var content := if second.Some? then rest[second.value + 1..] else m;
      assert second.Some? ==> m[|m| - |content|..] == content;
      match (ParseInt(m[..i]), ParseLong(crcField))
      case (Some(s), Some(c)) => Some(Frame(s, c, content))
      case _ => None
  }

  /** The first ':' of a + ":" + b is the one after a, when a has none. */
  lemma IndexOfAfter(a: string, b: string)
    requires ':' !in a
    ensures IndexOf(a + ":" + b, ':') == Some(|a|)
    ensures (a + ":" + b)[|a| + 1..] == b
    ensures (a + ":" + b)[..|a|] == a
  {
    var m := a + ":" + b;
    assert m[|a|] == ':';
    assert m[..|a|] == a;
    IndexOfFirst(m, ':', |a|);
  }

  /** Decoding splits on the first two separators only: the content is taken verbatim, ':' and all. */
  lemma DecodeTwoSeparators(a: string, b: string, c: string)
    requires ':' !in a && ':' !in b
    ensures Decode(a + ":" + b + ":" + c) ==
      if ParseInt(a).Some? && ParseLong(b).Some? then Some(Frame(ParseInt(a).value, ParseLong(b).value, c))
      else None
  {
    var m := a + ":" + b + ":" + c;
    assert m == a + ":" + (b + ":" + c);
    IndexOfAfter(a, b + ":" + c);
    IndexOfAfter(b, c);
  }

  /** With a single separator the content is the whole message (substring(0)). */
  lemma DecodeOneSeparator(a: string, b: string)
    requires ':' !in a && ':' !in b
    ensures Decode(a + ":" + b) ==
      if ParseInt(a).Some? && ParseLong(b).Some? then Some(Frame(ParseInt(a).value, ParseLong(b).value, a + ":" + b))
      else None
  {
    IndexOfAfter(a, b);
  }

  /** Decoding an encoded frame gives back its three fields, whatever the content holds. */
  lemma DecodeEncode(f: Frame)
    requires IsInt(f.seqNum) && IsLong(f.crc)
    ensures Decode(Encode(f)) == Some(f)
  {
    IntTextHasNo(f.seqNum, ':');
    IntTextHasNo(f.crc, ':');
    ParseDecimalOfIntText(f.seqNum, INT_MIN, INT_MAX);
    ParseDecimalOfIntText(f.crc, LONG_MIN, LONG_MAX);
    DecodeTwoSeparators(IntText(f.seqNum), IntText(f.crc), f.content);
  }

  /** The packet sendPacket builds decodes to its sequence number, the content's CRC and the content. */
  lemma DecodeFrameText(seqNum: int, content: string, crc32: string -> Crc)
    requires IsInt(seqNum)
    ensures Decode(FrameText(seqNum, content, crc32)) == Some(Frame(seqNum, crc32(content), content))
  {
    DecodeEncode(Frame(seqNum, crc32(content), content));
  }

  /** A packet whose sequence-number field is not a number has no decoding. */
  lemma DecodeRejectsBadSequence(m: string, a: string, rest: string, k: nat)
    requires m == a + ":" + rest && ':' !in a
    requires k < |a| && !IsDigit(a[k]) && !(k == 0 && (a[0] == '-' || a[0] == '+'))
    ensures Decode(m) == None
  {
    IndexOfAfter(a, rest);
    ParseDecimalRejects(a, INT_MIN, INT_MAX, k);
  }

  /** A packet whose CRC field is not a number has no decoding. */
  lemma DecodeRejectsBadCrc(a: string, b: string, c: string, k: nat)
    requires ':' !in a && ':' !in b
    requires k < |b| && !IsDigit(b[k]) && !(k == 0 && (b[0] == '-' || b[0] == '+'))
    ensures Decode(a + ":" + b + ":" + c) == None
  {
    DecodeTwoSeparators(a, b, c);
    ParseDecimalRejects(b, LONG_MIN, LONG_MAX, k);
  }

  /** The malformed packet "abc:123:data" is refused. */
  lemma DecodeRejectsAbc()
    ensures Decode("abc:123:data") == None
  {
    assert "abc:123:data" == "abc" + ":" + "123" + ":" + "data";
    DecodeRejectsBadSequence("abc:123:data", "abc", "123:data", 0);
  }

  // ----- acknowledgements -----

  /** The message UDPServer.sendAck sends: "ACK " + n. */
  function AckText(n: int): string
  {
    "ACK " + IntText(n)
  }

  /** The size of the buffer the client receives into. */
  const RECEIVE_BUFFER: nat := 1024

  /**
   * The text the client's waitForAck reads from a datagram: at most 1024
   * characters land in the buffer, the unused rest of it holds NUL characters,
   * and the whole is trimmed, which removes those NULs as well (BufferNulsIgnored).
   */
  function ReceivedText(d: string): string
  {
    Trim(if |d| <= RECEIVE_BUFFER then d else d[..RECEIVE_BUFFER])
  }

  /**
   * The buffer as Java fills it, the received characters followed by NULs up to
   * its size, trims to the same text as the received characters alone.
   */
  lemma BufferNulsIgnored(d: string)
    ensures var cut := if |d| <= RECEIVE_BUFFER then d else d[..RECEIVE_BUFFER];
      Trim(cut + seq(RECEIVE_BUFFER - |cut|, _ => '\0')) == ReceivedText(d)
  {
    var cut := if |d| <= RECEIVE_BUFFER then d else d[..RECEIVE_BUFFER];
    var nuls := seq(RECEIVE_BUFFER - |cut|, _ => '\0');
    assert AllWhite(nuls);
    TrimIgnoresWhiteTail(cut, nuls);
    assert ReceivedText(d) == Trim(cut);
  }

  /** What waitForAck makes of a response: no ACK, ACK n, or an exception. */
  datatype AckParse = NotAck | Ack(n: int) | Malformed

  /**
   * waitForAck on the trimmed response: a text that starts with "ACK" is read as
   * Integer.parseInt(response.split(" ")[1]); Malformed is the exception thrown
   * when that field is missing, empty or not an int. Other texts are ignored.
   */
  function ParseAck(response: string): (r: AckParse)
    ensures r.NotAck? <==> !StartsWith(response, "ACK")
    ensures r.Ack? ==> IsInt(r.n)
  {
    if !StartsWith(response, "ACK") then NotAck
    else
      match IndexOf(response, ' ')
      case None => Malformed
      case Some(i) =>
        var rest := response[i + 1..];
        var field := match IndexOf(rest, ' ') case None => rest case Some(j) => rest[..j];
        match ParseInt(field)
        case None => Malformed
        case Some(n) => Ack(n)
  }

  /**
   * Any response that starts with "ACK" and has a space: `split(" ")[1]` is the
   * text between the first space and the next one (or the end), and it is read
   * with Integer.parseInt; a field that does not parse is the exception.
   */
  lemma ParseAckFields(a: string, b: string, rest: string)
    requires StartsWith(a, "ACK") && ' ' !in a && ' ' !in b
    requires rest == [] || rest[0] == ' '
    ensures ParseAck(a + " " + b + rest) ==
      match ParseInt(b) case None => Malformed case Some(n) => Ack(n)
  {
    var t := a + " " + b + rest;
    assert t[..|a|] == a && t[|a|] == ' ';
    assert t[..3] == a[..3];
    IndexOfFirst(t, ' ', |a|);
    var r := t[|a| + 1..];
    assert r == b + rest;
    assert r[..|b|] == b;
    if rest == [] {
      assert r == b;
      assert IndexOf(r, ' ') == None;
    } else {
      assert r[|b|] == ' ';
      IndexOfFirst(r, ' ', |b|);
    }
  }

  /** A response "ACK..." without a space has no `split(" ")[1]`: the exception. */
  lemma ParseAckNoSpace(a: string)
    requires StartsWith(a, "ACK") && ' ' !in a
    ensures ParseAck(a) == Malformed
  {
  }

  /** The client reads back exactly the number the server acknowledged. */
  lemma ParseAckText(n: int)
    requires IsInt(n)
    ensures ParseAck(ReceivedText(AckText(n))) == Ack(n)
  {
    ReceivedAckText(n);
    ParseAckOf(n);
  }

  /** An ACK fits the client's buffer and has no white ends, so the client receives it unchanged. */
  lemma ReceivedAckText(n: int)
    requires IsInt(n)
    ensures ReceivedText(AckText(n)) == AckText(n)
  {
    IntTextLength(n);
    TrimOfSolid(AckText(n));
  }

  lemma ParseAckOf(n: int)
    requires IsInt(n)
    ensures ParseAck(AckText(n)) == Ack(n)
  {
    var t := AckText(n);
    assert t == "ACK" + " " + IntText(n);
    assert t[3] == ' ' && t[..3] == "ACK";
    IndexOfFirst(t, ' ', 3);
    assert t[4..] == IntText(n);
    IntTextHasNo(n, ' ');
    ParseDecimalOfIntText(n, INT_MIN, INT_MAX);
  }
}

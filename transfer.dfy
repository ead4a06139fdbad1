/**
 * One whole transfer, both programs together: the packets UDPClient hands to
 * its socket, delivered to UDPServer in order, once each and without loss,
 * and what the server makes of them.
 */
module Transfer {
  import opened JavaLib
  import opened Framing
  import opened Chunking
  import opened SenderSpec
  import opened ReceiverSpec

  /** The texts of packets on the socket, in order. */
  function Texts(fs: seq<Frame>): (r: seq<string>)
    ensures |r| == |fs|
    decreases |fs|
  {
    if fs == [] then [] else [Encode(fs[0])] + Texts(fs[1..])
  }

  /** The texts of the packets for `contents` under consecutive sequence numbers from `first`. */
  function PacketTexts(contents: seq<string>, first: int, crc32: string -> Crc): (r: seq<string>)
    ensures |r| == |contents|
    decreases |contents|
  {
    if contents == [] then [] else [FrameText(first, contents[0], crc32)] + PacketTexts(contents[1..], first + 1, crc32)
  }

  /** The acknowledgements "ACK first", "ACK first+1", ..., n of them. */
  function AckTexts(first: int, n: nat): (r: seq<string>)
    ensures |r| == n
    decreases n
  {
    if n == 0 then [] else [AckText(first)] + AckTexts(first + 1, n - 1)
  }

  /** Each payload as trimmed by the server. */
  function TrimAll(contents: seq<string>): (r: seq<string>)
    ensures |r| == |contents|
    decreases |contents|
  {
    if contents == [] then [] else [Trim(contents[0])] + TrimAll(contents[1..])
  }

  /** No data payload of the file looks like a control packet to the server. */
  predicate NoControlChunks(data: string)
  {
    forall i :: 0 <= i < |Chunks(data)| ==> Ordinary(Chunks(data)[i])
  }

  /** The content the server stores for a file: each padded chunk with its white ends trimmed off. */
  function Stored(data: string): string
  {
    Flatten(TrimAll(Chunks(data)))
  }

  /** Data payloads the server stores as data: each fits a datagram and is not a control word. */
  predicate DataChunks(chunks: seq<string>)
  {
    chunks == [] || (|chunks[0]| <= RECEIVE_BUFFER - 23 && Ordinary(chunks[0]) && DataChunks(chunks[1..]))
  }

  // ----- the server's loop over consecutive parts of the traffic -----

  /** The loop over a + b: the loop over a, then, if it is still listening, over b. */
  lemma {:induction false} ServeAppend(st: ServerState, sent: seq<string>, a: seq<string>, b: seq<string>,
                                       crc32: string -> Crc, md5Hex: string -> string)
    ensures Serve(st, sent, a + b, crc32, md5Hex) ==
      var r := Serve(st, sent, a, crc32, md5Hex);
      if r.end == Listening then Serve(r.st, r.outbox, b, crc32, md5Hex) else r
    decreases |a|
  {
    if a == [] {
      assert a + b == b;
    } else {
      assert (a + b)[0] == a[0];
      assert (a + b)[1..] == a[1..] + b;
      var step := Handle(st, a[0], crc32, md5Hex);
      if !step.Crash? && !(step.Accept? && step.fin) {
        ServeAppend(StateAfter(st, step), sent + Reply(step), a[1..], b, crc32, md5Hex);
      }
    }
  }

  /** One in-sequence data packet: its payload appended trimmed, the counter one on, one ACK sent. */
  lemma DataStep(st: ServerState, sent: seq<string>, chunks: seq<string>,
                 crc32: string -> Crc, md5Hex: string -> string)
    requires 2 <= st.expected < INT_MAX && chunks != []
    requires |chunks[0]| <= RECEIVE_BUFFER - 23 && Ordinary(chunks[0])
    ensures Serve(st, sent, PacketTexts(chunks, st.expected, crc32), crc32, md5Hex) ==
      Serve(st.(fileContent := st.fileContent + Trim(chunks[0]), expected := st.expected + 1),
            sent + [AckText(st.expected + 1)], PacketTexts(chunks[1..], st.expected + 1, crc32), crc32, md5Hex)
  {
    var d := FrameText(st.expected, chunks[0], crc32);
    DataAppended(st, chunks[0], crc32, md5Hex);
    ServeFirst(st, sent, d, PacketTexts(chunks[1..], st.expected + 1, crc32), crc32, md5Hex);
  }

  /**
   * The data packets, delivered in order from an expected number of 2 or more:
   * each is acknowledged with its number plus one, and the server appends each
   * payload trimmed, in order, to the content.
   */
  lemma {:induction false} DataPhase(st: ServerState, sent: seq<string>, chunks: seq<string>,
                                     crc32: string -> Crc, md5Hex: string -> string)
    requires 2 <= st.expected && st.expected + |chunks| < INT_MAX
    requires DataChunks(chunks)
    ensures Serve(st, sent, PacketTexts(chunks, st.expected, crc32), crc32, md5Hex) ==
      Served(st.(fileContent := st.fileContent + Flatten(TrimAll(chunks)), expected := st.expected + |chunks|),
             sent + AckTexts(st.expected + 1, |chunks|), Listening)
    decreases |chunks|
  {
    if chunks == [] {
      assert PacketTexts(chunks, st.expected, crc32) == [];
      assert Flatten(TrimAll(chunks)) == [];
      assert AckTexts(st.expected + 1, 0) == [];
    } else {
      var st1 := st.(fileContent := st.fileContent + Trim(chunks[0]), expected := st.expected + 1);
      var sent1 := sent + [AckText(st.expected + 1)];
      var rest := chunks[1..];
      var mid := Served(st1.(fileContent := st1.fileContent + Flatten(TrimAll(rest)), expected := st1.expected + |rest|),
                        sent1 + AckTexts(st1.expected + 1, |rest|), Listening);
      DataStep(st, sent, chunks, crc32, md5Hex);
      DataPhase(st1, sent1, rest, crc32, md5Hex);
      DataPhaseTail(st, sent, chunks);
    }
  }

  /** What the data phase leaves after the first chunk and then the rest is what it leaves after all of them. */
  lemma DataPhaseTail(st: ServerState, sent: seq<string>, chunks: seq<string>)
    requires chunks != []
    ensures
      var st1 := st.(fileContent := st.fileContent + Trim(chunks[0]), expected := st.expected + 1);
      var sent1 := sent + [AckText(st.expected + 1)];
      Served(st1.(fileContent := st1.fileContent + Flatten(TrimAll(chunks[1..])), expected := st1.expected + |chunks[1..]|),
             sent1 + AckTexts(st1.expected + 1, |chunks[1..]|), Listening) ==
      Served(st.(fileContent := st.fileContent + Flatten(TrimAll(chunks)), expected := st.expected + |chunks|),
             sent + AckTexts(st.expected + 1, |chunks|), Listening)
  {
    var rest := chunks[1..];
    TrimAllCons(chunks);
    AppendAssoc(st.fileContent, Trim(chunks[0]), Flatten(TrimAll(rest)));
    AppendAssoc(sent, [AckText(st.expected + 1)], AckTexts(st.expected + 2, |rest|));
  }

  /** Trimming a list of payloads: the first, then the rest; content appended in that order. */
  lemma TrimAllCons(chunks: seq<string>)
    requires chunks != []
    ensures Flatten(TrimAll(chunks)) == Trim(chunks[0]) + Flatten(TrimAll(chunks[1..]))
  {
    var ts := TrimAll(chunks);
    assert ts[1..] == TrimAll(chunks[1..]);
  }

  lemma AppendAssoc<T>(a: seq<T>, b: seq<T>, c: seq<T>)
    ensures (a + b) + c == a + (b + c)
  {
  }


  // ----- the traffic of a whole transfer -----

  /** The texts of consecutive packets are the packet texts of their payloads. */
  lemma {:induction false} TextsOfPackets(contents: seq<string>, first: int, crc32: string -> Crc)
    ensures Texts(Packets(contents, first, crc32)) == PacketTexts(contents, first, crc32)
    decreases |contents|
  {
    if contents != [] {
      var fs := Packets(contents, first, crc32);
      assert fs[0] == Packet(first, contents[0], crc32);
      assert fs[1..] == Packets(contents[1..], first + 1, crc32);
      TextsOfPackets(contents[1..], first + 1, crc32);
    }
  }

  /** f applied to each payload and its number, numbers consecutive from `first`. */
  function Numbered<T>(f: (int, string) -> T, contents: seq<string>, first: int): (r: seq<T>)
    ensures |r| == |contents|
    decreases |contents|
  {
    if contents == [] then [] else [f(first, contents[0])] + Numbered(f, contents[1..], first + 1)
  }

  lemma {:induction false} NumberedAppend<T>(f: (int, string) -> T, a: seq<string>, b: seq<string>, first: int)
    ensures Numbered(f, a + b, first) == Numbered(f, a, first) + Numbered(f, b, first + |a|)
    decreases |a|
  {
    if a == [] {
      assert a + b == b;
    } else {
      assert (a + b)[0] == a[0];
      assert (a + b)[1..] == a[1..] + b;
      NumberedAppend(f, a[1..], b, first + 1);
    }
  }

  function FrameTextOf(crc32: string -> Crc): (int, string) -> string
  {
    (n: int, c: string) => FrameText(n, c, crc32)
  }

  lemma {:induction false} PacketTextsNumbered(contents: seq<string>, first: int, crc32: string -> Crc)
    ensures PacketTexts(contents, first, crc32) == Numbered(FrameTextOf(crc32), contents, first)
    decreases |contents|
  {
    if contents != [] {
      PacketTextsNumbered(contents[1..], first + 1, crc32);
    }
  }

  /** Numbering a + body + c: each part numbered on from where the one before it stops. */
  lemma NumberedSplit<T>(f: (int, string) -> T, a: seq<string>, body: seq<string>, c: seq<string>, first: int)
    ensures Numbered(f, a + body + c, first) ==
      Numbered(f, a, first) + Numbered(f, body, first + |a|) + Numbered(f, c, first + |a| + |body|)
  {
    NumberedAppend(f, a + body, c, first);
    NumberedAppend(f, a, body, first);
  }

  /** The packet texts of two payloads. */
  lemma PacketTextsPair(x: string, y: string, first: int, crc32: string -> Crc)
    ensures PacketTexts([x, y], first, crc32) == [FrameText(first, x, crc32), FrameText(first + 1, y, crc32)]
  {
    assert [x, y][1..] == [y];
    assert [y][1..] == [];
  }

  lemma Regroup<T>(x: T, y: T, body: seq<T>, u: T, v: T)
    ensures [x, y] + body + [u, v] == [x] + ([y] + (body + ([u] + [v])))
  {
  }

  /** The traffic of a transfer: SYN, the name, the data packets from 2, the digest, FIN. */
  lemma TransferTexts(fileName: string, data: string, crc32: string -> Crc, md5Hex: string -> string)
    ensures Texts(TransferPackets(fileName, data, crc32, md5Hex)) ==
      [FrameText(SYN_SEQ, "SYN", crc32)] + ([FrameText(NAME_SEQ, fileName, crc32)] +
      (PacketTexts(Chunks(data), FIRST_DATA_SEQ, crc32) +
       ([FrameText(FIRST_DATA_SEQ + |Chunks(data)|, HashContent(data, md5Hex), crc32)] +
        [FrameText(FIRST_DATA_SEQ + |Chunks(data)| + 1, "FIN", crc32)])))
  {
    var chunks := Chunks(data);
    var n := |chunks|;
    var hash := HashContent(data, md5Hex);
    var f := FrameTextOf(crc32);
    var head, tail := ["SYN", fileName], [hash, "FIN"];
    TextsOfPackets(head + chunks + tail, SYN_SEQ, crc32);
    PacketTextsNumbered(head + chunks + tail, SYN_SEQ, crc32);
    NumberedSplit(f, head, chunks, tail, SYN_SEQ);
    PacketTextsNumbered(head, SYN_SEQ, crc32);
    PacketTextsNumbered(chunks, FIRST_DATA_SEQ, crc32);
    PacketTextsNumbered(tail, FIRST_DATA_SEQ + n, crc32);
    PacketTextsPair("SYN", fileName, SYN_SEQ, crc32);
    PacketTextsPair(hash, "FIN", FIRST_DATA_SEQ + n, crc32);
    Regroup(FrameText(SYN_SEQ, "SYN", crc32), FrameText(NAME_SEQ, fileName, crc32), PacketTexts(chunks, FIRST_DATA_SEQ, crc32),
            FrameText(FIRST_DATA_SEQ + n, hash, crc32), FrameText(FIRST_DATA_SEQ + n + 1, "FIN", crc32));
  }

  /** Each chunk of a file is PACKET_SIZE characters long, so it fits a datagram. */
  lemma ChunksAreData(data: string)
    requires NoControlChunks(data)
    ensures DataChunks(Chunks(data))
  {
    ChunksCoverFile(data);
    forall i | 0 <= i < |Chunks(data)|
      ensures |Chunks(data)[i]| <= RECEIVE_BUFFER - 23
    {
      PadShape(Pieces(data)[i]);
    }
    DataChunksOf(Chunks(data));
  }

  lemma {:induction false} DataChunksOf(chunks: seq<string>)
    requires forall i :: 0 <= i < |chunks| ==> |chunks[i]| <= RECEIVE_BUFFER - 23 && Ordinary(chunks[i])
    ensures DataChunks(chunks)
    decreases |chunks|
  {
    if chunks != [] {
      assert forall i :: 0 <= i < |chunks| - 1 ==> chunks[1..][i] == chunks[i + 1];
      DataChunksOf(chunks[1..]);
    }
  }

  /** The loop over a datagram that is accepted and is not FIN, then the rest. */
  lemma ServeFirst(st: ServerState, sent: seq<string>, d: string, rest: seq<string>,
                   crc32: string -> Crc, md5Hex: string -> string)
    requires Handle(st, d, crc32, md5Hex).Accept? && !Handle(st, d, crc32, md5Hex).fin
    ensures Serve(st, sent, [d] + rest, crc32, md5Hex) ==
      Serve(Handle(st, d, crc32, md5Hex).next, sent + [AckText(Handle(st, d, crc32, md5Hex).ack)], rest, crc32, md5Hex)
  {
    assert ([d] + rest)[0] == d;
    assert ([d] + rest)[1..] == rest;
  }

  /** SYN under 0, delivered to the server in its initial state. */
  lemma SynStep(sent: seq<string>, rest: seq<string>, crc32: string -> Crc, md5Hex: string -> string)
    ensures Serve(Initial(), sent, [FrameText(SYN_SEQ, "SYN", crc32)] + rest, crc32, md5Hex) ==
      Serve(ServerState(1, "", None, None), sent + [AckText(1)], rest, crc32, md5Hex)
  {
    TrimOfSolid("SYN");
    SynResets(Initial(), "SYN", crc32, md5Hex);
    ServeFirst(Initial(), sent, FrameText(SYN_SEQ, "SYN", crc32), rest, crc32, md5Hex);
  }

  /** The file name under 1, when the server expects it. */
  lemma NameStep(st: ServerState, sent: seq<string>, fileName: string, rest: seq<string>,
                 crc32: string -> Crc, md5Hex: string -> string)
    requires st.expected == 1 && |fileName| <= RECEIVE_BUFFER - 23 && Trim(fileName) != "SYN"
    ensures Serve(st, sent, [FrameText(NAME_SEQ, fileName, crc32)] + rest, crc32, md5Hex) ==
      Serve(st.(fileName := Some(Trim(fileName)), expected := 2), sent + [AckText(2)], rest, crc32, md5Hex)
  {
    NameRecorded(st, fileName, crc32, md5Hex);
    ServeFirst(st, sent, FrameText(NAME_SEQ, fileName, crc32), rest, crc32, md5Hex);
  }

  /** The digest packet under the expected number. */
  lemma HashStep(st: ServerState, sent: seq<string>, digest: string, rest: seq<string>,
                 crc32: string -> Crc, md5Hex: string -> string)
    requires 2 <= st.expected < INT_MAX
    requires digest != [] && ':' !in digest && |digest| <= RECEIVE_BUFFER - 28
    ensures Serve(st, sent, [FrameText(st.expected, "HASH:" + digest, crc32)] + rest, crc32, md5Hex) ==
      Serve(st.(expectedHash := Some(digest), expected := st.expected + 1), sent + [AckText(st.expected + 1)], rest, crc32, md5Hex)
  {
    assert Inc32(st.expected) == st.expected + 1;
    HashRecorded(st, digest, crc32, md5Hex);
    ServeFirst(st, sent, FrameText(st.expected, "HASH:" + digest, crc32), rest, crc32, md5Hex);
  }

  /** FIN under the expected number: the loop ends, closed, with the content so far. */
  lemma FinStep(st: ServerState, sent: seq<string>, crc32: string -> Crc, md5Hex: string -> string)
    requires 2 <= st.expected < INT_MAX
    ensures Serve(st, sent, [FrameText(st.expected, "FIN", crc32)], crc32, md5Hex) ==
      Served(st, sent + [AckText(st.expected + 1), CLOSE], Closed(st.fileContent, st.fileName))
  {
    FinCloses(st, "FIN", crc32, md5Hex);
    assert [FrameText(st.expected, "FIN", crc32)][0] == FrameText(st.expected, "FIN", crc32);
  }

  /** From the name on: the data packets from 2, the digest and FIN. */
  lemma AfterName(st: ServerState, sent: seq<string>, chunks: seq<string>, digest: string,
                  crc32: string -> Crc, md5Hex: string -> string)
    requires st.expected == FIRST_DATA_SEQ && FIRST_DATA_SEQ + |chunks| + 2 <= INT_MAX && DataChunks(chunks)
    requires digest != [] && ':' !in digest && |digest| <= RECEIVE_BUFFER - 28
    ensures Serve(st, sent, PacketTexts(chunks, FIRST_DATA_SEQ, crc32) +
                            ([FrameText(FIRST_DATA_SEQ + |chunks|, "HASH:" + digest, crc32)] +
                             [FrameText(FIRST_DATA_SEQ + |chunks| + 1, "FIN", crc32)]), crc32, md5Hex) ==
      Served(st.(fileContent := st.fileContent + Flatten(TrimAll(chunks)), expected := |chunks| + 3, expectedHash := Some(digest)),
             sent + AckTexts(3, |chunks|) + [AckText(|chunks| + 3)] + [AckText(|chunks| + 4), CLOSE],
             Closed(st.fileContent + Flatten(TrimAll(chunks)), st.fileName))
  {
    var n := |chunks|;
    var st3 := st.(fileContent := st.fileContent + Flatten(TrimAll(chunks)), expected := 2 + n);
    var st4 := st3.(expectedHash := Some(digest), expected := 3 + n);
    var sent3 := sent + AckTexts(3, n);
    var fin := FrameText(FIRST_DATA_SEQ + n + 1, "FIN", crc32);
    DataPhase(st, sent, chunks, crc32, md5Hex);
    ServeAppend(st, sent, PacketTexts(chunks, FIRST_DATA_SEQ, crc32),
                [FrameText(FIRST_DATA_SEQ + n, "HASH:" + digest, crc32)] + [fin], crc32, md5Hex);
    HashStep(st3, sent3, digest, [fin], crc32, md5Hex);
    FinStep(st4, sent3 + [AckText(n + 3)], crc32, md5Hex);
  }

  /** SYN under 0 and then the name under 1, from the server's initial state. */
  lemma Opening(sent: seq<string>, fileName: string, rest: seq<string>, crc32: string -> Crc, md5Hex: string -> string)
    requires |fileName| <= RECEIVE_BUFFER - 23 && Trim(fileName) != "SYN"
    ensures Serve(Initial(), sent, [FrameText(SYN_SEQ, "SYN", crc32)] + ([FrameText(NAME_SEQ, fileName, crc32)] + rest), crc32, md5Hex) ==
      Serve(ServerState(2, "", Some(Trim(fileName)), None), sent + [AckText(1)] + [AckText(2)], rest, crc32, md5Hex)
  {
    SynStep(sent, [FrameText(NAME_SEQ, fileName, crc32)] + rest, crc32, md5Hex);
    NameStep(ServerState(1, "", None, None), sent + [AckText(1)], fileName, rest, crc32, md5Hex);
  }

  /** The rest of a transfer once SYN and the name are through, from the state they leave. */
  lemma FromData(name: Option<string>, sent: seq<string>, chunks: seq<string>, digest: string,
                 crc32: string -> Crc, md5Hex: string -> string)
    requires FIRST_DATA_SEQ + |chunks| + 2 <= INT_MAX && DataChunks(chunks)
    requires digest != [] && ':' !in digest && |digest| <= RECEIVE_BUFFER - 28
    ensures Serve(ServerState(2, "", name, None), sent,
                  PacketTexts(chunks, FIRST_DATA_SEQ, crc32) +
                  ([FrameText(FIRST_DATA_SEQ + |chunks|, "HASH:" + digest, crc32)] +
                   [FrameText(FIRST_DATA_SEQ + |chunks| + 1, "FIN", crc32)]), crc32, md5Hex) ==
      Served(ServerState(|chunks| + 3, Flatten(TrimAll(chunks)), name, Some(digest)),
             sent + AckTexts(3, |chunks|) + [AckText(|chunks| + 3)] + [AckText(|chunks| + 4), CLOSE],
             Closed(Flatten(TrimAll(chunks)), name))
  {
    AfterName(ServerState(2, "", name, None), sent, chunks, digest, crc32, md5Hex);
    assert "" + Flatten(TrimAll(chunks)) == Flatten(TrimAll(chunks));
  }

  lemma Outbox<T>(a: T, b: T, acks: seq<T>, c: T, d: T, e: T)
    ensures [] + [a] + [b] + acks + [c] + [d, e] == [a, b] + acks + [c, d, e]
  {
  }

  /**
   * One whole transfer delivered in order, once each and without loss: the
   * server acknowledges 1, 2, ..., n + 4 for the n + 4 packets, answers FIN with
   * CLOSE and ends its loop holding the trimmed name, the digest the client
   * sent and the trimmed chunks of the file as its content.
   */
  lemma TransferDelivers(fileName: string, data: string, crc32: string -> Crc, md5Hex: string -> string)
    requires |Chunks(data)| + 4 <= INT_MAX
    requires |fileName| <= RECEIVE_BUFFER - 23 && Trim(fileName) != "SYN"
    requires md5Hex(data) != [] && ':' !in md5Hex(data) && |md5Hex(data)| <= RECEIVE_BUFFER - 28
    requires NoControlChunks(data)
    ensures Serve(Initial(), [], Texts(TransferPackets(fileName, data, crc32, md5Hex)), crc32, md5Hex) ==
      Served(ServerState(|Chunks(data)| + 3, Stored(data), Some(Trim(fileName)), Some(md5Hex(data))),
             [AckText(1), AckText(2)] + AckTexts(3, |Chunks(data)|) +
             [AckText(|Chunks(data)| + 3), AckText(|Chunks(data)| + 4), CLOSE],
             Closed(Stored(data), Some(Trim(fileName))))
  {
    var chunks := Chunks(data);
    var rest := PacketTexts(chunks, FIRST_DATA_SEQ, crc32) +
      ([FrameText(FIRST_DATA_SEQ + |chunks|, HashContent(data, md5Hex), crc32)] +
       [FrameText(FIRST_DATA_SEQ + |chunks| + 1, "FIN", crc32)]);
    ChunksAreData(data);
    FromData(Some(Trim(fileName)), [] + [AckText(1)] + [AckText(2)], chunks, md5Hex(data), crc32, md5Hex);
    Outbox(AckText(1), AckText(2), AckTexts(3, |chunks|), AckText(|chunks| + 3), AckText(|chunks| + 4), CLOSE);
    TransferTexts(fileName, data, crc32, md5Hex);
    Opening([], fileName, rest, crc32, md5Hex);
  }

  /**
   * Client and server together: when startHandShaking completes, the packets
   * the client has handed to its socket, delivered to a fresh server in order
   * and without loss, leave the server closed with the trimmed name and the
   * stored content, having acknowledged every packet.
   */
  lemma ClientServerTransfer(inbox: seq<string>, fileName: string, data: string,
                             crc32: string -> Crc, md5Hex: string -> string)
    requires HandShake(Start(inbox), fileName, data, crc32, md5Hex).status == Completed
    requires |Chunks(data)| + 4 <= INT_MAX
    requires |fileName| <= RECEIVE_BUFFER - 23 && Trim(fileName) != "SYN"
    requires md5Hex(data) != [] && ':' !in md5Hex(data) && |md5Hex(data)| <= RECEIVE_BUFFER - 28
    requires NoControlChunks(data)
    ensures Serve(Initial(), [], Texts(HandShake(Start(inbox), fileName, data, crc32, md5Hex).st.wire), crc32, md5Hex) ==
      Served(ServerState(|Chunks(data)| + 3, Stored(data), Some(Trim(fileName)), Some(md5Hex(data))),
             [AckText(1), AckText(2)] + AckTexts(3, |Chunks(data)|) +
             [AckText(|Chunks(data)| + 3), AckText(|Chunks(data)| + 4), CLOSE],
             Closed(Stored(data), Some(Trim(fileName))))
  {
    HandShakeSendsTransfer(inbox, fileName, data, crc32, md5Hex);
    TransferDelivers(fileName, data, crc32, md5Hex);
  }

  // ----- what the server stores -----

  /** Trimming each payload gives the pieces when each payload trims to its piece. */
  lemma {:induction false} FlattenTrimmed(chunks: seq<string>, pieces: seq<string>)
    requires |chunks| == |pieces|
    requires forall i :: 0 <= i < |chunks| ==> Trim(chunks[i]) == pieces[i]
    ensures Flatten(TrimAll(chunks)) == Flatten(pieces)
    decreases |chunks|
  {
    if chunks != [] {
      assert Trim(chunks[0]) == pieces[0];
      assert forall i :: 0 <= i < |chunks| - 1 ==> chunks[1..][i] == chunks[i + 1] && pieces[1..][i] == pieces[i + 1];
      FlattenTrimmed(chunks[1..], pieces[1..]);
      TrimAllCons(chunks);
    }
  }

  /** A text that neither begins nor ends with a white character. */
  predicate Solid(s: string)
  {
    s != [] && !IsWhite(s[0]) && !IsWhite(s[|s| - 1])
  }

  /** A piece of the file padded with filler trims back to the piece when its ends are not white. */
  lemma TrimPad(p: string)
    requires |p| <= PACKET_SIZE && Solid(p)
    ensures Trim(Pad(p)) == p
  {
    TrimDropsWhiteTail(p, Fill(PACKET_SIZE - |p|));
  }

  /** The server stores the file exactly when no ten-byte piece of it begins or ends with white space. */
  lemma StoredWhenSolid(data: string)
    ensures Stored(data) == data <==> forall i :: 0 <= i < |Pieces(data)| ==> Solid(Pieces(data)[i])
  {
    ChunksCoverFile(data);
    if forall i :: 0 <= i < |Pieces(data)| ==> Solid(Pieces(data)[i]) {
      forall i | 0 <= i < |Chunks(data)|
        ensures Trim(Chunks(data)[i]) == Pieces(data)[i]
      {
        TrimPad(Pieces(data)[i]);
      }
      FlattenTrimmed(Chunks(data), Pieces(data));
    } else {
      StoredLength(data);
    }
  }

  /**
   * The stored content is never longer than the file, and it is as long only
   * when every piece is solid: a piece with a white end loses at least that
   * character to trim.
   */
  lemma {:induction false} StoredLength(data: string)
    ensures |Stored(data)| <= |data|
    ensures |Stored(data)| == |data| ==> forall i :: 0 <= i < |Pieces(data)| ==> Solid(Pieces(data)[i])
    decreases |data|
  {
    if data != [] {
      var m := Min(PACKET_SIZE, |data|);
      var rest := data[m..];
      var p := Piece(data, 0);
      assert Chunks(data)[1..] == Chunks(rest);
      assert Pieces(data)[1..] == Pieces(rest);
      TrimAllCons(Chunks(data));
      assert Stored(data) == Trim(Pad(p)) + Stored(rest);
      assert |data| == |p| + |rest|;
      TrimWhiteTailLength(p, Fill(PACKET_SIZE - |p|));
      StoredLength(rest);
      if |Stored(data)| == |data| {
        forall i | 0 <= i < |Pieces(data)|
          ensures Solid(Pieces(data)[i])
        {
          if i > 0 {
            assert Pieces(data)[i] == Pieces(rest)[i - 1];
          }
        }
      }
    }
  }

  /** The eleven-byte file "HELLO WORLD" is stored as it was sent. */
  lemma HelloWorldStored()
    ensures Stored("HELLO WORLD") == "HELLO WORLD"
  {
    HelloWorldChunks();
    HelloWorldTrimmed();
    StoredOfTwo("HELLO WORLD", "HELLO WORL", "D         ", "HELLO WORL", "D");
    assert "HELLO WORL" + "D" == "HELLO WORLD";
  }

  /** The server trims the payloads of "HELLO WORLD" to "HELLO WORL" and "D". */
  lemma HelloWorldTrimmed()
    ensures Trim("HELLO WORL") == "HELLO WORL" && Trim("D         ") == "D"
  {
    TrimOfSolid("HELLO WORL");
    TrimDropsWhiteTail("D", Fill(9));
    assert "D" + Fill(9) == "D         ";
  }

  /** A file of two payloads is stored as the two payloads trimmed, in order. */
  lemma StoredOfTwo(data: string, x: string, y: string, tx: string, ty: string)
    requires Chunks(data) == [x, y] && Trim(x) == tx && Trim(y) == ty
    ensures Stored(data) == tx + ty
  {
    FlattenTrimmed([x, y], [tx, ty]);
    FlattenPair(tx, ty);
  }

  lemma FlattenPair(a: string, b: string)
    ensures Flatten([a, b]) == a + b
  {
    assert [a, b][1..] == [b] && [b][1..] == [];
    assert Flatten([b]) == b + Flatten([]);
    assert Flatten([a, b]) == a + Flatten([b]);
    assert b + [] == b;
  }

  /** A file of two payloads neither of which looks like a control packet. */
  lemma TwoDataChunks(data: string, x: string, y: string)
    requires Chunks(data) == [x, y] && Ordinary(x) && Ordinary(y)
    ensures NoControlChunks(data)
  {
  }

  /** Neither payload of "HELLO WORLD" looks like a control packet. */
  lemma HelloWorldIsData()
    ensures NoControlChunks("HELLO WORLD")
  {
    HelloWorldChunks();
    HelloWorldTrimmed();
    NotHashPrefix("HELLO WORL", 1);
    NotHashPrefix("D         ", 0);
    TwoDataChunks("HELLO WORLD", "HELLO WORL", "D         ");
  }

  /** A text that differs from "HASH:" at one of its first five positions does not start with it. */
  lemma NotHashPrefix(c: string, k: nat)
    requires k < 5 && k < |c| && c[k] != "HASH:"[k]
    ensures !StartsWith(c, "HASH:")
  {
  }

  /**
   * The file "report.txt" holding "HELLO WORLD", sent without loss: the server
   * closes with exactly that content under that name, and the digest it stored
   * is the MD5 of the content it holds, the content its HASH branch compares.
   */
  lemma ReportHelloWorld(crc32: string -> Crc, md5Hex: string -> string)
    requires md5Hex("HELLO WORLD") != [] && ':' !in md5Hex("HELLO WORLD")
    requires |md5Hex("HELLO WORLD")| <= RECEIVE_BUFFER - 28
    ensures var r := Serve(Initial(), [], Texts(TransferPackets("report.txt", "HELLO WORLD", crc32, md5Hex)), crc32, md5Hex);
      && r.end == Closed("HELLO WORLD", Some("report.txt"))
      && r.st.expectedHash == Some(md5Hex(r.st.fileContent))
  {
    HelloWorldChunks();
    HelloWorldStored();
    HelloWorldIsData();
    TrimOfSolid("report.txt");
    TransferDelivers("report.txt", "HELLO WORLD", crc32, md5Hex);
  }
}

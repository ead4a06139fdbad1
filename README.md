# A verified model of a reliable file transfer over UDP

The system under model is a small Java file-transfer protocol. A client (`UDPClient`) and a server (`UDPServer`) run it over UDP datagrams.

The client works as follows:
- It sends `SYN` under sequence number 0 and the file name under 1.
- It cuts the file into ten-byte chunks and pads the last one with spaces. The chunks go under 2, 3, … and are gated by a congestion window (`cwnd`, `threshold`: slow start, then congestion avoidance).
- It then sends `HASH:<md5>` and `FIN` under the next two numbers.
- Each packet travels as the text `seq:crc:content`. Each packet is also recorded in `sentPackets`, and a retransmission timer is armed for it.
- An incoming `ACK n` adds `n` to `ackedPackets`, removes `n` from `sentPackets` and signals the congestion controller.
- When a timer fires for a packet still outstanding, the window is penalised and the packet is resent.

The server parses each datagram. It accepts a packet only when it is in sequence and its CRC matches. On an accepted packet:
- `SYN` clears the file name and the content. The stored digest is kept, and the counter advances as for any accepted packet.
- Sequence number 1 sets the file name.
- `HASH:` stores and checks the digest.
- `FIN` ends the loop with a `CLOSE` message.
- Anything else is data, appended after `String.trim`.

Every accepted packet is answered with `ACK seq+1`.

The model has the same layers:

- `JavaLib`: the Java semantics the code depends on. This covers `int`/`long` ranges, 32-bit wrap-around, `/ 2` rounding toward zero, `String.trim` (code ≤ U+0020), `indexOf`, `"" + n` and `Integer.parseInt`/`Long.parseLong`.
- `Framing`: the wire formats `seq:crc:content` and `ACK n`, and how each side reads them.
- `Congestion`: `cwnd`/`threshold` and the two update rules.
- `Chunking`: how `sendData` cuts and pads the file.
- `SenderSpec` and `ReceiverSpec`: each program's state as a value, with one function per operation: `HandleResponse`, `WaitForAck`, `Timeout`, `FillWindow`, `SendDataFrom`, `HandShake`, and on the server `Handle` and `Serve`.
- `UdpClient.Client` and `UdpServer.Server`: classes whose fields are the programs' variables. Their methods update those fields in place, with the same loops as the Java code. Each method is proved to have exactly the effect of the matching specification function.
- `Transfer`: both programs together. It proves that the packets the client hands to its socket, delivered in order and without loss, make the server acknowledge every packet and close with the trimmed file name and the stored content.
- `Findings`: two defects in the code, each shown as written and paired with a corrected definition.

CRC-32 and MD5-as-hex are function parameters (`string -> Crc`, `string -> string`) and are never given bodies. Text is `string`: `getBytes` and `new String` are treated as ASCII identity conversions. The socket is modelled as sequences:
- the client's `wire` holds the frames handed to the network;
- the client's `inbox` holds the datagrams the network will deliver;
- the server's input is a sequence of datagrams, and its `outbox` holds the messages it sends back.

Where the description of the protocol and the code differ, the model follows the code:
- A datagram whose sequence-number or CRC field is not a number, or one with no `:`, makes the server's `main` throw. The model therefore crashes the server rather than discarding the packet (`ReceiverSpec.AbcCrashesServer`).
- A frame with a single `:` is read with the whole message as its content (`Framing.DecodeOneSeparator`).
- With `threshold = 64`, ten ACKs from `cwnd = 1` give 68, not 1024 (`Congestion.TenAcksFromInitial`).
- `cwnd += 1` is Java `int` arithmetic, so enough ACKs wrap the window to a negative value (`Congestion.AckWrapsAtIntMax`). The window invariant is therefore proved only for runs that stay below that bound (`Congestion.InitialStaysValid`), not for every sequence of signals.
- An `ACK` whose number is missing or is not an `int` makes `Integer.parseInt` in `waitForAck` throw; it is not ignored. `Framing.ParseAck` reads it as `Malformed`, and the client's run ends as `Crashed`.

## Model

| member | source | states |
|---|---|---|
| JavaLib.Wrap32 | UDPClient.java:149-152 | the value a Java `int` holds after an operation: always within `int` range and equal to the exact result when that fits |
| JavaLib.Inc32IsWrap32 | UDPServer.java:71-72 | `expectedSequenceNumber++` and `sequenceNumber + 1` on an `int` are the 32-bit wrapped sum |
| JavaLib.Inc32 | UDPServer.java:72 | `x + 1` on an `int`: stays in range; that it is the wrapped sum is Inc32IsWrap32 |
| JavaLib.ParseDecimal | UDPServer.java:27-28 | a text parses exactly when it is an optional sign followed by one or more digits whose value lies within the type's bounds, and then to that value, accumulated digit by digit from the left |
| JavaLib.DecimalValue | UDPServer.java:27-28 | definition: the value of an optional sign and digits, accumulated from the left; used by ParseDecimal's contract |
| JavaLib.ParseInt | UDPServer.java:27 | `Integer.parseInt`: ParseDecimal within the `int` bounds, so every result is an `int` |
| JavaLib.ParseLong | UDPServer.java:28 | `Long.parseLong`: ParseDecimal within the `long` bounds, so every result is a `long` |
| JavaLib.HornerValue | UDPServer.java:27-28 | accumulating digits from the left as `acc * 10 + digit` gives the digit string's positional value |
| JavaLib.HalfTowardZero | UDPClient.java:128 | `threshold / 2` in Java: the quotient rounded toward zero, for negative operands too |
| JavaLib.Trim | UDPServer.java:37-41 | `String.trim`: the result has no white character at either end, and an all-white text trims to empty |
| JavaLib.TrimSplits | UDPServer.java:37-41 | the text is a white run, then the trimmed text, then a white run |
| JavaLib.TrimUnique | UDPServer.java:37-41 | conversely, white runs around a part with non-white ends, or around nothing, trim to exactly that part; with TrimSplits this pins `trim` down |
| JavaLib.TrimWhiteTailLength | UDPServer.java:69 | trimming a text with white characters appended keeps at most the text, and strictly less when the text begins or ends with white space |
| JavaLib.TrimIgnoresWhiteTail | UDPClient.java:104 | white characters appended to any text do not change its trim |
| JavaLib.TrimDropsWhiteTail | UDPServer.java:69 | white characters appended to a solid text are exactly what `trim` removes |
| JavaLib.IndexOf | UDPServer.java:31 | `indexOf(':')` gives the first occurrence, or none when the character is absent |
| JavaLib.ParseDecimalOfIntText | UDPServer.java:27-28 | `parseInt`/`parseLong` read back exactly the decimal text `"" + n` produces |
| JavaLib.ParseDecimalRejects | UDPServer.java:27-28 | a field holding a character that is neither a digit nor a leading sign is not a number |
| JavaLib.IntTextLength | UDPClient.java:80 | the decimal text of an `int` has at most eleven characters |
| JavaLib.IntText | UDPClient.java:80 | `"" + n`: an optional minus sign, then digits, with no white end; read back by ParseDecimalOfIntText, bounded by IntTextLength |
| Framing.Decode | UDPServer.java:26-31 | a decoded frame's numbers are in `int`/`long` range, and its content is a suffix of the message |
| Framing.Encode | UDPClient.java:80 | definition of `seqNum + ":" + crcValue + ":" + content`; its inverse is Decode (DecodeEncode) |
| Framing.Packet | UDPClient.java:78-79 | definition: the frame of a content under a number, with the content's CRC; decoded back by DecodeFrameText |
| Framing.FrameText | UDPClient.java:80 | definition: the text of that frame; decoded back by DecodeFrameText and bounded by ReceiverSpec.FrameTextLength |
| Framing.DecodeTwoSeparators | UDPServer.java:27-31 | the sequence number is the text before the first `:`, the CRC the text between the first two, and the content everything after the second, taken verbatim |
| Framing.DecodeOneSeparator | UDPServer.java:31 | with only one `:` the content is the whole message |
| Framing.DecodeEncode | UDPClient.java:80 | decoding the text `sendPacket` builds gives back its three fields, whatever the content holds |
| Framing.DecodeFrameText | UDPClient.java:77-80 | the packet for `content` under `seqNum` decodes to `seqNum`, the content's CRC and the content |
| Framing.DecodeRejectsBadSequence | UDPServer.java:27 | a non-numeric sequence-number field gives no decoding |
| Framing.DecodeRejectsBadCrc | UDPServer.java:28 | a non-numeric CRC field gives no decoding |
| Framing.DecodeRejectsAbc | UDPServer.java:27 | `"abc:123:data"` has no decoding |
| Framing.ParseAck | UDPClient.java:104-107 | a response is an ACK exactly when it starts with `ACK`; the number it carries is an `int`; the number read and the Malformed case are pinned for every response by ParseAckFields and ParseAckNoSpace |
| Framing.ParseAckFields | UDPClient.java:105-106 | for any response `a + " " + b + rest` starting with `ACK`, where `a` and `b` hold no space and `rest` is empty or starts with a space, the result is `Ack(Integer.parseInt(b))`, or Malformed when `b` does not parse |
| Framing.ParseAckNoSpace | UDPClient.java:105-106 | a response starting with `ACK` that holds no space has no `split(" ")[1]` and is Malformed |
| Framing.AckText | UDPServer.java:96 | definition of `"ACK " + n`; read back by ParseAckText |
| Framing.ReceivedText | UDPClient.java:101-104 | definition: the datagram cut at the 1024-byte buffer and trimmed; an ACK survives it unchanged (ReceivedAckText) |
| Framing.BufferNulsIgnored | UDPClient.java:101-104 | the buffer as Java fills it, the received text then NULs up to 1024, trims to the same text as the received text alone |
| Framing.ParseAckText | UDPClient.java:101-107 | the client reads back exactly the number in the server's `"ACK " + n` |
| Framing.ReceivedAckText | UDPClient.java:101-104 | an ACK fits the 1024-byte buffer and survives `trim` unchanged |
| Congestion.AckSignalRule | UDPClient.java:147-155 | an ACK doubles `cwnd` below the threshold and adds exactly one at or above it; the threshold never changes |
| Congestion.Initial | UDPClient.java:21-22 | definition: `cwnd = 1`, `threshold = 64`; its runs are InitialStaysValid |
| Congestion.OnAck | UDPClient.java:147-155 | definition of `manageCongestionControl`; its properties are AckSignalRule, AckWrapsAtIntMax and ApplyKeepsValid |
| Congestion.TimeoutRule | UDPClient.java:126-128 | a timeout sets `cwnd` to 1 and the threshold to `max(threshold / 2, 2)` |
| Congestion.OnTimeout | UDPClient.java:126-128 | definition of the timer's window penalty; its properties are TimeoutRule and ApplyKeepsValid |
| Congestion.AckWrapsAtIntMax | UDPClient.java:152 | `cwnd += 1` at `INT_MAX` wraps to a negative window |
| Congestion.ApplyKeepsValid | UDPClient.java:126-128 | any run of ACKs and timeouts keeps `cwnd >= 1` and `2 <= threshold`, never raises the threshold, and raises `cwnd` by at most one per signal past 128 |
| Congestion.InitialStaysValid | UDPClient.java:21-22 | from `cwnd = 1`, `threshold = 64`, the invariant holds after every run of up to `INT_MAX - 128` signals |
| Congestion.ApplyAppend | UDPClient.java:147-155 | running two sequences of signals is running their concatenation |
| Congestion.SixAcksFromInitial | UDPClient.java:21-22 | six ACKs from the initial window give `cwnd = 64` |
| Congestion.AcksAboveThreshold | UDPClient.java:151-153 | at or above the threshold every ACK adds exactly one |
| Congestion.AcksFromInitial | UDPClient.java:147-155 | with no timeout, `6 + n` ACKs give `cwnd = 64 + n` |
| Congestion.TenAcksFromInitial | UDPClient.java:21-22 | ten ACKs from the initial window give `cwnd = 68` |
| Chunking.Fill | UDPClient.java:54 | the filler is `n` spaces |
| Chunking.Piece | UDPClient.java:48-49 | definition of `copyOfRange(fileData, start, min(start + 10, length))`; covered by ChunksCoverFile |
| Chunking.Pad | UDPClient.java:52-55 | definition of the padding to ten bytes; its shape is PadShape |
| Chunking.Chunk | UDPClient.java:48-55 | definition: the padded piece at `start`; its shape is ChunksCoverFile |
| Chunking.Pieces | UDPClient.java:46-58 | definition: the unpadded pieces in order; they concatenate to the file (ChunksCoverFile) |
| Chunking.Chunks | UDPClient.java:46-58 | definition: the payloads the loop sends, in order; their count, shape and cover are ChunksCoverFile |
| Chunking.PadShape | UDPClient.java:52-55 | a padded payload is exactly ten bytes: the piece, then only spaces |
| Chunking.ChunksFrom | UDPClient.java:46-58 | from offset `start` the payloads are the chunk at `start`, then those from `start + 10` |
| Chunking.ChunksCoverFile | UDPClient.java:45-58 | the file becomes ceil(length / 10) payloads; payload i is piece i padded; every piece but the last is ten bytes; the pieces concatenated give the file back |
| Chunking.HelloWorldChunks | UDPClient.java:48-55 | `"HELLO WORLD"` is sent as `"HELLO WORL"` and `"D"` padded with nine spaces |
| SenderSpec.HandleResponse | UDPClient.java:104-110 | processing a response only grows `ackedPackets`, only removes entries of `sentPackets`, and sends, arms and renumbers nothing |
| SenderSpec.Start | UDPClient.java:21-27 | definition of the client's initial state; the class constructor is proved equal to it |
| SenderSpec.Transmit | UDPClient.java:77-89 | definition of a lossless `sendPacket`: wire, `sentPackets` and armed timer; the class's SendPacket is proved equal to it |
| SenderSpec.HandleResponseEffect | UDPClient.java:106-110 | `ACK n` adds `n` to `ackedPackets`, removes exactly key `n` from `sentPackets` and applies one congestion signal; other responses change nothing; an unreadable number is an exception |
| SenderSpec.WaitForAck | UDPClient.java:99-115 | `waitForAck` completes only once `ackedPackets.size() >= sentPackets.size()`, and blocks only when no datagram is left |
| SenderSpec.WaitForAckFrame | UDPClient.java:99-115 | waiting only receives: it sends nothing, only grows `ackedPackets`, only removes from `sentPackets`, and changes nothing when it consumes nothing |
| SenderSpec.WaitIgnoringNonAcks | UDPClient.java:106 | datagrams that are not ACKs leave the bookkeeping and the window as they were |
| SenderSpec.TimeoutEffect | UDPClient.java:121-133 | a timer resends only while its number is unacknowledged and in `sentPackets`; it then penalises the window and resends the stored payload under the same number, and changes nothing else |
| SenderSpec.TimerDue | UDPClient.java:121 | definition of the timer's guard; used by TimeoutEffect and the findings |
| SenderSpec.Timeout | UDPClient.java:121-133 | definition of one timer callback; its effect is TimeoutEffect |
| SenderSpec.TimeoutResendsSamePacket | UDPClient.java:133 | the resent text decodes to the same sequence number and the stored payload with its CRC |
| SenderSpec.FillWindow | UDPClient.java:47-60 | the inner loop never moves backwards, leaves the inbox alone, and changes nothing when it sends nothing |
| SenderSpec.FillWindowGate | UDPClient.java:47 | the inner loop sends a chunk only while `sentPackets.size() < cwnd`, never takes the table past `max(size, cwnd)`, stops before the end of the file only with a full table, and leaves the window alone |
| SenderSpec.SendChunk | UDPClient.java:48-58 | definition of one pass of the inner loop; its plan step is SendChunkFollowsPlan |
| SenderSpec.SendDataFrom | UDPClient.java:44-63 | definition of `sendData`'s outer loop; its properties are SendDataFollowsPlan and FullWindowSendsNothingWithoutAck |
| SenderSpec.FullWindowSendsNothingWithoutAck | UDPClient.java:47 | while `sentPackets.size() >= cwnd` and no ACK arrives, `sendData` issues no new chunk and does not complete |
| SenderSpec.SendAndWait | UDPClient.java:158-162 | `sendPacket` and then `waitForAck` put exactly one packet on the wire |
| SenderSpec.SendNextAndWait | UDPClient.java:168-173 | the same, under `sequenceNumber.getAndIncrement()`, which it advances by one |
| SenderSpec.Finish | UDPClient.java:166-173 | the end of the handshake puts at most the digest packet and FIN on the wire, under the next two numbers, and both when it completes |
| SenderSpec.HandShake | UDPClient.java:157-174 | definition of `startHandShaking`; its properties are HandShakeFollowsPlan and HandShakeSendsTransfer |
| SenderSpec.Packets | UDPClient.java:57 | one packet per payload, numbered consecutively |
| SenderSpec.TransferPackets | UDPClient.java:157-174 | definition of every packet a transfer sends, in order; its layout is TransferPacketsSplit |
| SenderSpec.TransferPacketsNumbered | UDPClient.java:157-172 | packet i of a transfer carries payload i and its CRC under sequence number i, and its text decodes back to those fields |
| SenderSpec.TransferPacketsSplit | UDPClient.java:158-172 | the transfer is SYN under 0, the name under 1, the chunks from 2, then HASH and FIN under the next two numbers |
| SenderSpec.SendChunkFollowsPlan | UDPClient.java:57-58 | sending the chunk at `start` moves the next planned packet onto the wire |
| SenderSpec.FillWindowFollowsPlan | UDPClient.java:47-60 | filling the window hands over the next planned packets, in order, and nothing else |
| SenderSpec.SendDataFollowsPlan | UDPClient.java:44-63 | whatever ACKs arrive, `sendData` hands over a prefix of the file's chunks in order under consecutive numbers, and all of them when it completes |
| SenderSpec.DataPhaseFollowsPlan | UDPClient.java:164 | after SYN and the name, the data phase hands over a prefix of the data packets, and all of them when it completes |
| SenderSpec.OpeningFollowsPlan | UDPClient.java:158-162 | SYN and the name are the first two packets on the wire |
| SenderSpec.ClosingFollowsPlan | UDPClient.java:164-173 | the data, the digest and FIN complete the plan |
| SenderSpec.HandShakeFollowsPlan | UDPClient.java:157-174 | from a state that has sent nothing, the handshake sends a prefix of the plan, and all of it when it completes |
| SenderSpec.HandShakeSendsTransfer | UDPClient.java:157-174 | whatever ACKs arrive, the client hands over a prefix of the transfer's packets in order, and all of them when `startHandShaking` completes |
| UdpClient.Client.constructor | UDPClient.java:21-27 | the static initialisers: `cwnd = 1`, `threshold = 64`, `sequenceNumber = 2`, empty tables |
| UdpClient.Client.ManageCongestionControl | UDPClient.java:147-155 | updates the fields exactly as `OnAck` |
| UdpClient.Client.SendPacket | UDPClient.java:77-89 | frames the content, puts it on the wire, records it in `sentPackets` and arms its timer |
| UdpClient.Client.HandleResponse | UDPClient.java:104-110 | updates the fields exactly as `SenderSpec.HandleResponse`, or reports the exception |
| UdpClient.Client.WaitForAck | UDPClient.java:99-115 | its loop has exactly the effect of `SenderSpec.WaitForAck` |
| UdpClient.Client.OnTimer | UDPClient.java:121-133 | the timer body has exactly the effect of `SenderSpec.Timeout` |
| UdpClient.Client.FillWindow | UDPClient.java:47-60 | the inner loop has exactly the effect of `SenderSpec.FillWindow` |
| UdpClient.Client.SendData | UDPClient.java:44-63 | the outer loop has exactly the effect of `SenderSpec.SendDataFrom` |
| UdpClient.Client.StartHandShaking | UDPClient.java:157-174 | the whole handshake has exactly the effect of `SenderSpec.HandShake` |
| UdpClient.Client.Finish | UDPClient.java:166-173 | the digest and FIN exchange has exactly the effect of `SenderSpec.Finish` |
| ReceiverSpec.Message | UDPServer.java:25-26 | the text read is the datagram, cut at the 1024-byte buffer |
| ReceiverSpec.Initial | UDPServer.java:14-22 | definition of the server's starting variables; the class constructor is proved equal to it |
| ReceiverSpec.CrcMatches | UDPServer.java:82-86 | definition of `verifyCRC` |
| ReceiverSpec.Accepts | UDPServer.java:34 | definition of the acceptance test; AcceptsExactly shows it decides acceptance |
| ReceiverSpec.HashField | UDPServer.java:45 | `split(":")[1]` after `HASH:`: the whole run up to the next `:` or the end; none, an exception, when only separators follow |
| ReceiverSpec.Classify | UDPServer.java:37-70 | the branch order: only seq 1 is a name; only content starting `HASH:` is a digest |
| ReceiverSpec.Effect | UDPServer.java:37-72 | FIN changes no variable |
| ReceiverSpec.EffectOf | UDPServer.java:37-72 | definition of the branches once the kind is known; the branch lemmas state each effect |
| ReceiverSpec.Reply | UDPServer.java:54-71 | definition: an `ACK` for an accepted packet, then `CLOSE` after FIN; nothing for a discarded one |
| ReceiverSpec.Serve | UDPServer.java:24-77 | definition of the main loop; its properties are ServeMonotone, RedeliveredLater, ServeAppend and TransferDelivers |
| ReceiverSpec.Handle | UDPServer.java:24-77 | FIN leaves the variables unchanged |
| ReceiverSpec.AcceptsExactly | UDPServer.java:34-75 | a decodable packet is accepted exactly when it is in sequence and its CRC matches, and otherwise discarded |
| ReceiverSpec.DiscardChangesNothing | UDPServer.java:73-75 | a discarded packet changes no variable and sends nothing |
| ReceiverSpec.AcceptedAckAndAdvance | UDPServer.java:54-72 | every accepted packet is acknowledged with its number plus one; every accepted packet but FIN advances the counter by exactly one; FIN changes nothing and ends the loop |
| ReceiverSpec.EffectAdvances | UDPServer.java:54-72 | the same in Java `int` arithmetic, where `++` wraps |
| ReceiverSpec.EffectAckAndAdvance | UDPServer.java:54-72 | for an accepted frame: acknowledged with its number plus one, the counter one on unless FIN, and FIN only for content that trims to `FIN` |
| ReceiverSpec.RedeliveryIgnored | UDPServer.java:34-72 | a packet delivered again right after it was accepted is discarded |
| ReceiverSpec.ServeMonotone | UDPServer.java:24-77 | below the `int` wrap, the counter never moves back over a run of datagrams and moves on by at most one per datagram |
| ReceiverSpec.RedeliveredLater | UDPServer.java:24-77 | a packet delivered again after any number of later datagrams (a timer resend overtaken by later packets) is discarded, so no content is appended twice |
| ReceiverSpec.ServerDecodes | UDPServer.java:26-34 | a packet the client builds decodes to its fields and passes the CRC check |
| ReceiverSpec.FrameTextLength | UDPClient.java:80 | a packet's text is at most 23 characters longer than its content |
| ReceiverSpec.HandlePacket | UDPServer.java:34-75 | a packet the client builds takes its branch when in sequence and is discarded otherwise |
| ReceiverSpec.SynResets | UDPServer.java:37-39 | an in-sequence SYN clears the name and the content, whatever its number |
| ReceiverSpec.NameRecorded | UDPServer.java:40-41 | an in-sequence packet under number 1 that is not SYN sets the name to its trimmed content |
| ReceiverSpec.HashRecorded | UDPServer.java:42-57 | an in-sequence `HASH:` stores the digest and is acknowledged whether or not the MD5 matches; the verdict is only reported |
| ReceiverSpec.FinCloses | UDPServer.java:58-67 | an in-sequence packet whose content trims to `FIN` (not under number 1) is acknowledged, changes nothing and ends the loop |
| ReceiverSpec.TrimmedFinIsNotHash | UDPServer.java:42-58 | a content that trims to `FIN` does not start with `HASH:`, so the earlier HASH test does not take it |
| ReceiverSpec.DataAppended | UDPServer.java:68-72 | an in-sequence ordinary packet appends exactly its trimmed content and keeps the existing prefix |
| ReceiverSpec.AbcCrashesServer | UDPServer.java:27 | `"abc:123:data"` makes the server throw |
| UdpServer.Server.constructor | UDPServer.java:14-22 | counter 0, empty content, no name, no hash |
| UdpServer.Server.SendAck | UDPServer.java:95-99 | sends `"ACK " + n` and changes no variable |
| UdpServer.Server.HandleDatagram | UDPServer.java:25-75 | one pass of the loop has exactly the effect of `ReceiverSpec.Handle` |
| UdpServer.Server.Process | UDPServer.java:37-72 | the branches for an accepted packet have exactly the effect of `ReceiverSpec.Effect` |
| UdpServer.Server.Serve | UDPServer.java:24-77 | the loop has exactly the effect of `ReceiverSpec.Serve` |
| Transfer.ServeAppend | UDPServer.java:24-77 | the loop over `a + b` is the loop over `a`, then over `b` if it is still listening |
| Transfer.DataStep | UDPServer.java:68-72 | one in-sequence data packet: its payload appended trimmed, the counter one on, one ACK sent |
| Transfer.DataPhase | UDPServer.java:68-72 | in-order data packets append their trimmed payloads in order and are acknowledged with consecutive numbers |
| Transfer.TextsOfPackets | UDPClient.java:80 | the texts of consecutive packets are the texts of their payloads under consecutive numbers |
| Transfer.TransferTexts | UDPClient.java:157-174 | the traffic of a transfer: SYN, the name, the data packets from 2, the digest, FIN |
| Transfer.ChunksAreData | UDPClient.java:48-55 | every payload fits a datagram |
| Transfer.SynStep | UDPServer.java:37-39 | SYN under 0 takes the initial server to counter 1 and answers `ACK 1` |
| Transfer.NameStep | UDPServer.java:40-41 | the name under 1 is recorded and answered with `ACK 2` |
| Transfer.HashStep | UDPServer.java:42-57 | the digest under the expected number is stored and acknowledged |
| Transfer.FinStep | UDPServer.java:58-67 | FIN ends the loop with the content so far, an ACK and `CLOSE` |
| Transfer.AfterName | UDPServer.java:42-72 | the data packets, the digest and FIN after the name |
| Transfer.Opening | UDPServer.java:37-41 | SYN and then the name, from the initial state |
| Transfer.FromData | UDPServer.java:42-72 | the rest of a transfer after SYN and the name |
| Transfer.TransferDelivers | UDPServer.java:24-77 | a whole transfer, in order and without loss: the server acknowledges 1 to n + 4, sends `CLOSE` and closes with the trimmed name, the client's digest and the trimmed chunks as content |
| Transfer.ClientServerTransfer | UDPClient.java:157-174 | when `startHandShaking` completes, the packets it sent, delivered to a fresh server, have that outcome |
| Transfer.FlattenTrimmed | UDPServer.java:69 | the content assembled from payloads that each trim to a piece is the pieces joined |
| Transfer.TrimPad | UDPServer.java:69 | a piece padded with filler trims back to the piece when its ends are not white |
| Transfer.TrimAll | UDPServer.java:69 | definition: each payload trimmed, in order |
| Transfer.Stored | UDPServer.java:69 | definition of the content the server assembles for a file; its properties are StoredWhenSolid and StoredLength |
| Transfer.StoredWhenSolid | UDPServer.java:69 | the server stores the file unchanged if and only if no piece begins or ends with white space |
| Transfer.StoredLength | UDPServer.java:69 | the stored content is never longer than the file, and as long only when every piece is solid |
| Transfer.HelloWorldTrimmed | UDPServer.java:69 | the payloads of `"HELLO WORLD"` trim to `"HELLO WORL"` and `"D"` |
| Transfer.StoredOfTwo | UDPServer.java:69 | a file of two payloads is stored as the two trimmed payloads, in order |
| Transfer.HelloWorldStored | UDPServer.java:69 | `"HELLO WORLD"` is stored as sent |
| Transfer.HelloWorldIsData | UDPServer.java:37-70 | neither payload of `"HELLO WORLD"` takes a control branch |
| Transfer.ReportHelloWorld | UDPServer.java:47-60 | `report.txt` holding `"HELLO WORLD"`, sent without loss: the server closes with that content under that name, and the digest the server stores equals the MD5 of the content it ends with. That content is what the HASH branch compares, but the logged verdict itself is not carried to the end of the loop |
| Findings.AckOfNextLeavesTimerDue | UDPClient.java:106-109 | the server's `ACK s+1` for packet s leaves s unacknowledged and its timer due |
| Findings.SynTimerFiresAfterAck | UDPClient.java:157-159 | after `ACK 1` for SYN, `waitForAck` returns with the SYN timer still due; it resets the window and resends SYN |
| Findings.SynAnsweredBy | UDPClient.java:99-115 | the same for any datagram the client reads as `ACK 1` |
| Findings.HandleResponseCorrected | UDPClient.java:106-110 | the corrected processing only acknowledges, and fails only on an unreadable number |
| Findings.AckOfNextClearsTimer | UDPClient.java:106-109 | with the correction, `ACK s+1` acknowledges exactly the packet s and leaves every other timer as it was |
| Findings.TrailingNewlineLost | UDPServer.java:69 | `"HELLO\n"` is stored as `"HELLO"` |
| Findings.Padding | UDPClient.java:52-55 | the filler a file's last payload carries makes its length a multiple of ten |
| Findings.RestoreFile | UDPServer.java:69 | definition of the corrected reconstruction; its property is RestoreFileRoundTrip |
| Findings.DropFiller | UDPServer.java:69 | the result is a prefix of the text and does not end with filler |
| Findings.FlattenChunks | UDPClient.java:44-58 | the payloads joined are the file followed by its filler |
| Findings.DropFillerOfPadded | UDPServer.java:69 | removing trailing filler from a padded text gives it back when it does not end with filler |
| Findings.RestoreFileRoundTrip | UDPServer.java:69 | the corrected reconstruction rebuilds every file that is empty or does not end with a space |
| Findings.TrailingNewlineRestored | UDPServer.java:69 | the corrected reconstruction keeps the newline of `"HELLO\n"` |

## Left out

- Sockets: `DatagramSocket`, `InetAddress` and the blocking `receive` are modelled as sequences of datagrams. The client's `waitForCloseMessage`, `System.exit` and the server's `serverSocket.close` are network teardown and are not modelled.
- Timers: `java.util.Timer` threads and their races with the main flow are concurrency and are not modelled. `Timeout` is one callback's effect, to be applied between any two steps.
- `Thread.sleep` pacing is timing only and is not modelled.
- The random loss simulator and its recursive resend use a `double` probability and randomness; a send always succeeds once.
- CRC-32, MD5 and `HexFormat` are library code. They are function parameters, so the model assumes nothing of them beyond determinism, except that Transfer.TransferDelivers and Transfer.ReportHelloWorld require the MD5 text to be non-empty, free of `:` and at most 996 characters (see the Transfer.TransferDelivers line below).
- `saveFile` is file I/O. The `received_files` directory and UUID naming are left out too; the model returns the content and the name the server would save.
- Reading the file with `Files.readAllBytes` is I/O; the file is a parameter.
- Default-charset conversions between `String` and `byte[]` are treated as ASCII identity.
- `nextSeq`: the client's `AtomicInteger` is an exact integer, because no transfer reaches 2^31 packets.
- The log output of the MD5 comparison is kept only as a verdict in `ReceiverSpec.Step`.
- SenderSpec.WaitForAck: no lemma states that it consumes a prefix of the inbox; only that it consumes datagrams.
- Transfer.TransferDelivers: assumes in-order, lossless, duplicate-free delivery.
  - It requires a digest of at most 996 characters without `:`, a name of at most 1001 characters that does not trim to `SYN`, and no payload that trims to `SYN` or `FIN` or starts with `HASH:`.
  - Loss and retransmission are covered only by separate lemmas: `ReceiverSpec.RedeliveredLater`, `ReceiverSpec.DiscardChangesNothing` and `SenderSpec.TimeoutEffect`.
- Transfer.ClientServerTransfer: it does not feed the server's ACKs back into the client's inbox. The client and the server are related only through the packets on the wire.
- Findings.HandleResponseCorrected: it is not wired into `UdpClient.Client`, which models the code as written.
- Findings.RestoreFile: it is not wired into `UdpServer.Server`, which models the code as written.

## Findings

| source | as written | input that shows it | evidently intended | confidence | as-written member | corrected member |
|---|---|---|---|---|---|---|
| UDPClient.java:106-109 | `ACK n` marks packet n as acknowledged, but the server answers packet s with `ACK s+1` (UDPServer.java:54, 62, 71) | SYN is sent under 0 and `ACK 1` arrives: 0 stays in `sentPackets` and out of `ackedPackets`, so the SYN timer fires, resets the window and resends SYN | an `ACK` stops the timer of the packet it answers | not executed | Findings.SynTimerFiresAfterAck | Findings.AckOfNextClearsTimer |
| UDPServer.java:69 | every data payload is trimmed, which removes white space belonging to the file as well as the filler | the file `"HELLO\n"` is stored as `"HELLO"` | only the filler padding the last payload is removed | not executed | Findings.TrailingNewlineLost | Findings.RestoreFileRoundTrip |

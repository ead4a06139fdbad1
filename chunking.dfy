/**
 * How UDPClient.sendData cuts the file into data packets: consecutive pieces of
 * PACKET_SIZE = 10 bytes, the last one padded with ' ' up to 10 bytes.
 */
module Chunking {
  import opened JavaLib

  const PACKET_SIZE: nat := 10
  const FILLER: char := ' '

  function Min(a: int, b: int): int
  {
    if a <= b then a else b
  }

  function Fill(n: nat): (r: string)
    ensures |r| == n && forall k :: 0 <= k < n ==> r[k] == FILLER
  {
    seq(n, _ => FILLER)
  }

  /** Arrays.copyOf(packetData, PACKET_SIZE) followed by Arrays.fill with ' '. */
  function Pad(s: string): string
    requires |s| <= PACKET_SIZE
  {
    s + Fill(PACKET_SIZE - |s|)
  }

  /** The piece of the file the loop copies at `start`: copyOfRange(fileData, start, min(start + 10, length)). */
  function Piece(data: string, start: nat): string
    requires start < |data|
  {
    data[start..Min(start + PACKET_SIZE, |data|)]
  }

  /** The payload sendData sends when its loop variable is `start`. */
  function Chunk(data: string, start: nat): string
    requires start < |data|
  {
    Pad(Piece(data, start))
  }

  /** The unpadded pieces of the file, in order. */
  function Pieces(data: string): seq<string>
    decreases |data|
  {
    if data == [] then [] else [Piece(data, 0)] + Pieces(data[Min(PACKET_SIZE, |data|)..])
  }

  /** The payloads of all data packets, in order. */
  function Chunks(data: string): seq<string>
    decreases |data|
  {
    if data == [] then [] else [Chunk(data, 0)] + Chunks(data[Min(PACKET_SIZE, |data|)..])
  }

  function Flatten(ss: seq<string>): string
  {
    if ss == [] then [] else ss[0] + Flatten(ss[1..])
  }

  /** Every payload is exactly PACKET_SIZE long: the piece it carries, then only filler. */
  lemma PadShape(s: string)
    requires |s| <= PACKET_SIZE
    ensures |Pad(s)| == PACKET_SIZE && Pad(s)[..|s|] == s
    ensures forall k :: |s| <= k < PACKET_SIZE ==> Pad(s)[k] == FILLER
  {
  }

  /** From offset `start`, the payloads to send are the chunk at `start`, then those after it. */
  lemma ChunksFrom(data: string, start: nat)
    requires start < |data|
    ensures Chunks(data[start..]) == [Chunk(data, start)] + Chunks(data[Min(start + PACKET_SIZE, |data|)..])
  {
    var rest := data[start..];
    assert rest[..Min(PACKET_SIZE, |rest|)] == Piece(data, start);
    assert rest[Min(PACKET_SIZE, |rest|)..] == data[Min(start + PACKET_SIZE, |data|)..];
  }

  /**
   * The file is cut into ceil(length / 10) payloads of exactly ten bytes each;
   * payload i carries piece i followed by filler only; every piece but the last
   * is ten bytes long; and the pieces, concatenated in order, give the file back.
   */
  lemma {:induction false} ChunksCoverFile(data: string)
    ensures |Chunks(data)| == |Pieces(data)| == (|data| + PACKET_SIZE - 1) / PACKET_SIZE
    ensures forall i :: 0 <= i < |Chunks(data)| ==>
      |Pieces(data)[i]| <= PACKET_SIZE && Chunks(data)[i] == Pad(Pieces(data)[i])
    ensures forall i :: 0 <= i < |Pieces(data)| - 1 ==> |Pieces(data)[i]| == PACKET_SIZE
    ensures forall i :: 0 <= i < |Pieces(data)| ==> Pieces(data)[i] != []
    ensures Flatten(Pieces(data)) == data
    decreases |data|
  {
    if data != [] {
      var m := Min(PACKET_SIZE, |data|);
      var rest := data[m..];
      ChunksCoverFile(rest);
      assert Pieces(data)[1..] == Pieces(rest);
      assert Chunks(data)[1..] == Chunks(rest);
      assert data == data[..m] + rest;
      assert |data| <= PACKET_SIZE ==> rest == [];
      forall i | 0 <= i < |Chunks(data)|
        ensures |Pieces(data)[i]| <= PACKET_SIZE && Chunks(data)[i] == Pad(Pieces(data)[i])
      {
        if i > 0 {
          assert Pieces(data)[i] == Pieces(rest)[i - 1];
          assert Chunks(data)[i] == Chunks(rest)[i - 1];
        }
      }
      forall i | 0 <= i < |Pieces(data)| - 1
        ensures |Pieces(data)[i]| == PACKET_SIZE
      {
        if i > 0 {
          assert Pieces(data)[i] == Pieces(rest)[i - 1];
        }
      }
      forall i | 0 <= i < |Pieces(data)|
        ensures Pieces(data)[i] != []
      {
        if i > 0 {
          assert Pieces(data)[i] == Pieces(rest)[i - 1];
        }
      }
    }
  }

  /** The example of an eleven-byte file: "HELLO WORL" and "D" padded to ten bytes. */
  lemma HelloWorldChunks()
    ensures Chunks("HELLO WORLD") == ["HELLO WORL", "D         "]
  {
    var d := "HELLO WORLD";
    assert d[10..] == "D";
    assert "D"[1..] == [];
    assert Chunks(d) == [Chunk(d, 0)] + Chunks("D");
    assert Chunks("D") == [Chunk("D", 0)] + Chunks([]);
    assert Piece(d, 0) == "HELLO WORL";
    assert Fill(0) == [];
    assert Chunk(d, 0) == "HELLO WORL";
    assert Piece("D", 0) == "D";
    assert Fill(9) == "         ";
    assert Chunk("D", 0) == "D         ";
  }
}

/** The segmenter: the file is cut into chunks of at most 1020 bytes (a
    1024-byte datagram less the 4-byte header), each keyed by the byte offset
    of its first byte. */
module Segmenter {
  import opened Wire

  const ChunkSize: nat := 1020

  datatype Chunk = Chunk(offset: int, payload: seq<byte>)

  function Min(a: int, b: int): int {
    if a < b then a else b
  }

  /** The chunk that starts at `offset`: Python's `data[offset:offset +
      1020]`, which stops at the end of the data. */
  function Piece(data: seq<byte>, offset: nat): (p: seq<byte>)
    requires offset < |data|
    ensures |p| == Min(ChunkSize, |data| - offset) && p == data[offset .. offset + |p|]
  {
    data[offset .. Min(offset + ChunkSize, |data|)]
  }

  /** The chunks of `data[offset..]`, in order. */
  function ChunksFrom(data: seq<byte>, offset: nat): seq<Chunk>
    decreases |data| - offset
  {
    if offset >= |data| then []
    else
      var chunk := Piece(data, offset);
      [Chunk(offset, chunk)] + ChunksFrom(data, offset + |chunk|)
  }

  function Chunks(data: seq<byte>): seq<Chunk> {
    ChunksFrom(data, 0)
  }

  /** Total number of payload bytes in a list of chunks. */
  function TotalLen(cs: seq<Chunk>): nat {
    if cs == [] then 0 else |cs[0].payload| + TotalLen(cs[1..])
  }

  /** The payloads of a list of chunks, concatenated. */
  function Concat(cs: seq<Chunk>): seq<byte> {
    if cs == [] then [] else cs[0].payload + Concat(cs[1..])
  }

  /** Every chunk is a non-empty slice of at most 1020 bytes of `data`,
      starting at its offset. */
  ghost predicate SlicesOf(data: seq<byte>, cs: seq<Chunk>) {
    forall i :: 0 <= i < |cs| ==>
      && 0 < |cs[i].payload| <= ChunkSize
      && 0 <= cs[i].offset
      && cs[i].offset + |cs[i].payload| <= |data|
      && cs[i].payload == data[cs[i].offset .. cs[i].offset + |cs[i].payload|]
  }

  /** Each offset is `start` plus the lengths of the chunks before it. */
  ghost predicate OffsetsFrom(cs: seq<Chunk>, start: int) {
    forall i :: 0 <= i < |cs| ==> cs[i].offset == start + TotalLen(cs[..i])
  }

  /** What the chunk list promises: non-empty chunks of at most 1020 bytes,
      each offset the sum of the lengths before it, and together exactly the
      data. */
  ghost predicate Segmentation(data: seq<byte>, cs: seq<Chunk>) {
    SlicesOf(data, cs) && OffsetsFrom(cs, 0) && Concat(cs) == data
  }

  lemma {:induction false} ChunksFromSlices(data: seq<byte>, offset: nat)
    ensures SlicesOf(data, ChunksFrom(data, offset))
    decreases |data| - offset
  {
    if offset < |data| {
      var chunk := Piece(data, offset);
      var rest := ChunksFrom(data, offset + |chunk|);
      ChunksFromSlices(data, offset + |chunk|);
      var cs := ChunksFrom(data, offset);
      assert cs == [Chunk(offset, chunk)] + rest;
      forall i | 0 <= i < |cs|
        ensures 0 < |cs[i].payload| <= ChunkSize && 0 <= cs[i].offset
        ensures cs[i].offset + |cs[i].payload| <= |data|
        ensures cs[i].payload == data[cs[i].offset .. cs[i].offset + |cs[i].payload|]
      {
        if i > 0 {
          assert cs[i] == rest[i - 1];
        }
      }
    }
  }

  lemma {:induction false} ChunksFromOffsets(data: seq<byte>, offset: nat)
    ensures OffsetsFrom(ChunksFrom(data, offset), offset)
    decreases |data| - offset
  {
    var cs := ChunksFrom(data, offset);
    if offset < |data| {
      var chunk := Piece(data, offset);
      var rest := ChunksFrom(data, offset + |chunk|);
      ChunksFromOffsets(data, offset + |chunk|);
      assert cs == [Chunk(offset, chunk)] + rest;
      forall i | 0 <= i < |cs|
        ensures cs[i].offset == offset + TotalLen(cs[..i])
      {
        if i > 0 {
          assert cs[..i][1..] == rest[..i - 1];
          assert cs[i] == rest[i - 1];
        }
      }
    }
  }

  lemma {:induction false} ChunksFromConcat(data: seq<byte>, offset: nat)
    requires offset <= |data|
    ensures Concat(ChunksFrom(data, offset)) == data[offset..]
    decreases |data| - offset
  {
    if offset < |data| {
      var chunk := Piece(data, offset);
      ChunksFromConcat(data, offset + |chunk|);
      assert data[offset..] == chunk + data[offset + |chunk|..];
    }
  }

  /** The chunking of the file has every property the sender relies on; an
      empty file gives no chunks. */
  lemma ChunksAreSegmentation(data: seq<byte>)
    ensures Segmentation(data, Chunks(data))
    ensures Chunks(data) == [] <==> data == []
  {
    ChunksFromSlices(data, 0);
    ChunksFromOffsets(data, 0);
    ChunksFromConcat(data, 0);
    assert data[0..] == data;
  }

  lemma {:induction false} TotalLenPrefix(cs: seq<Chunk>, i: nat)
    requires i < |cs|
    ensures TotalLen(cs[..i + 1]) == TotalLen(cs[..i]) + |cs[i].payload|
  {
    if i > 0 {
      assert cs[..i + 1][1..] == cs[1..][..i];
      assert cs[..i][1..] == cs[1..][..i - 1];
      TotalLenPrefix(cs[1..], i - 1);
    }
  }

  lemma {:induction false} OffsetsStrict(cs: seq<Chunk>, start: int, i: nat, j: nat)
    requires i < j < |cs|
    requires OffsetsFrom(cs, start)
    requires forall k :: 0 <= k < |cs| ==> 0 < |cs[k].payload|
    ensures cs[i].offset < cs[j].offset
    decreases j - i
  {
    TotalLenPrefix(cs, j - 1);
    if i < j - 1 {
      OffsetsStrict(cs, start, i, j - 1);
    }
  }

  /** Chunk offsets strictly increase, so chunks are sent in offset order
      whenever they are sent in index order. */
  lemma OffsetsIncrease(data: seq<byte>, i: nat, j: nat)
    requires i < j < |Chunks(data)|
    ensures Chunks(data)[i].offset < Chunks(data)[j].offset
  {
    var cs := Chunks(data);
    ChunksAreSegmentation(data);
    assert SlicesOf(data, cs) && OffsetsFrom(cs, 0);
    OffsetsStrict(cs, 0, i, j);
  }

  /** Every chunk's offset fits the sequence header. */
  predicate HeadersFit(cs: seq<Chunk>) {
    forall i :: 0 <= i < |cs| ==> IsInt32(cs[i].offset)
  }

  /** The packet of each chunk, in order. */
  function ChunkPackets(cs: seq<Chunk>): seq<seq<byte>>
    requires HeadersFit(cs)
  {
    seq(|cs|, i requires 0 <= i < |cs| => Encode(cs[i].offset, cs[i].payload))
  }

  lemma ChunkPacketsCons(c: Chunk, cs: seq<Chunk>)
    requires IsInt32(c.offset) && HeadersFit(cs)
    ensures HeadersFit([c] + cs)
    ensures ChunkPackets([c] + cs) == [Encode(c.offset, c.payload)] + ChunkPackets(cs)
  {
    var all := [c] + cs;
    forall i | 0 < i < |all| ensures all[i] == cs[i - 1] && IsInt32(all[i].offset) {
    }
    var ps, tail := ChunkPackets(all), ChunkPackets(cs);
    assert |ps| == |tail| + 1;
    forall i | 0 < i < |ps| ensures ps[i] == tail[i - 1] {
    }
    assert ps == [ps[0]] + tail;
  }

  lemma ChunkPacketsLast(cs: seq<Chunk>)
    requires cs != [] && HeadersFit(cs)
    ensures HeadersFit(cs[..|cs| - 1])
    ensures ChunkPackets(cs) == ChunkPackets(cs[..|cs| - 1]) + [Encode(cs[|cs| - 1].offset, cs[|cs| - 1].payload)]
  {
    var init := cs[..|cs| - 1];
    assert forall i :: 0 <= i < |init| ==> init[i] == cs[i];
  }

  /** The packets of two adjacent stretches of a chunk list, joined. */
  lemma ChunkPacketsSplit(cs: seq<Chunk>, a: nat, b: nat, c: nat)
    requires a <= b <= c <= |cs| && HeadersFit(cs[a..b]) && HeadersFit(cs[b..c])
    ensures HeadersFit(cs[a..c])
    ensures ChunkPackets(cs[a..c]) == ChunkPackets(cs[a..b]) + ChunkPackets(cs[b..c])
  {
    forall i | 0 <= i < c - a ensures cs[a..c][i] == (if i < b - a then cs[a..b][i] else cs[b..c][i - (b - a)]) {
    }
    var l, r := ChunkPackets(cs[a..c]), ChunkPackets(cs[a..b]) + ChunkPackets(cs[b..c]);
    assert |l| == |r|;
    forall i | 0 <= i < |l| ensures l[i] == r[i] {
    }
  }

  /** The loop of `send_file` that builds the chunk list. */
  method Segment(fileData: seq<byte>) returns (chunks: seq<Chunk>)
    ensures chunks == Chunks(fileData)
    ensures Segmentation(fileData, chunks)
  {
    chunks := [];
    var byteOffset := 0;
    while byteOffset < |fileData|
      invariant byteOffset <= |fileData|
      invariant chunks + ChunksFrom(fileData, byteOffset) == Chunks(fileData)
      decreases |fileData| - byteOffset
    {
      var chunk := Piece(fileData, byteOffset);
      chunks := chunks + [Chunk(byteOffset, chunk)];
      byteOffset := byteOffset + |chunk|;
    }
    ChunksAreSegmentation(fileData);
  }
}

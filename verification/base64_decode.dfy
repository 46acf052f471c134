/**
 * Decoding a Base64 string into bytes: the size computation, the decoding
 * of each chunk, and `toArrayBuffer`, which writes the chunks one after the
 * other into a buffer allocated up front. The definitions named
 * `...AsWritten` model the source's code where it departs from the evident
 * intent; the others model the intent and are what the decoder uses.
 */
module Base64Decode {
  import opened Wrappers
  import opened Base64
  import opened Base64Chunks

  /** Every chunk lies within `s`. */
  predicate WithinString(s: string, chunks: seq<Chunk>) {
    forall k :: 0 <= k < |chunks| ==> chunks[k].start <= chunks[k].end < |s|
  }

  /**
   * The bytes of one chunk: the table values of its valid characters, in
   * order and skipping every other character, decoded four at a time and
   * then the remainder.
   */
  function WriteChunk(s: string, ch: Chunk): (bytes: seq<Byte>)
    requires ch.start <= ch.end < |s|
    ensures |bytes| == OutputSize(CountValid(s[ch.start..ch.end + 1]))
  {
    ChunkBytes(ValidSextets(s[ch.start..ch.end + 1]))
  }

  /**
   * `writeChunk` as written: its skip loops pass the character index, a
   * number, to `isValidChar`, which calls `charCodeAt` on it and throws.
   * The loops run for every group of four and for a remainder of 2 or 3,
   * so every chunk of two or more characters throws (`None`); a chunk of
   * one character writes nothing.
   */
  function WriteChunkAsWritten(s: string, ch: Chunk): (r: Option<seq<Byte>>)
    ensures r.None? <==> ch.count >= 2
    ensures r.Some? ==> r.value == []
  {
    if ch.count / 4 > 0 || ch.count % 4 == 2 || ch.count % 4 == 3 then None else Some([])
  }

  /** The size `toArrayBuffer` allocates: every chunk adds `(count - count % 4) * 3 + count % 4`. */
  function TotalSizeAsWritten(chunks: seq<Chunk>): nat {
    if |chunks| == 0 then 0
    else
      var c := chunks[|chunks| - 1].count;
      TotalSizeAsWritten(chunks[..|chunks| - 1]) + (c - c % 4) * 3 + c % 4
  }

  /** The size the chunks decode to: the sum of their output sizes. */
  function TotalSize(chunks: seq<Chunk>): nat {
    if |chunks| == 0 then 0
    else TotalSize(chunks[..|chunks| - 1]) + OutputSize(chunks[|chunks| - 1].count)
  }

  /** The bytes of the chunks, one after the other. */
  function DecodeChunks(s: string, chunks: seq<Chunk>): seq<Byte>
    requires WithinString(s, chunks)
  {
    if |chunks| == 0 then []
    else DecodeChunks(s, chunks[..|chunks| - 1]) + WriteChunk(s, chunks[|chunks| - 1])
  }

  /** The bytes a Base64 string decodes to. */
  function Decode(s: string): seq<Byte> {
    ScanWellFormed(s);
    DecodeChunks(s, ExtractChunks(s))
  }

  /** The number of bytes the chunks of the given lengths fill: where the next chunk belongs. */
  function Written(lengths: seq<nat>): nat {
    if |lengths| == 0 then 0 else Written(lengths[..|lengths| - 1]) + lengths[|lengths| - 1]
  }

  /**
   * `dstOffset` after each chunk as written: the offset `writeChunk`
   * returns is already absolute but is added to the old offset again. It
   * never falls behind the bytes actually written, and it runs ahead of
   * them exactly when some chunk before the last one wrote bytes.
   */
  function DstOffsetAsWritten(lengths: seq<nat>): (offset: nat)
    ensures |lengths| > 0 && lengths[|lengths| - 1] > 0 ==> offset > DstOffsetAsWritten(lengths[..|lengths| - 1])
    ensures Written(lengths) <= offset
    ensures offset == 0 <==> Written(lengths) == 0
    ensures |lengths| > 0 ==> (offset > Written(lengths) <==> Written(lengths[..|lengths| - 1]) > 0)
  {
    if |lengths| == 0 then 0
    else
      var before := DstOffsetAsWritten(lengths[..|lengths| - 1]);
      before + (before + lengths[|lengths| - 1])
  }

  // ---------------------------------------------------------------------
  // Sizes
  // ---------------------------------------------------------------------

  lemma ChunkSize(s: string, ch: Chunk)
    requires ChunkOf(s, ch)
    ensures |WriteChunk(s, ch)| == OutputSize(ch.count)
  {}

  lemma TotalSizeSplit(chunks: seq<Chunk>, i: nat)
    requires i < |chunks|
    ensures TotalSize(chunks[..i + 1]) == TotalSize(chunks[..i]) + OutputSize(chunks[i].count)
  {
    assert chunks[..i + 1][..i] == chunks[..i];
  }

  lemma {:induction false} TotalSizeMonotone(chunks: seq<Chunk>, i: nat)
    requires i <= |chunks|
    ensures TotalSize(chunks[..i]) <= TotalSize(chunks)
    decreases |chunks| - i
  {
    if i < |chunks| {
      TotalSizeSplit(chunks, i);
      TotalSizeMonotone(chunks, i + 1);
    } else {
      assert chunks[..i] == chunks;
    }
  }

  lemma DecodeChunksSplit(s: string, chunks: seq<Chunk>, i: nat)
    requires WithinString(s, chunks) && i < |chunks|
    ensures WithinString(s, chunks[..i]) && WithinString(s, chunks[..i + 1])
    ensures DecodeChunks(s, chunks[..i + 1]) == DecodeChunks(s, chunks[..i]) + WriteChunk(s, chunks[i])
  {
    assert chunks[..i + 1][..i] == chunks[..i];
  }

  /** The chunks of a string decode to exactly as many bytes as their total size. */
  lemma {:induction false} DecodeChunksLength(s: string, chunks: seq<Chunk>)
    requires forall k :: 0 <= k < |chunks| ==> ChunkOf(s, chunks[k])
    ensures WithinString(s, chunks) && |DecodeChunks(s, chunks)| == TotalSize(chunks)
    decreases |chunks|
  {
    if |chunks| > 0 {
      DecodeChunksLength(s, chunks[..|chunks| - 1]);
      ChunkSize(s, chunks[|chunks| - 1]);
    }
  }

  /** The corrected size is what the decoded string needs. */
  lemma DecodeLength(s: string)
    ensures |Decode(s)| == TotalSize(ExtractChunks(s))
  {
    ScanWellFormed(s);
    DecodeChunksLength(s, ExtractChunks(s));
  }

  /**
   * The size as written never falls short of the size needed, and exceeds
   * it as soon as one chunk is non-empty.
   */
  lemma {:induction false} TotalSizeAsWrittenExceeds(chunks: seq<Chunk>)
    ensures TotalSizeAsWritten(chunks) >= TotalSize(chunks)
    ensures (exists k :: 0 <= k < |chunks| && chunks[k].count > 0) ==> TotalSizeAsWritten(chunks) > TotalSize(chunks)
    decreases |chunks|
  {
    if |chunks| > 0 {
      var n := |chunks| - 1;
      TotalSizeAsWrittenExceeds(chunks[..n]);
      var c := chunks[n].count;
      assert c - c % 4 == 4 * (c / 4);
      if exists k :: 0 <= k < |chunks| && chunks[k].count > 0 {
        var k :| 0 <= k < |chunks| && chunks[k].count > 0;
        if k < n {
          assert chunks[..n][k] == chunks[k];
        }
      }
    }
  }

  /** "AAAA=" needs 3 bytes; the size as written is 12. */
  lemma TotalSizeAsWrittenOverAllocates()
    ensures TotalSize([Chunk(0, 4, 3)]) == 3
    ensures TotalSizeAsWritten([Chunk(0, 4, 3)]) == 12
  {
    assert [Chunk(0, 4, 3)][..0] == [];
  }

  /** The buffer after `bytes` are stored one by one from `offset` on. */
  function WriteAt(buffer: seq<Byte>, offset: nat, bytes: seq<Byte>): (r: seq<Byte>)
    requires offset + |bytes| <= |buffer|
    ensures |r| == |buffer|
    ensures r[..offset + |bytes|] == buffer[..offset] + bytes
    ensures r[offset + |bytes|..] == buffer[offset + |bytes|..]
  {
    buffer[..offset] + bytes + buffer[offset + |bytes|..]
  }

  // ---------------------------------------------------------------------
  // toArrayBuffer
  // ---------------------------------------------------------------------

  /**
   * Extracts the chunks, sums their sizes, allocates a zero-filled buffer
   * of that size, and writes each chunk's bytes where the previous chunk's
   * ended.
   */
  method ToArrayBuffer(s: string) returns (buffer: seq<Byte>)
    ensures buffer == Decode(s)
    ensures |buffer| == TotalSize(ExtractChunks(s))
  {
    var chunks := ExtractChunks(s);
    ScanWellFormed(s);
    DecodeChunksLength(s, chunks);
    var totalSize := 0;
    for i := 0 to |chunks|
      invariant totalSize == TotalSize(chunks[..i])
    {
      TotalSizeSplit(chunks, i);
      totalSize := totalSize + OutputSize(chunks[i].count);
    }
    assert chunks[..|chunks|] == chunks;
    buffer := seq(totalSize, _ => 0);
    var dstOffset := 0;
    for i := 0 to |chunks|
      invariant |buffer| == totalSize
      invariant WithinString(s, chunks[..i])
      invariant dstOffset == TotalSize(chunks[..i]) <= totalSize
      invariant buffer[..dstOffset] == DecodeChunks(s, chunks[..i])
    {
      var bytes := WriteChunk(s, chunks[i]);
      ChunkSize(s, chunks[i]);
      TotalSizeSplit(chunks, i);
      TotalSizeMonotone(chunks, i + 1);
      DecodeChunksSplit(s, chunks, i);
      buffer := WriteAt(buffer, dstOffset, bytes);
      dstOffset := dstOffset + |bytes|;
    }
    assert buffer[..dstOffset] == buffer;
  }

  /** Two one-byte chunks: as written the third chunk starts at offset 3, leaving offset 2 unwritten. */
  lemma DstOffsetAsWrittenSkips()
    ensures DstOffsetAsWritten([1, 1]) == 3
    ensures TotalSize([Chunk(0, 2, 1), Chunk(3, 2, 4)]) == 2
  {
    assert [1, 1][..1] == [1];
    assert [1][..0] == [];
    assert [Chunk(0, 2, 1), Chunk(3, 2, 4)][..1] == [Chunk(0, 2, 1)];
    assert [Chunk(0, 2, 1)][..0] == [];
  }
}

/**
 * The decoder against the encoder of section 4 of RFC 4648: a padded
 * encoding followed by `=` decodes back to the bytes; an encoding that does
 * not end in `=` decodes to nothing, because its only chunk is never closed.
 */
module Base64RoundTrip {
  import opened Wrappers
  import opened Base64
  import opened Base64Chunks
  import opened Base64Decode

  lemma CharsAreValid(sx: seq<Sextet>)
    ensures forall k :: 0 <= k < |sx| ==> IsValidChar(Chars(sx)[k])
  {
    forall k | 0 <= k < |sx| ensures IsValidChar(Chars(sx)[k]) {
      CodeMapsToPosition(sx[k] as int);
    }
  }

  lemma CodeCharDecodes(x: Sextet)
    ensures IsValidChar(Base64Code[x as int]) && Lookup(Base64Code[x as int]) == Some(x)
  {
    CodeMapsToPosition(x as int);
  }

  lemma ValidSextetsSnoc(s: string, c: char)
    requires IsValidChar(c)
    ensures ValidSextets(s + [c]) == ValidSextets(s) + [Lookup(c).value]
  {
    assert (s + [c])[..|s|] == s;
  }

  /** The characters of `sx` are those of all but its last sextet, then the last one's. */
  lemma CharsSnoc(sx: seq<Sextet>)
    requires |sx| > 0
    ensures Chars(sx) == Chars(sx[..|sx| - 1]) + [Base64Code[sx[|sx| - 1] as int]]
  {
    var n := |sx| - 1;
    forall k | 0 <= k < n ensures Chars(sx)[k] == Chars(sx[..n])[k] {
      assert sx[..n][k] == sx[k];
    }
  }

  /** Decoding one more code character appends its sextet. */
  lemma DecodeSnoc(sx: seq<Sextet>)
    requires |sx| > 0
    requires ValidSextets(Chars(sx[..|sx| - 1])) == sx[..|sx| - 1]
    ensures ValidSextets(Chars(sx)) == sx
  {
    var n := |sx| - 1;
    var x := sx[n];
    CharsSnoc(sx);
    CodeCharDecodes(x);
    ValidSextetsSnoc(Chars(sx[..n]), Base64Code[x as int]);
    assert sx == sx[..n] + [x];
  }

  /** Reading the code characters of sextets back through the table gives the sextets. */
  lemma {:induction false} CharsDecode(sx: seq<Sextet>)
    ensures ValidSextets(Chars(sx)) == sx
    decreases |sx|
  {
    if |sx| > 0 {
      CharsDecode(sx[..|sx| - 1]);
      DecodeSnoc(sx);
    }
  }

  /** Decoding the sextets of some bytes, in groups of four and then the tail, gives the bytes. */
  lemma {:induction false} SextetsDecode(bytes: seq<Byte>)
    ensures ChunkBytes(Sextets(bytes)) == bytes
    decreases |bytes|
  {
    if |bytes| >= 3 {
      var q := EncodeGroup(bytes[0], bytes[1], bytes[2]);
      var rest := Sextets(bytes[3..]);
      assert (q + rest)[4..] == rest;
      QuadRoundTrip(bytes[0], bytes[1], bytes[2]);
      SextetsDecode(bytes[3..]);
      assert bytes == [bytes[0], bytes[1], bytes[2]] + bytes[3..];
    } else if |bytes| == 2 {
      TripleRoundTrip(bytes[0], bytes[1]);
      assert bytes == [bytes[0], bytes[1]];
    } else if |bytes| == 1 {
      PairRoundTrip(bytes[0]);
      assert bytes == [bytes[0]];
    }
  }

  /** A string whose only chunk covers its first `|v|` characters decodes to the bytes of `v`. */
  lemma DecodeOneRun(s: string, v: string)
    requires 0 < |v| < |s| && s[..|v|] == v
    requires ExtractChunks(s) == [Chunk(0, |v|, |v| - 1)]
    ensures Decode(s) == ChunkBytes(ValidSextets(v))
  {
    var ch := Chunk(0, |v|, |v| - 1);
    var chunks := [ch];
    assert chunks[..0] == [];
    assert WithinString(s, chunks);
    assert Decode(s) == DecodeChunks(s, chunks);
    assert DecodeChunks(s, chunks) == DecodeChunks(s, []) + WriteChunk(s, ch);
    assert s[ch.start..ch.end + 1] == v;
  }

  /** Nothing but `=` decodes to nothing. */
  lemma TerminatorsDecodeToNothing(r: string)
    requires forall u :: 0 <= u < |r| ==> r[u] == '='
    ensures Decode(r) == []
  {
    assert Scan([]).open.None?;
    StrayTerminatorsIgnored([], r);
    assert [] + r == r;
  }

  lemma EncodeShape(bytes: seq<Byte>)
    ensures Encode(bytes) + "=" == Chars(Sextets(bytes)) + "=" + Padding(|bytes|)
    ensures forall u :: 0 <= u < |Padding(|bytes|)| ==> Padding(|bytes|)[u] == '='
  {}

  /** A run of valid characters closed by `=` decodes to the bytes of its sextets. */
  lemma DecodeTerminatedRun(v: string, r: string)
    requires |v| > 0
    requires forall u :: 0 <= u < |v| ==> IsValidChar(v[u])
    requires forall u :: 0 <= u < |r| ==> r[u] == '='
    ensures Decode(v + "=" + r) == ChunkBytes(ValidSextets(v))
  {
    TerminatedRun(v, r);
    assert (v + "=" + r)[..|v|] == v;
    DecodeOneRun(v + "=" + r, v);
  }

  /** Bytes that encode to at least one character decode back from their terminated encoding. */
  lemma DecodeEncodeNonEmpty(bytes: seq<Byte>)
    requires |bytes| > 0
    ensures Decode(Chars(Sextets(bytes)) + "=" + Padding(|bytes|)) == bytes
  {
    var sx := Sextets(bytes);
    EncodeShape(bytes);
    CharsAreValid(sx);
    DecodeTerminatedRun(Chars(sx), Padding(|bytes|));
    CharsDecode(sx);
    SextetsDecode(bytes);
  }

  /** A padded encoding closed by `=` decodes back to the bytes it encodes. */
  lemma DecodeEncode(bytes: seq<Byte>)
    ensures Decode(Encode(bytes) + "=") == bytes
  {
    EncodeShape(bytes);
    if |bytes| == 0 {
      assert Encode(bytes) + "=" == "=";
      TerminatorsDecodeToNothing("=");
    } else {
      DecodeEncodeNonEmpty(bytes);
    }
  }

  /** Without a closing `=`, an encoding whose length is a multiple of four decodes to nothing. */
  lemma UnterminatedDecodesNothing(bytes: seq<Byte>)
    requires |bytes| % 3 == 0
    ensures Decode(Encode(bytes)) == []
  {
    var v := Chars(Sextets(bytes));
    assert Encode(bytes) == v;
    CharsAreValid(Sextets(bytes));
    assert '=' !in v;
    UnterminatedTailIgnored([], v);
    assert [] + v == v;
  }

  lemma EncodeExample()
    ensures Encode([65, 66, 67]) == "QUJD"
  {
    assert [65, 66, 67][3..] == [];
    assert EncodeGroup(65, 66, 67) == [16, 20, 9, 3];
    assert Sextets([65, 66, 67]) == [16, 20, 9, 3];
    CodeChar(16);
    CodeChar(20);
    CodeChar(9);
    CodeChar(3);
    assert Chars([16, 20, 9, 3]) == "QUJD";
  }

  /**
   * "QUJD=" encodes the bytes 65, 66, 67: its one chunk of four characters
   * decodes to them, while `writeChunk` as written throws on it.
   */
  lemma SkipLoopThrows()
    ensures ExtractChunks("QUJD=") == [Chunk(0, 4, 3)]
    ensures Decode("QUJD=") == [65, 66, 67]
    ensures WriteChunkAsWritten("QUJD=", Chunk(0, 4, 3)).None?
  {
    EncodeExample();
    DecodeEncode([65, 66, 67]);
    assert "QUJD" + "=" == "QUJD=";
    var v := "QUJD";
    assert forall u :: 0 <= u < |v| ==> IsValidChar(v[u]);
    TerminatedRun(v, "");
    assert v + "=" + "" == "QUJD=";
  }
}

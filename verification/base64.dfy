/**
 * The Base64 alphabet and group arithmetic: the reverse lookup table (the
 * alphabet of section 4 of RFC 4648 together with the `-` and `_` of its
 * section 5), the character filter, and the bit arithmetic that turns 4, 3
 * or 2 sextets into 3, 2 or 1 bytes. The encoder of section 4 of RFC 4648
 * is defined alongside as the reference the decoder is proved against.
 */
module Base64 {
  import opened Wrappers

  const Upper: string := "ABCDEFGHIJKLMNOPQRSTUVWXYZ"
  const Lower: string := "abcdefghijklmnopqrstuvwxyz"
  const Digits: string := "0123456789"

  /** The 64-character code string; its position `i` holds the character for sextet `i`. */
  const Base64Code: string := Upper + Lower + Digits + "+/"

  /** A six-bit value, as the lookup table stores it. */
  type Sextet = v: bv8 | v < 64
  type Byte = bv8

  /** A character is valid when the lookup table has an entry for it. */
  predicate IsValidChar(c: char) {
    || 'A' <= c <= 'Z' || 'a' <= c <= 'z' || '0' <= c <= '9'
    || c == '+' || c == '-' || c == '/' || c == '_'
  }

  /**
   * The reverse lookup table: every character of the code string maps to
   * its position, and `-` and `_` map to 62 and 63 as well.
   */
  function Lookup(c: char): (r: Option<Sextet>)
    ensures r.Some? <==> IsValidChar(c)
  {
    if 'A' <= c <= 'Z' then Some((c as int - 'A' as int) as bv8)
    else if 'a' <= c <= 'z' then Some((c as int - 'a' as int + 26) as bv8)
    else if '0' <= c <= '9' then Some((c as int - '0' as int + 52) as bv8)
    else if c == '+' || c == '-' then Some(62)
    else if c == '/' || c == '_' then Some(63)
    else None
  }

  /** Number of valid characters in `s`. */
  function CountValid(s: string): (n: nat)
    ensures n <= |s|
  {
    if |s| == 0 then 0
    else CountValid(s[..|s| - 1]) + (if IsValidChar(s[|s| - 1]) then 1 else 0)
  }

  /** The table values of the valid characters of `s`, in order; every other character is skipped. */
  function ValidSextets(s: string): (sx: seq<Sextet>)
    ensures |sx| == CountValid(s)
  {
    if |s| == 0 then []
    else
      var c := s[|s| - 1];
      ValidSextets(s[..|s| - 1]) + (if IsValidChar(c) then [Lookup(c).value] else [])
  }

  /** A string counts no valid character exactly when it has none. */
  lemma {:induction false} CountValidZero(s: string)
    ensures CountValid(s) == 0 <==> forall u :: 0 <= u < |s| ==> !IsValidChar(s[u])
    decreases |s|
  {
    if |s| > 0 {
      var p := s[..|s| - 1];
      CountValidZero(p);
      assert forall u :: 0 <= u < |p| ==> p[u] == s[u];
    }
  }

  // ---------------------------------------------------------------------
  // The lookup table
  // ---------------------------------------------------------------------

  lemma UpperChar(i: int)
    requires 0 <= i < 26
    ensures Upper[i] as int == 'A' as int + i
  {
    var s := "ABCDEFGHIJKLMNOPQRSTUVWXYZ";
    assert s[i] as int == 'A' as int + i;
  }

  lemma LowerChar(i: int)
    requires 0 <= i < 26
    ensures Lower[i] as int == 'a' as int + i
  {
    var s := "abcdefghijklmnopqrstuvwxyz";
    assert s[i] as int == 'a' as int + i;
  }

  lemma DigitChar(i: int)
    requires 0 <= i < 10
    ensures Digits[i] as int == '0' as int + i
  {
    var s := "0123456789";
    assert s[i] as int == '0' as int + i;
  }

  /** Which segment of the code string position `i` falls in. */
  lemma CodeChar(i: int)
    requires 0 <= i < 64
    ensures |Base64Code| == 64
    ensures Base64Code[i] ==
      if i < 26 then Upper[i]
      else if i < 52 then Lower[i - 26]
      else if i < 62 then Digits[i - 52]
      else if i == 62 then '+' else '/'
  {}

  lemma SmallRoundTrip(n: int)
    requires 0 <= n < 64
    ensures (n as bv8) as int == n
  {}

  lemma UpperMaps(i: int)
    requires 0 <= i < 26
    ensures Lookup(Base64Code[i]) == Some(i as bv8)
  {
    CodeChar(i);
    UpperChar(i);
  }

  lemma LowerMaps(i: int)
    requires 26 <= i < 52
    ensures Lookup(Base64Code[i]) == Some(i as bv8)
  {
    CodeChar(i);
    LowerChar(i - 26);
  }

  lemma DigitMaps(i: int)
    requires 52 <= i < 62
    ensures Lookup(Base64Code[i]) == Some(i as bv8)
  {
    CodeChar(i);
    DigitChar(i - 52);
  }

  /** The table-building loop: the character at position `i` of the code string looks up to `i`. */
  lemma CodeMapsToPosition(i: int)
    requires 0 <= i < 64
    ensures |Base64Code| == 64 && Lookup(Base64Code[i]) == Some(i as bv8)
  {
    if i < 26 {
      UpperMaps(i);
    } else if i < 52 {
      LowerMaps(i);
    } else if i < 62 {
      DigitMaps(i);
    } else {
      CodeChar(i);
    }
  }

  lemma UpperBack(c: char)
    requires 'A' <= c <= 'Z'
    ensures Lookup(c).Some? && Base64Code[Lookup(c).value as int] == c
  {
    var v := c as int - 'A' as int;
    CodeChar(v);
    UpperChar(v);
    SmallRoundTrip(v);
  }

  lemma LowerBack(c: char)
    requires 'a' <= c <= 'z'
    ensures Lookup(c).Some? && Base64Code[Lookup(c).value as int] == c
  {
    var v := c as int - 'a' as int;
    CodeChar(v + 26);
    LowerChar(v);
    SmallRoundTrip(v + 26);
  }

  lemma DigitBack(c: char)
    requires '0' <= c <= '9'
    ensures Lookup(c).Some? && Base64Code[Lookup(c).value as int] == c
  {
    var v := c as int - '0' as int;
    CodeChar(v + 52);
    DigitChar(v);
    SmallRoundTrip(v + 52);
  }

  /**
   * The table holds exactly the 64 code characters plus `-` and `_`, and
   * every entry other than those two points back at its own character.
   */
  lemma ValidCharacters(c: char)
    ensures |Base64Code| == 64
    ensures IsValidChar(c) <==> c in Base64Code || c == '-' || c == '_'
    ensures IsValidChar(c) && c != '-' && c != '_' ==> Base64Code[Lookup(c).value as int] == c
  {
    if 'A' <= c <= 'Z' {
      UpperBack(c);
    } else if 'a' <= c <= 'z' {
      LowerBack(c);
    } else if '0' <= c <= '9' {
      DigitBack(c);
    } else {
      CodeChar(62);
      CodeChar(63);
    }
    if c in Base64Code {
      var i :| 0 <= i < |Base64Code| && Base64Code[i] == c;
      CodeMapsToPosition(i);
    }
  }

  // ---------------------------------------------------------------------
  // Group arithmetic
  // ---------------------------------------------------------------------

  /** Sextets `a, b, c, d` give the three bytes, most significant first, of `a<<18 | b<<12 | c<<6 | d`. */
  function DecodeQuad(a: Sextet, b: Sextet, c: Sextet, d: Sextet): (bytes: seq<Byte>)
    ensures |bytes| == 3
    ensures ((bytes[0] as bv32) << 16) | ((bytes[1] as bv32) << 8) | (bytes[2] as bv32)
         == ((a as bv32) << 18) + ((b as bv32) << 12) + ((c as bv32) << 6) + (d as bv32)
  {
    var tmp: bv32 := ((a as bv32) << 18) | ((b as bv32) << 12) | ((c as bv32) << 6) | (d as bv32);
    [((tmp >> 16) & 0xff) as bv8, ((tmp >> 8) & 0xff) as bv8, (tmp & 0xff) as bv8]
  }

  /** Three trailing sextets give the two bytes, most significant first, of `a<<10 | b<<4 | c>>2`. */
  function DecodeTriple(a: Sextet, b: Sextet, c: Sextet): (bytes: seq<Byte>)
    ensures |bytes| == 2
    ensures ((bytes[0] as bv32) << 8) | (bytes[1] as bv32)
         == ((a as bv32) << 10) + ((b as bv32) << 4) + ((c as bv32) >> 2)
  {
    var tmp: bv32 := ((a as bv32) << 10) | ((b as bv32) << 4) | ((c as bv32) >> 2);
    [((tmp >> 8) & 0xff) as bv8, (tmp & 0xff) as bv8]
  }

  /**
   * Two trailing sextets as the source reads them: neither read advances
   * the character index, so the byte is built from the first sextet twice.
   */
  function DecodePairAsWritten(a: Sextet, b: Sextet): (bytes: seq<Byte>)
    ensures |bytes| == 1
    ensures bytes[0] >> 2 == a && bytes[0] & 3 == a >> 4
  {
    var tmp: bv32 := ((a as bv32) << 2) | ((a as bv32) >> 4);
    [(tmp & 0xff) as bv8]
  }

  /** Two trailing sextets give the byte `(a<<2 | b>>4) & 0xff`: the high six bits from `a`, the low two from `b`. */
  function DecodePair(a: Sextet, b: Sextet): (bytes: seq<Byte>)
    ensures |bytes| == 1
    ensures bytes[0] >> 2 == a && bytes[0] & 3 == b >> 4
  {
    var tmp: bv32 := ((a as bv32) << 2) | ((b as bv32) >> 4);
    [(tmp & 0xff) as bv8]
  }

  /** Bytes produced for a remainder of `r` sextets after the full groups. */
  function RemainBytes(r: nat): nat {
    if r == 3 then 2 else if r == 2 then 1 else 0
  }

  /** Bytes a chunk of `count` sextets decodes to. */
  function OutputSize(count: nat): nat {
    (count / 4) * 3 + RemainBytes(count % 4)
  }

  /**
   * The bytes of one chunk's sextets taken in order: full groups of four
   * first, then the remainder; a remainder of one sextet writes nothing.
   */
  function ChunkBytes(sx: seq<Sextet>): (bytes: seq<Byte>)
    ensures |bytes| == OutputSize(|sx|)
    decreases |sx|
  {
    if |sx| >= 4 then DecodeQuad(sx[0], sx[1], sx[2], sx[3]) + ChunkBytes(sx[4..])
    else if |sx| == 3 then DecodeTriple(sx[0], sx[1], sx[2])
    else if |sx| == 2 then DecodePair(sx[0], sx[1])
    else []
  }

  // ---------------------------------------------------------------------
  // The reference encoder (section 4 of RFC 4648)
  // ---------------------------------------------------------------------

  /** Three bytes as four sextets. */
  function EncodeGroup(b0: Byte, b1: Byte, b2: Byte): (sx: seq<Sextet>)
    ensures |sx| == 4
  {
    [b0 >> 2, ((b0 & 3) << 4) | (b1 >> 4), ((b1 & 15) << 2) | (b2 >> 6), b2 & 63]
  }

  /** Two trailing bytes as three sextets, zero-filled on the right. */
  function EncodeTwo(b0: Byte, b1: Byte): (sx: seq<Sextet>)
    ensures |sx| == 3
  {
    [b0 >> 2, ((b0 & 3) << 4) | (b1 >> 4), (b1 & 15) << 2]
  }

  /** One trailing byte as two sextets, zero-filled on the right. */
  function EncodeOne(b0: Byte): (sx: seq<Sextet>)
    ensures |sx| == 2
  {
    [b0 >> 2, (b0 & 3) << 4]
  }

  /** Bytes to sextets, three bytes to four sextets, then the tail. */
  function Sextets(bytes: seq<Byte>): (sx: seq<Sextet>)
    ensures |sx| == (|bytes| / 3) * 4 + (if |bytes| % 3 == 0 then 0 else |bytes| % 3 + 1)
    decreases |bytes|
  {
    if |bytes| >= 3 then EncodeGroup(bytes[0], bytes[1], bytes[2]) + Sextets(bytes[3..])
    else if |bytes| == 2 then EncodeTwo(bytes[0], bytes[1])
    else if |bytes| == 1 then EncodeOne(bytes[0])
    else []
  }

  /** The code characters of a sextet sequence. */
  function Chars(sx: seq<Sextet>): (s: string)
    ensures |s| == |sx|
  {
    seq(|sx|, k requires 0 <= k < |sx| => Base64Code[sx[k] as int])
  }

  /** The padding that completes the last group to four characters. */
  function Padding(n: nat): string {
    if n % 3 == 1 then "==" else if n % 3 == 2 then "=" else ""
  }

  /** The encoding of section 4 of RFC 4648, with padding. */
  function Encode(bytes: seq<Byte>): string {
    Chars(Sextets(bytes)) + Padding(|bytes|)
  }

  // ---------------------------------------------------------------------
  // Group round trips
  // ---------------------------------------------------------------------

  /** A full group decodes back to the three bytes it encodes. */
  lemma QuadRoundTrip(b0: Byte, b1: Byte, b2: Byte)
    ensures var sx := EncodeGroup(b0, b1, b2);
            DecodeQuad(sx[0], sx[1], sx[2], sx[3]) == [b0, b1, b2]
  {}

  /** Decoding a full group loses nothing: re-encoding its bytes gives back the four sextets. */
  lemma QuadInjective(a: Sextet, b: Sextet, c: Sextet, d: Sextet)
    ensures var r := DecodeQuad(a, b, c, d);
            EncodeGroup(r[0], r[1], r[2]) == [a, b, c, d]
  {}

  /** A three-sextet tail decodes back to the two bytes it encodes. */
  lemma TripleRoundTrip(b0: Byte, b1: Byte)
    ensures var sx := EncodeTwo(b0, b1);
            DecodeTriple(sx[0], sx[1], sx[2]) == [b0, b1]
  {}

  /** A two-sextet tail decodes back to the byte it encodes. */
  lemma PairRoundTrip(b0: Byte)
    ensures var sx := EncodeOne(b0);
            DecodePair(sx[0], sx[1]) == [b0]
  {}

  /** The tail as written: "AQ==" encodes the byte 1, whose low bits sit in the second sextet, and decodes to 0. */
  lemma PairAsWrittenLosesLowBits()
    ensures EncodeOne(1) == [0, 16]
    ensures DecodePair(0, 16) == [1]
    ensures DecodePairAsWritten(0, 16) == [0]
  {}
}

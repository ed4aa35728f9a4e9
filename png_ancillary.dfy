/**
 * What the decoder takes from the ancillary chunks (section 4.2 of RFC
 * 2083): the background colour of bKGD, the chromaticities of cHRM and
 * sRGB, the gamma of gAMA, the significant bits of sBIT, the checks of
 * hIST, pHYs and tIME, and the keyword and text of tEXt and zTXt. Four of
 * these (the bKGD colour, the sRGB chromaticity, the tEXt entry and the
 * zTXt keyword) are given twice: as the source computes them and as
 * evidently intended; the decoder uses the second.
 */
module PngAncillary {
  import opened Wrappers
  import opened JavaInt
  import opened PngChunk
  import opened PngHeader
  import opened PngPixels
  import opened PngPass

  // ---------------------------------------------------------------------------
  // expandBits

  /**
   * `expandBits[bits]`: for 1, 2 and 4 bits the 8-bit value of each
   * sample, as Java bytes; null for 0 and 3, and no entry above 4.
   */
  function ExpandBits(bits: int): (r: Result<Option<seq<int8>>, Cause>)
    ensures r.Ok? <==> 0 <= bits <= 4
    ensures r.Ok? ==> (r.value.Some? <==> bits in {1, 2, 4})
    ensures r.Ok? && r.value.Some? ==> |r.value.value| == Pow2(bits)
  {
    assert Pow2(1) == 2 && Pow2(2) == 4 && Pow2(4) == 16;
    if bits == 1 then Ok(Some([Signed8(0x00), Signed8(0xff)]))
    else if bits == 2 then Ok(Some([Signed8(0x00), Signed8(0x55), Signed8(0xaa), Signed8(0xff)]))
    else if bits == 4 then
      Ok(Some([Signed8(0x00), Signed8(0x11), Signed8(0x22), Signed8(0x33), Signed8(0x44), Signed8(0x55),
               Signed8(0x66), Signed8(0x77), Signed8(0x88), Signed8(0x99), Signed8(0xaa), Signed8(0xbb),
               Signed8(0xcc), Signed8(0xdd), Signed8(0xee), Signed8(0xff)]))
    else if bits == 0 || bits == 3 then Ok(None)
    else Fail(IndexOutOfBounds)
  }

  /** Read as unsigned bytes, the table scales each sample to 8 bits: v * 255 / (2^bits - 1). */
  lemma ExpandBitsScale(bits: int, v: nat)
    requires bits in {1, 2, 4} && v < Pow2(bits)
    ensures var t := ExpandBits(bits).value.value;
            Unsigned8(t[v]) == v * 255 / (Pow2(bits) - 1)
  {
    assert Pow2(1) == 2 && Pow2(2) == 4 && Pow2(4) == 16;
    var t := ExpandBits(bits).value.value;
    if bits == 4 {
      ExpandFourBits(v);
    } else {
      assert Unsigned8(t[v]) == v * 255 / (Pow2(bits) - 1);
    }
  }

  /** The 4-bit table repeats the sample in both nibbles. */
  lemma ExpandFourBits(v: nat)
    requires v < 16
    ensures Unsigned8(ExpandBits(4).value.value[v]) == v * 0x11
  {
  }

  /** `expandBits[bits][v]` as the source reads it: a signed Java byte. */
  function ExpandSigned(bits: int, v: int): (r: Result<int, Cause>)
    ensures r.Ok? <==> bits in {1, 2, 4} && 0 <= v < Pow2(bits)
  {
    var t :- ExpandBits(bits);
    var b :- Lookup(t, v);
    Ok(b as int)
  }

  /** `expandBits[bits][v] & 0xff`: the byte read as the 8-bit sample it stands for. */
  function ExpandUnsigned(bits: int, v: int): (r: Result<int, Cause>)
    ensures r.Ok? <==> bits in {1, 2, 4} && 0 <= v < Pow2(bits)
    ensures r.Ok? ==> 0 <= r.value < 0x100
  {
    var t :- ExpandBits(bits);
    var b :- Lookup(t, v);
    Ok(Unsigned8(b) as int)
  }

  // ---------------------------------------------------------------------------
  // bKGD

  /** `new Color(r, g, b)` accepts components from 0 to 255 only. */
  predicate ColorOk(rgb: (int, int, int))
  {
    0 <= rgb.0 < 0x100 && 0 <= rgb.1 < 0x100 && 0 <= rgb.2 < 0x100
  }

  /**
   * The `switch (colorType)` of `parse_bKGD_chunk`: a palette index looked
   * up in the three palettes, one gray sample for all three, or three RGB
   * samples; any other colour type keeps the previous values.
   */
  function BkgdSamples(c: PNGChunk, colorType: int, red: Option<seq<int8>>, green: Option<seq<int8>>,
                       blue: Option<seq<int8>>, prev: (int, int, int)): (r: Result<(int, int, int), Cause>)
    ensures colorType == PNG_COLOR_PALETTE ==>
              (r.Ok? <==> |c.data| >= 1 && red.Some? && green.Some? && blue.Some? &&
                          c.data[0] < |red.value| && c.data[0] < |green.value| && c.data[0] < |blue.value|)
    ensures colorType == PNG_COLOR_PALETTE && r.Ok? ==>
              r.value == (Unsigned8(red.value[c.data[0]]) as int, Unsigned8(green.value[c.data[0]]) as int,
                          Unsigned8(blue.value[c.data[0]]) as int)
    ensures colorType in {PNG_COLOR_GRAY, PNG_COLOR_GRAY_ALPHA} ==>
              (r.Ok? <==> |c.data| >= 2) && (r.Ok? ==> r.value == (c.GetInt2(0).value, c.GetInt2(0).value, c.GetInt2(0).value))
    ensures colorType in {PNG_COLOR_RGB, PNG_COLOR_RGB_ALPHA} ==>
              (r.Ok? <==> |c.data| >= 6) &&
              (r.Ok? ==> r.value == (c.GetInt2(0).value, c.GetInt2(2).value, c.GetInt2(4).value))
    ensures !(colorType in {0, 2, 3, 4, 6}) ==> r == Ok(prev)
  {
    if colorType == PNG_COLOR_PALETTE then
      var b :- c.GetByte(0);
      var index := Unsigned8(b) as int;
      var pr :- Lookup(red, index);
      var pg :- Lookup(green, index);
      var pb :- Lookup(blue, index);
      Ok((Unsigned8(pr) as int, Unsigned8(pg) as int, Unsigned8(pb) as int))
    else if colorType == PNG_COLOR_GRAY || colorType == PNG_COLOR_GRAY_ALPHA then
      var gray :- c.GetInt2(0);
      Ok((gray, gray, gray))
    else if colorType == PNG_COLOR_RGB || colorType == PNG_COLOR_RGB_ALPHA then
      var r :- c.GetInt2(0);
      var g :- c.GetInt2(2);
      var b :- c.GetInt2(4);
      Ok((r, g, b))
    else Ok(prev)
  }

  /**
   * The `background_color` property as the source computes it: palette
   * entries and 8-bit samples as they are, samples below 8 bits through
   * `expandBits` read as signed bytes, 16-bit samples by their high byte,
   * and black for any other depth; `new Color` then refuses a component
   * outside 0..255.
   */
  function BackgroundColorAsWritten(colorType: int, bitDepth: int, rgb: (int, int, int)): Result<(int, int, int), Cause>
  {
    var scaled :-
      if colorType == PNG_COLOR_PALETTE || bitDepth == 8 then Ok(rgb)
      else if bitDepth < 8 then
        var r :- ExpandSigned(bitDepth, rgb.0);
        var g :- ExpandSigned(bitDepth, rgb.1);
        var b :- ExpandSigned(bitDepth, rgb.2);
        Ok((r, g, b))
      else if bitDepth == 16 then Ok((rgb.0 / 0x100, rgb.1 / 0x100, rgb.2 / 0x100))
      else Ok((0, 0, 0));
    if ColorOk(scaled) then Ok(scaled) else Fail(BadColor)
  }

  /** The background colour with the `expandBits` byte masked with 0xff, as the scaling evidently intends. */
  function BackgroundColor(colorType: int, bitDepth: int, rgb: (int, int, int)): (r: Result<(int, int, int), Cause>)
    ensures r.Ok? ==> ColorOk(r.value)
  {
    var scaled :-
      if colorType == PNG_COLOR_PALETTE || bitDepth == 8 then Ok(rgb)
      else if bitDepth < 8 then
        var r :- ExpandUnsigned(bitDepth, rgb.0);
        var g :- ExpandUnsigned(bitDepth, rgb.1);
        var b :- ExpandUnsigned(bitDepth, rgb.2);
        Ok((r, g, b))
      else if bitDepth == 16 then Ok((rgb.0 / 0x100, rgb.1 / 0x100, rgb.2 / 0x100))
      else Ok((0, 0, 0));
    if ColorOk(scaled) then Ok(scaled) else Fail(BadColor)
  }

  /** A white background in a 1-bit gray image: the signed byte -1 makes `new Color` throw, where white was meant. */
  lemma BackgroundWhiteOneBit()
    ensures BackgroundColorAsWritten(PNG_COLOR_GRAY, 1, (1, 1, 1)) == Fail(BadColor)
    ensures BackgroundColor(PNG_COLOR_GRAY, 1, (1, 1, 1)) == Ok((255, 255, 255))
  {
  }

  /** The two differ only below 8 bits; for palettes and 8 and 16 bits they agree. */
  lemma BackgroundAgreesFrom8Bits(colorType: int, bitDepth: int, rgb: (int, int, int))
    requires colorType == PNG_COLOR_PALETTE || bitDepth >= 8
    ensures BackgroundColorAsWritten(colorType, bitDepth, rgb) == BackgroundColor(colorType, bitDepth, rgb)
  {
  }

  /**
   * Every gray background within the image's bit depth has a colour: the
   * sample scaled to 8 bits below 8 bits, the sample itself at 8 bits and
   * its high byte at 16 bits.
   */
  lemma BackgroundGrayScaled(bitDepth: int, v: nat)
    requires bitDepth in {1, 2, 4, 8, 16} && v < Pow2(bitDepth)
    ensures var s := if bitDepth < 8 then v * 255 / (Pow2(bitDepth) - 1)
                     else if bitDepth == 8 then v else v / 0x100;
            BackgroundColor(PNG_COLOR_GRAY, bitDepth, (v, v, v)) == Ok((s, s, s))
  {
    if bitDepth < 8 {
      BackgroundGrayExpanded(bitDepth, v);
    } else if bitDepth == 16 {
      BackgroundGrayWide(v);
    } else {
      assert Pow2(8) == 256 by { assert Pow2(4) == 16; }
      assert BackgroundColor(PNG_COLOR_GRAY, 8, (v, v, v)) == Ok((v, v, v));
    }
  }

  lemma BackgroundGrayWide(v: nat)
    requires v < Pow2(16)
    ensures BackgroundColor(PNG_COLOR_GRAY, 16, (v, v, v)) == Ok((v / 0x100, v / 0x100, v / 0x100))
  {
    assert Pow2(16) == 0x1_0000 by { assert Pow2(4) == 16; assert Pow2(8) == 256; }
    assert v / 0x100 < 0x100;
  }

  lemma BackgroundGrayExpanded(bitDepth: int, v: nat)
    requires bitDepth in {1, 2, 4} && v < Pow2(bitDepth)
    ensures var s := v * 255 / (Pow2(bitDepth) - 1);
            BackgroundColor(PNG_COLOR_GRAY, bitDepth, (v, v, v)) == Ok((s, s, s))
  {
    ExpandBitsScale(bitDepth, v);
  }

  // ---------------------------------------------------------------------------
  // cHRM, gAMA and sRGB

  /** `getInt4(offset) / 100000.0F`, kept exact. */
  function Fixed5(c: PNGChunk, offset: int): (r: Result<real, Cause>)
    ensures r.Ok? <==> 0 <= offset && offset + 3 < |c.data|
  {
    var v :- c.GetInt4(offset);
    Ok(v as real / 100000.0)
  }

  /** The eight chromaticities of a cHRM chunk: white point, red, green and blue, x then y. */
  function ChunkChromaticity(c: PNGChunk): (r: Result<seq<real>, Cause>)
    ensures r.Ok? <==> |c.data| >= 32
    ensures r.Ok? ==> |r.value| == 8 && forall i | 0 <= i < 8 :: Fixed5(c, 4 * i) == Ok(r.value[i])
  {
    var wx :- Fixed5(c, 0);
    var wy :- Fixed5(c, 4);
    var rx :- Fixed5(c, 8);
    var ry :- Fixed5(c, 12);
    var gx :- Fixed5(c, 16);
    var gy :- Fixed5(c, 20);
    var bx :- Fixed5(c, 24);
    var by_ :- Fixed5(c, 28);
    Ok([wx, wy, rx, ry, gx, gy, bx, by_])
  }

  /** The gamma of a gAMA chunk. */
  function ChunkGamma(c: PNGChunk): (r: Result<real, Cause>)
    ensures r.Ok? <==> |c.data| >= 4
  {
    Fixed5(c, 0)
  }

  /** The initial file gamma, and the one an sRGB chunk implies: 45455 / 100000. */
  const SRGB_GAMMA: real := 45455.0 / 100000.0

  /** The sRGB white point and primaries, in the hundred-thousandths a cHRM chunk stores. */
  const SRGB_POINTS: seq<int> := [31270, 32900, 64000, 33000, 30000, 60000, 15000, 6000]

  /** The chromaticities `parse_sRGB_chunk` sets: each point divided by 10000. */
  function SrgbChromaticityAsWritten(): (r: seq<real>)
    ensures |r| == 8
  {
    seq(8, i requires 0 <= i < 8 => SRGB_POINTS[i] as real / 10000.0)
  }

  /** The chromaticities an sRGB chunk implies: each point divided by 100000, as for cHRM. */
  function SrgbChromaticity(): (r: seq<real>)
    ensures |r| == 8
  {
    seq(8, i requires 0 <= i < 8 => SRGB_POINTS[i] as real / 100000.0)
  }

  /**
   * As written the white point x is 3.127, and the first seven values
   * exceed 1, outside the unit range of CIE chromaticities; only the last
   * lies inside it, at 0.6 instead of 0.06.
   */
  lemma SrgbAsWrittenOutOfRange()
    ensures SrgbChromaticityAsWritten()[0] == 3.127
    ensures forall i | 0 <= i < 7 :: SrgbChromaticityAsWritten()[i] > 1.0
    ensures SrgbChromaticityAsWritten()[7] == 0.6
  {
  }

  /** The corrected values lie in the unit range and are one tenth of those written. */
  lemma SrgbInUnitRange()
    ensures forall i | 0 <= i < 8 :: 0.0 < SrgbChromaticity()[i] < 1.0
    ensures forall i | 0 <= i < 8 :: SrgbChromaticity()[i] * 10.0 == SrgbChromaticityAsWritten()[i]
  {
  }

  /** An sRGB chunk implies what a cHRM chunk holding the sRGB points gives. */
  lemma SrgbMatchesChrm(c: PNGChunk)
    requires forall i | 0 <= i < 8 :: c.GetInt4(4 * i) == Ok(SRGB_POINTS[i] as int32)
    ensures ChunkChromaticity(c) == Ok(SrgbChromaticity())
  {
    assert c.GetInt4(4 * 7).Ok?;
    var r := ChunkChromaticity(c).value;
    forall i | 0 <= i < 8
      ensures r[i] == SrgbChromaticity()[i]
    {
      assert c.GetInt4(4 * i) == Ok(SRGB_POINTS[i] as int32);
      assert Fixed5(c, 4 * i) == Ok(SRGB_POINTS[i] as real / 100000.0);
      assert Fixed5(c, 4 * i) == Ok(r[i]);
    }
    assert |r| == |SrgbChromaticity()|;
    assert r == SrgbChromaticity();
  }

  // ---------------------------------------------------------------------------
  // sBIT, hIST, pHYs, tIME

  /** The number of sBIT entries: three for a palette image, one per input band otherwise. */
  function SbitCount(colorType: int, inputBands: nat): nat
  {
    if colorType == PNG_COLOR_PALETTE then 3 else inputBands
  }

  /** The largest significant bits allowed: 8 for a palette image, the bit depth otherwise. */
  function SbitLimit(colorType: int, bitDepth: int): int
  {
    if colorType == PNG_COLOR_PALETTE then 8 else bitDepth
  }

  /** An sBIT chunk is accepted when it holds `count` bytes and each, as a signed byte, lies in 1..limit. */
  predicate SbitOk(c: PNGChunk, count: nat, limit: int)
  {
    count <= |c.data| && forall i | 0 <= i < count :: 0 < Signed8(c.data[i]) <= limit
  }

  /** The significant bits an accepted sBIT chunk gives. */
  function SbitValues(c: PNGChunk, count: nat): (r: seq<int>)
    requires count <= |c.data|
    ensures |r| == count
  {
    seq(count, i requires 0 <= i < count => Signed8(c.data[i]) as int)
  }

  /** What the source records when there is no sBIT chunk: the bit depth for each input band. */
  function DefaultSignificantBits(inputBands: nat, bitDepth: int): (r: seq<int>)
    ensures |r| == inputBands
  {
    seq(inputBands, _ => bitDepth)
  }

  /** For a gray, RGB or alpha image, the default is what an sBIT chunk stating full precision gives. */
  lemma DefaultIsFullPrecision(c: PNGChunk, colorType: int, inputBands: nat, bitDepth: int)
    requires colorType != PNG_COLOR_PALETTE && 1 <= bitDepth < 0x80 && inputBands <= |c.data|
    requires forall i | 0 <= i < inputBands :: c.data[i] == bitDepth
    ensures SbitOk(c, SbitCount(colorType, inputBands), SbitLimit(colorType, bitDepth))
    ensures SbitValues(c, inputBands) == DefaultSignificantBits(inputBands, bitDepth)
  {
  }

  /** hIST: one 2-byte frequency per palette entry, and only after PLTE. */
  function HistCheck(c: PNGChunk, red: Option<seq<int8>>): (r: Result<(), Cause>)
    ensures r.Ok? <==> red.Some? && 2 * |red.value| <= |c.data|
    ensures red.None? ==> r == Fail(HistBeforePalette)
  {
    if red.None? then Fail(HistBeforePalette)
    else if 2 * |red.value| <= |c.data| then Ok(())
    else Fail(IndexOutOfBounds)
  }

  /** pHYs: pixels per unit in x and y, and a unit specifier that must be 0 (unknown) or 1 (metre). */
  function ChunkPhysical(c: PNGChunk): (r: Result<(int32, int32, int), Cause>)
    ensures r.Ok? <==> |c.data| >= 9 && c.data[8] in {0, 1}
    ensures r.Ok? ==> Int32Bytes(r.value.0) == c.data[0..4] && Int32Bytes(r.value.1) == c.data[4..8] && r.value.2 == c.data[8]
  {
    var x :- c.GetInt4(0);
    var y :- c.GetInt4(4);
    var unit :- c.GetInt1(8);
    if unit != 0 && unit != 1 then Fail(BadUnitSpecifier)
    else Ok((x, y, unit))
  }

  /** tIME: the year and five one-byte fields must be present; the values are not checked. */
  function TimeCheck(c: PNGChunk): (r: Result<(), Cause>)
    ensures r.Ok? <==> |c.data| >= 7
  {
    var _ :- c.GetInt2(0);
    var _ :- c.GetInt1(2);
    var _ :- c.GetInt1(3);
    var _ :- c.GetInt1(4);
    var _ :- c.GetInt1(5);
    var _ :- c.GetInt1(6);
    Ok(())
  }

  // ---------------------------------------------------------------------------
  // tEXt and zTXt

  /** The index of the first NUL byte from `from` on, the end of a keyword. */
  function FirstNul(data: seq<uint8>, from: nat): (r: Option<nat>)
    requires from <= |data|
    ensures r.Some? ==> from <= r.value < |data| && data[r.value] == 0 && forall i | from <= i < r.value :: data[i] != 0
    ensures r.None? ==> forall i | from <= i < |data| :: data[i] != 0
    decreases |data| - from
  {
    if from == |data| then None
    else if data[from] == 0 then Some(from)
    else FirstNul(data, from + 1)
  }

  /** `(char) b` for each byte read with `getByte`: bytes from 0x80 come out as U+FF80..U+FFFF. */
  function JavaChars(bs: seq<uint8>): (s: string)
    ensures |s| == |bs|
  {
    seq(|bs|, i requires 0 <= i < |bs| => ByteChar(Signed8(bs[i])))
  }

  /** ISO 8859-1, the text encoding of tEXt and zTXt (section 4.2.3.1 of RFC 2083): each byte is the character with its code. */
  function Latin1(bs: seq<uint8>): (s: string)
    ensures |s| == |bs| && forall i | 0 <= i < |bs| :: s[i] as int == bs[i]
  {
    seq(|bs|, i requires 0 <= i < |bs| => bs[i] as char)
  }

  /** The encoder of ISO 8859-1 text. */
  function Latin1Bytes(s: string): (bs: seq<uint8>)
    requires forall i | 0 <= i < |s| :: s[i] as int < 0x100
    ensures |bs| == |s|
  {
    seq(|s|, i requires 0 <= i < |s| => s[i] as int)
  }

  /** Decoding and encoding ISO 8859-1 are inverse to each other. */
  lemma Latin1RoundTrip(bs: seq<uint8>, s: string)
    requires forall i | 0 <= i < |s| :: s[i] as int < 0x100
    ensures Latin1Bytes(Latin1(bs)) == bs
    ensures Latin1(Latin1Bytes(s)) == s
  {
  }

  /** The two agree on ASCII and nowhere else: any byte from 0x80 gives a different character. */
  lemma JavaCharsVersusLatin1(bs: seq<uint8>)
    ensures JavaChars(bs) == Latin1(bs) <==> forall i | 0 <= i < |bs| :: bs[i] < 0x80
    ensures JavaChars([0xE9]) == ['￩'] && Latin1([0xE9]) == ['é']
  {
    if JavaChars(bs) == Latin1(bs) {
      forall i | 0 <= i < |bs|
        ensures bs[i] < 0x80
      {
        assert JavaChars(bs)[i] == Latin1(bs)[i];
      }
    }
  }

  /** `parse_tEXt_chunk` as written: keyword up to the NUL byte and the text after it, each byte through `(char)`. */
  function TextEntryAsWritten(c: PNGChunk): (r: Result<(string, string), Cause>)
    ensures r.Ok? <==> FirstNul(c.data, 0).Some?
  {
    match FirstNul(c.data, 0)
    case None => Fail(IndexOutOfBounds)
    case Some(k) => Ok((JavaChars(c.data[..k]), JavaChars(c.data[k + 1..])))
  }

  /** The tEXt entry with the keyword and text decoded as ISO 8859-1. */
  function TextEntry(c: PNGChunk): (r: Result<(string, string), Cause>)
    ensures r.Ok? <==> FirstNul(c.data, 0).Some?
  {
    match FirstNul(c.data, 0)
    case None => Fail(IndexOutOfBounds)
    case Some(k) => Ok((Latin1(c.data[..k]), Latin1(c.data[k + 1..])))
  }

  /** The text entry encodes back to the chunk: keyword, NUL, text. */
  lemma TextEntryRoundTrip(c: PNGChunk)
    requires TextEntry(c).Ok?
    ensures var (key, text) := TextEntry(c).value;
            Latin1Bytes(key) + [0] + Latin1Bytes(text) == c.data && 0 !in Latin1Bytes(key)
  {
    var k := FirstNul(c.data, 0).value;
    var (key, text) := TextEntry(c).value;
    Latin1RoundTrip(c.data[..k], key);
    Latin1RoundTrip(c.data[k + 1..], text);
    assert c.data == c.data[..k] + [0] + c.data[k + 1..];
  }

  /** A chunk with a high-bit byte in its text comes out as written with a character no ISO 8859-1 text contains. */
  lemma TextAsWrittenFinding()
    ensures TextEntryAsWritten(PNGChunk(3, 0, [0x61, 0, 0xE9], 0)) == Ok(("a", "￩"))
    ensures TextEntry(PNGChunk(3, 0, [0x61, 0, 0xE9], 0)) == Ok(("a", "é"))
  {
    var c := PNGChunk(3, 0, [0x61, 0, 0xE9], 0);
    assert FirstNul(c.data, 0) == Some(1) by {
      assert FirstNul(c.data, 1) == Some(1);
    }
    assert c.data[..1] == [0x61] && c.data[2..] == [0xE9];
    assert JavaChars([0x61]) == "a" by { assert JavaChars([0x61])[0] == 'a'; }
    assert JavaChars([0xE9]) == "￩" by { assert JavaChars([0xE9])[0] == '￩'; }
    assert Latin1([0x61]) == "a" by { assert Latin1([0x61])[0] == 'a'; }
    assert Latin1([0xE9]) == "é" by { assert Latin1([0xE9])[0] == 'é'; }
  }

  /**
   * `parse_zTXt_chunk`: the keyword up to the NUL byte, the compression
   * method byte, then the inflated rest as text. An inflater error is
   * caught and logged, and nothing is recorded (None).
   */
  function ZtxtEntry(c: PNGChunk, inflate: Inflater): (r: Result<Option<(string, string)>, Cause>)
    ensures r.Ok? <==> FirstNul(c.data, 0).Some? && FirstNul(c.data, 0).value + 1 < |c.data|
    ensures r.Ok? && r.value.Some? ==>
              var k := FirstNul(c.data, 0).value;
              !inflate(c.data[k + 2..]).corrupt && r.value.value == (Latin1(c.data[..k]), Latin1(inflate(c.data[k + 2..]).bytes))
  {
    match FirstNul(c.data, 0)
    case None => Fail(IndexOutOfBounds)
    case Some(k) =>
      var _ :- c.GetByte(k + 1);
      var text := inflate(c.data[k + 2..]);
      if text.corrupt then Ok(None)
      else Ok(Some((Latin1(c.data[..k]), Latin1(text.bytes))))
  }

  /**
   * `parse_zTXt_chunk` as written: the keyword characters are `(char)` of
   * a signed byte, as in tEXt; the inflated text is read as unsigned
   * `int`s and so is Latin-1 already.
   */
  function ZtxtEntryAsWritten(c: PNGChunk, inflate: Inflater): (r: Result<Option<(string, string)>, Cause>)
    ensures r.Ok? <==> ZtxtEntry(c, inflate).Ok?
    ensures r.Ok? ==> (r.value.Some? <==> ZtxtEntry(c, inflate).value.Some?)
    ensures r.Ok? && r.value.Some? ==>
              var k := FirstNul(c.data, 0).value;
              r.value.value == (JavaChars(c.data[..k]), ZtxtEntry(c, inflate).value.value.1)
  {
    match FirstNul(c.data, 0)
    case None => Fail(IndexOutOfBounds)
    case Some(k) =>
      var _ :- c.GetByte(k + 1);
      var text := inflate(c.data[k + 2..]);
      if text.corrupt then Ok(None)
      else Ok(Some((JavaChars(c.data[..k]), Latin1(text.bytes))))
  }

  /** The zTXt keyword byte 0xE9 reads as U+FFE9 as written and as "é" once read as Latin-1. */
  lemma ZtxtAsWrittenFinding(inflate: Inflater)
    requires !inflate([]).corrupt
    ensures ZtxtEntryAsWritten(PNGChunk(3, 0, [0xE9, 0, 0], 0), inflate).value.value.0 == "￩"
    ensures ZtxtEntry(PNGChunk(3, 0, [0xE9, 0, 0], 0), inflate).value.value.0 == "é"
  {
    var c := PNGChunk(3, 0, [0xE9, 0, 0], 0);
    assert FirstNul(c.data, 0) == Some(1) by {
      assert FirstNul(c.data, 1) == Some(1);
    }
    assert c.data[3..] == [];
    assert c.data[..1] == [0xE9];
    assert JavaChars([0xE9]) == "￩" by { assert JavaChars([0xE9])[0] == '￩'; }
    assert Latin1([0xE9]) == "é" by { assert Latin1([0xE9])[0] == 'é'; }
  }

  /** The corrected zTXt keyword re-encodes to the bytes before the first zero byte, which it does not contain. */
  lemma ZtxtKeywordRoundTrip(c: PNGChunk, inflate: Inflater)
    requires ZtxtEntry(c, inflate).Ok? && ZtxtEntry(c, inflate).value.Some?
    ensures var key := ZtxtEntry(c, inflate).value.value.0;
            Latin1Bytes(key) + [0] <= c.data && 0 !in Latin1Bytes(key)
  {
    var k := FirstNul(c.data, 0).value;
    var key := ZtxtEntry(c, inflate).value.value.0;
    Latin1RoundTrip(c.data[..k], key);
    assert c.data[..k] + [0] == c.data[..k + 1];
  }
}

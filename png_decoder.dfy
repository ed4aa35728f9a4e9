/**
 * The decoder object `PNGRed`: its constructor reads the signature and then
 * the chunks one by one, each parser updating the decoder's fields, until
 * IEND decodes the image data into the tile. A chunk parser that fails
 * makes the constructor throw, so the decoder is then never seen again;
 * the model's parsers check first and change the fields only on success.
 * Every chunk `readChunk` builds has `getLength()` equal to the length of
 * its data, so the parsers' loops run to `|c.data|`.
 */
module PngDecoder {
  import opened Wrappers
  import opened JavaInt
  import opened PngChunk
  import opened PngHeader
  import opened PngFilter
  import opened PngInterlace
  import opened PngPixels
  import opened PngPass
  import opened PngAncillary

  /**
   * The gamma curve `initGammaLut` samples: for the file gamma, sample i of
   * n and the largest output sample, `(int) (Math.pow(i / (n - 1.0), exp)
   * * maxOut + 0.5)`, with the exponent from the decode parameters.
   */
  type GammaCurve = (real, nat, nat, nat) -> nat

  /** `maxOutSample`: 65535 for a 16-bit table, 255 otherwise. */
  function MaxOutSample(bits: nat): nat
  {
    if bits == 16 then 65535 else 255
  }

  /** The table `initGammaLut(bits)` builds: the curve at each of the 2^bits samples, capped at the largest output sample. */
  function GammaTable(curve: GammaCurve, fileGamma: real, bits: nat): (t: seq<int>)
    ensures |t| == Pow2(bits % 32)
    ensures forall i | 0 <= i < |t| :: 0 <= t[i] <= MaxOutSample(bits)
    ensures forall i | 0 <= i < |t| :: curve(fileGamma, i, |t|, MaxOutSample(bits)) <= MaxOutSample(bits) ==>
              t[i] == curve(fileGamma, i, |t|, MaxOutSample(bits))
  {
    var n := Pow2(bits % 32);
    var m := MaxOutSample(bits);
    var t := seq(n, i requires 0 <= i < n => Min(curve(fileGamma, i, n, m), m));
    assert forall i | 0 <= i < n :: t[i] == Min(curve(fileGamma, i, n, m), m);
    t
  }

  /**
   * The table `initGrayLut(bits)` builds: the first 2^bits entries of the
   * gamma table with gamma correction, otherwise the `expandBits` row as
   * signed bytes.
   */
  function GrayTable(performGamma: bool, gammaLut: Option<seq<int>>, bits: nat): (r: Result<seq<int>, Cause>)
    ensures r.Ok? ==> |r.value| == Pow2(bits % 32)
    ensures performGamma ==> (r.Ok? <==> gammaLut.Some? && Pow2(bits % 32) <= |gammaLut.value|)
    ensures performGamma && r.Ok? ==> r.value == gammaLut.value[..Pow2(bits % 32)]
    ensures !performGamma ==> (r.Ok? <==> bits in {1, 2, 4})
  {
    var len := Pow2(bits % 32);
    if performGamma then
      match gammaLut
      case None => Fail(NullArray)
      case Some(t) => if len <= |t| then Ok(t[..len]) else Fail(IndexOutOfBounds)
    else
      var row :- ExpandBits(bits);
      match row
      case None => Fail(NullArray)
      case Some(e) => Ok(seq(len, i requires 0 <= i < len => e[i] as int))
  }

  /** Without gamma correction the gray table, stored in an 8-bit raster, scales each sample to 8 bits. */
  lemma GrayTableScales(bits: nat, v: nat, g: Geometry)
    requires bits in {1, 2, 4} && v < Pow2(bits) && !g.Packed() && g.depth == 8
    ensures GrayTable(false, None, bits).Ok?
    ensures Store(g, GrayTable(false, None, bits).value[v]) == v * 255 / (Pow2(bits) - 1)
  {
    var e := ExpandBits(bits).value.value;
    ExpandBitsScale(bits, v);
    assert GrayTable(false, None, bits).value[v] == e[v] as int;
    StoreByte(g, e[v]);
  }

  /** A signed byte stored in an 8-bit raster reads back as its unsigned value. */
  lemma StoreByte(g: Geometry, b: int8)
    requires !g.Packed() && g.depth == 8
    ensures Store(g, b as int) == Unsigned8(b) as int
  {
    assert Store(g, b as int) == (b as int) % 0x100;
  }

  /** The checks of `parse_IHDR_chunk`, in the source's order, on the fields read from the chunk. */
  function HeaderCheck(c: PNGChunk): (r: Result<(int32, int32, nat, nat, nat, nat, nat), Cause>)
    ensures r.Ok? <==> |c.data| >= 13 && HeaderValid(c.data[8], c.data[9], c.data[10], c.data[11], c.data[12])
    ensures r.Ok? ==> r.value == (c.GetInt4(0).value, c.GetInt4(4).value, c.data[8], c.data[9], c.data[10], c.data[11], c.data[12])
  {
    var width :- c.GetInt4(0);
    var height :- c.GetInt4(4);
    var depth :- c.GetInt1(8);
    if !BitDepthAccepted(depth) then Fail(BadBitDepth) else
    var ct :- c.GetInt1(9);
    if ct == PNG_COLOR_RGB && depth < 8 then Fail(RgbBitDepth)
    else if ct == PNG_COLOR_PALETTE && depth == 16 then Fail(PaletteBitDepth)
    else if ct == PNG_COLOR_GRAY_ALPHA && depth < 8 then Fail(GrayAlphaBitDepth)
    else if ct == PNG_COLOR_RGB_ALPHA && depth < 8 then Fail(RgbAlphaBitDepth)
    else if ct >= |COLOR_TYPE_NAMES| then Fail(IndexOutOfBounds) else
    var compression :- c.GetInt1(10);
    if compression != 0 then Fail(BadCompression) else
    var filter :- c.GetInt1(11);
    if filter != 0 then Fail(BadFilterMethod) else
    var interlace :- c.GetInt1(12);
    if interlace != 0 && interlace != 1 then Fail(BadInterlace)
    else Ok((width, height, depth, ct, compression, filter, interlace))
  }

  /** A palette sample of PLTE: through the gamma table with gamma correction, the raw byte otherwise. */
  function PlteSample(gamma: bool, lut: seq<int>, b: uint8): int8
  {
    if gamma && b < |lut| then ToByte(lut[b]) else Signed8(b)
  }

  /** Palette channel k (red 0, green 1, blue 2) of a PLTE chunk with `length / 3` entries. */
  function PlteChannel(c: PNGChunk, k: nat, gamma: bool, lut: seq<int>): (r: seq<int8>)
    requires k < 3
    ensures |r| == |c.data| / 3
    ensures forall i | 0 <= i < |r| :: 3 * i + k < |c.data| && r[i] == PlteSample(gamma, lut, c.data[3 * i + k])
    ensures !gamma ==> forall i | 0 <= i < |r| :: Unsigned8(r[i]) == c.data[3 * i + k]
  {
    seq(|c.data| / 3, i requires 0 <= i < |c.data| / 3 => PlteSample(gamma, lut, c.data[3 * i + k]))
  }

  /** Every byte of the palette entries has a gamma table entry. */
  predicate PlteCovered(c: PNGChunk, lut: seq<int>)
  {
    forall j | 0 <= j < 3 * (|c.data| / 3) :: c.data[j] < |lut|
  }

  /** The loop of `parse_PLTE_chunk`: the three channels, failing on the first byte the gamma table does not cover. */
  method ReadPalette(c: PNGChunk, gamma: bool, lut: seq<int>) returns (r: Result<(seq<int8>, seq<int8>, seq<int8>), Cause>)
    ensures r.Ok? <==> !gamma || PlteCovered(c, lut)
    ensures r.Ok? ==> r.value == (PlteChannel(c, 0, gamma, lut), PlteChannel(c, 1, gamma, lut), PlteChannel(c, 2, gamma, lut))
  {
    var entries := |c.data| / 3;
    var red, green, blue := [], [], [];
    var i := 0;
    while i < entries
      invariant 0 <= i <= entries && |red| == i && |green| == i && |blue| == i
      invariant gamma ==> forall j | 0 <= j < 3 * i :: c.data[j] < |lut|
      invariant forall j | 0 <= j < i :: red[j] == PlteSample(gamma, lut, c.data[3 * j])
      invariant forall j | 0 <= j < i :: green[j] == PlteSample(gamma, lut, c.data[3 * j + 1])
      invariant forall j | 0 <= j < i :: blue[j] == PlteSample(gamma, lut, c.data[3 * j + 2])
    {
      var rb := c.GetByte(3 * i).value;
      var gb := c.GetByte(3 * i + 1).value;
      var bb := c.GetByte(3 * i + 2).value;
      if gamma {
        if Unsigned8(rb) >= |lut| || Unsigned8(gb) >= |lut| || Unsigned8(bb) >= |lut| {
          return Fail(IndexOutOfBounds);
        }
        red := red + [ToByte(lut[Unsigned8(rb)])];
        green := green + [ToByte(lut[Unsigned8(gb)])];
        blue := blue + [ToByte(lut[Unsigned8(bb)])];
      } else {
        red := red + [rb];
        green := green + [gb];
        blue := blue + [bb];
      }
      i := i + 1;
    }
    assert red == PlteChannel(c, 0, gamma, lut);
    assert green == PlteChannel(c, 1, gamma, lut);
    assert blue == PlteChannel(c, 2, gamma, lut);
    r := Ok((red, green, blue));
  }

  /** `dst.setPixel(x, y, px)` on a raster of geometry `g`. */
  method StorePixel(g: Geometry, dst: array<int>, x: int, y: int, px: seq<int>) returns (r: Result<(), Cause>)
    requires dst.Length == g.Size()
    modifies dst
    ensures var spec := SetPixel(g, old(dst[..]), x, y, px);
            (r.Ok? <==> spec.Ok?) && (r.Ok? ==> dst[..] == spec.value)
  {
    if !(0 <= x < g.width && 0 <= y < g.height && |px| >= g.bands) {
      return Fail(IndexOutOfBounds);
    }
    PixelIndexBounds(g, x, y);
    var i := PixelIndex(g, x, y);
    ghost var data := dst[..];
    forall b | 0 <= b < g.bands {
      dst[i + b] := Store(g, px[b]);
    }
    assert dst[..] == data[..i] + seq(g.bands, b requires 0 <= b < g.bands => Store(g, px[b])) + data[i + g.bands..];
    r := Ok(());
  }

  /**
   * `processPixels(process, src, dst, xOffset, step, y, width)`: each
   * source pixel through the step of the mode, written at column
   * xOffset + k * step of row y; the buffer `pd` starts as pixel (0, 0).
   */
  method ProcessRowInto(f: PixelStep, g: Geometry, dst: array<int>, src: seq<seq<int>>, xOffset: int, step: int, y: int)
    returns (r: Result<(), Cause>)
    requires dst.Length == g.Size() && g.width > 0 && g.height > 0
    modifies dst
    ensures var spec := ProcessRow(f, g, old(dst[..]), src, xOffset, step, y);
            (r.Ok? <==> spec.Ok?) && (r.Ok? ==> dst[..] == spec.value)
  {
    ghost var data0 := dst[..];
    var pd := GetPixel(g, dst[..], 0, 0);
    var i := 0;
    while i < |src|
      invariant 0 <= i <= |src|
      invariant RowUpTo(f, g, data0, src, xOffset, step, y, i) == Ok((dst[..], pd))
    {
      RowFailStays(f, g, data0, src, xOffset, step, y, i + 1);
      var o :- f(src[i], pd);
      if o.Some? {
        var _ :- StorePixel(g, dst, xOffset + i * step, y, o.value.0);
        pd := o.value.1;
      }
      i := i + 1;
    }
    r := Ok(());
  }

  /** The `switch (filter)` of `decodePass`: the filter of a row undone in place. */
  method DefilterInto(filter: int, curr: array<uint8>, prior: array<uint8>, bpp: nat) returns (r: Result<(), Cause>)
    requires curr != prior && curr.Length == prior.Length && bpp >= 1
    modifies curr
    ensures var spec := Defilter(filter, old(curr[..]), prior[..], bpp);
            (r.Ok? <==> spec.Ok?) && (r.Ok? ==> curr[..] == spec.value)
  {
    var n := curr.Length;
    if filter == PNG_FILTER_NONE {
    } else if filter == PNG_FILTER_SUB {
      DecodeSubFilter(curr, n, bpp);
    } else if filter == PNG_FILTER_UP {
      DecodeUpFilter(curr, prior, n);
    } else if filter == PNG_FILTER_AVERAGE {
      if n < bpp {
        return Fail(IndexOutOfBounds);
      }
      DecodeAverageFilter(curr, prior, n, bpp);
    } else if filter == PNG_FILTER_PAETH {
      if n < bpp {
        return Fail(IndexOutOfBounds);
      }
      DecodePaethFilter(curr, prior, n, bpp);
    } else {
      return Fail(UnknownFilter);
    }
    r := Ok(());
  }

  /** The filter byte and `readFully` of a row into `curr`, from `pos` in the inflated data. */
  method ReadRowInto(stream: Inflated, pos: nat, curr: array<uint8>) returns (filter: int, next: nat)
    modifies curr
    ensures ReadRow(stream, pos, old(curr[..])) == (filter, curr[..], next)
  {
    var read := ReadRow(stream, pos, curr[..]);
    var raw := read.1;
    filter, next := read.0, read.2;
    forall i | 0 <= i < curr.Length {
      curr[i] := raw[i];
    }
    assert curr[..] == raw;
  }

  /** The reconstructed row copied into the pass row and processed into `dst`. */
  method EmitInto(f: PixelStep, g: Geometry, bitDepth: nat, inputBands: nat, ghost emit: RowEmit,
                  p: Pass, y: int, row: seq<uint8>, dst: array<int>)
    returns (r: Result<(), Cause>)
    requires EmitsRows(emit, f, g, bitDepth, inputBands)
    requires |row| == BytesPerRow(inputBands, p.width, bitDepth) && dst.Length == g.Size()
    modifies dst
    ensures var spec := emit(p, y, row, old(dst[..]));
            (r.Ok? <==> spec.Ok?) && (r.Ok? ==> dst[..] == spec.value)
  {
    assert emit(p, y, row, dst[..]) == EmitRow(f, g, bitDepth, inputBands, p, y, row, dst[..]);
    var src :- RowPixels(row, bitDepth, inputBands, p.width);
    r := ProcessRowInto(f, g, dst, src, p.xOffset, p.xStep, y);
  }

  /**
   * One row of `decodePass` into `dst`: read into `curr`, reconstruct
   * against `prior`, emit. On success `prior` is the next row's buffer and
   * `curr` holds the reconstructed row, as `RowStep` swaps them.
   */
  method PassRow(c: PassContext, f: PixelStep, g: Geometry, ghost emit: RowEmit, ghost step: StepFn, p: Pass, y: int, at: nat,
                 curr: array<uint8>, prior: array<uint8>, dst: array<int>)
    returns (r: Result<nat, Cause>)
    requires StepsRows(step, c, emit) && dst.Length == g.Size() && EmitsRows(emit, f, g, c.bitDepth, c.inputBands)
    requires curr != prior && curr.Length == prior.Length == BytesPerRow(c.inputBands, p.width, c.bitDepth)
    modifies curr, dst
    ensures prior[..] == old(prior[..])
    ensures var spec := step(p, y, PassState(at, old(curr[..]), old(prior[..]), old(dst[..])));
            (r.Ok? <==> spec.Ok?) && (r.Ok? ==> spec.value == PassState(r.value, old(prior[..]), curr[..], dst[..]))
  {
    ghost var st := PassState(at, curr[..], prior[..], dst[..]);
    assert step(p, y, st) == RowStep(c, emit, p, y, st);
    var filter, next := ReadRowInto(c.stream, at, curr);
    ghost var raw := curr[..];
    RowStepFails(c, emit, p, y, st, filter, raw, next);
    var _ :- DefilterInto(filter, curr, prior, c.bytesPerPixel);
    var row := curr[..];
    RowStepOf(c, emit, p, y, st, filter, raw, next, row);
    var _ :- EmitInto(f, g, c.bitDepth, c.inputBands, emit, p, y, row, dst);
    r := Ok(next);
  }

  /** The row loop of `decodePass`: every row of the pass, from zeroed row buffers, into `dst`. */
  method PassRows(c: PassContext, f: PixelStep, g: Geometry, ghost emit: RowEmit, ghost step: StepFn, p: Pass, pos: nat, dst: array<int>)
    returns (r: Result<nat, Cause>)
    requires StepsRows(step, c, emit) && dst.Length == g.Size() && EmitsRows(emit, f, g, c.bitDepth, c.inputBands)
    modifies dst
    ensures var rows := Rows(step, BytesPerRow(c.inputBands, p.width, c.bitDepth), p, pos, old(dst[..]), p.height);
            (r.Ok? <==> rows.Ok?) && (r.Ok? ==> r.value == rows.value.pos && dst[..] == rows.value.data)
  {
    ghost var data0 := dst[..];
    var n := BytesPerRow(c.inputBands, p.width, c.bitDepth);
    var curr := new uint8[n](_ => 0);
    var prior := new uint8[n](_ => 0);
    assert curr[..] == Zeros(n) && prior[..] == Zeros(n);
    var at := pos;
    var j := 0;
    while j < p.height
      invariant 0 <= j <= p.height
      invariant curr != prior && curr.Length == n && prior.Length == n
      invariant fresh(curr) && fresh(prior)
      invariant Rows(step, n, p, pos, data0, j) == Ok(PassState(at, curr[..], prior[..], dst[..]))
    {
      var row := PassRow(c, f, g, emit, step, p, RowOf(p, j), at, curr, prior, dst);
      if row.Fail? {
        RowFailsPass(step, c, emit, p, pos, data0, j);
        return Fail(row.error);
      }
      at := row.value;
      curr, prior := prior, curr;
      j := j + 1;
    }
    r := Ok(at);
  }

  /**
   * `decodePass`: nothing for a pass without pixels; otherwise the pass
   * row raster is created and the rows decoded into `dst` one after the
   * other, the row buffers swapped after each.
   */
  method PassInto(c: PassContext, f: PixelStep, g: Geometry, ghost emit: RowEmit, p: Pass, pos: nat, dst: array<int>)
    returns (r: Result<nat, Cause>)
    requires c.Valid() && dst.Length == g.Size() && EmitsRows(emit, f, g, c.bitDepth, c.inputBands)
    modifies dst
    ensures var spec := DecodePassSpec(c, emit, p, pos, old(dst[..]));
            (r.Ok? <==> spec.Ok?) && (r.Ok? ==> (r.value, dst[..]) == spec.value)
  {
    if p.width == 0 || p.height == 0 {
      return Ok(pos);
    }
    var _ :- CreateRaster(p.width, 1, c.inputBands, c.bitDepth);
    PassSpecOfRows(c, emit, p, pos, dst[..]);
    ghost var step := Steps(c, emit);
    StepsAreRows(c, emit);
    RowsArePassUpTo(step, c, emit, p, pos, dst[..], p.height);
    r := PassRows(c, f, g, emit, step, p, pos, dst);
  }

  /** The alpha palette of tRNS: the chunk's bytes, then 255 (the byte -1) up to the palette size. */
  function AlphaTable(c: PNGChunk, entries: nat): (r: seq<int8>)
    ensures |r| == entries
    ensures forall i | 0 <= i < entries :: i < |c.data| ==> Unsigned8(r[i]) == c.data[i]
    ensures forall i | 0 <= i < entries :: i >= |c.data| ==> Unsigned8(r[i]) == 255
  {
    seq(entries, i requires 0 <= i < entries => if i < |c.data| then Signed8(c.data[i]) else -1)
  }

  /** The IDAT data as the `SequenceInputStream` over the chunks yields it. */
  function Concat(parts: seq<seq<uint8>>): seq<uint8>
  {
    if parts == [] then [] else Concat(parts[..|parts| - 1]) + parts[|parts| - 1]
  }

  /** The stream is the chunks' data one after the other. */
  lemma {:induction false} ConcatLength(parts: seq<seq<uint8>>, part: seq<uint8>)
    ensures Concat(parts + [part]) == Concat(parts) + part
  {
    assert (parts + [part])[..|parts|] == parts;
  }

  /**
   * Where the stream stands after `readChunk` returned null at `pos`: a
   * negative length fails at `new byte[length]`, after the length and type;
   * otherwise `readFully` or the CRC read consumed the rest of the stream.
   */
  function SkipPosition(s: seq<uint8>, pos: nat): (next: nat)
    requires pos + 8 <= |s|
    ensures pos < next <= |s|
  {
    if ReadInt(s, pos).value < 0 then pos + 8 else |s|
  }

  /**
   * The keyword loop of tEXt, zTXt and iCCP: bytes up to the first NUL,
   * read as ISO 8859-1 where the source appends `(char)` of the signed
   * byte (`JavaChars`), and the index after the NUL. Without a NUL byte
   * `getByte` runs off the end.
   */
  method ReadKeyword(c: PNGChunk) returns (r: Result<(string, nat), Cause>)
    ensures r.Ok? <==> FirstNul(c.data, 0).Some?
    ensures r.Ok? ==> var k := FirstNul(c.data, 0).value; r.value == (Latin1(c.data[..k]), k + 1)
  {
    var key := "";
    var i := 0;
    while true
      invariant 0 <= i <= |c.data|
      invariant key == Latin1(c.data[..i])
      invariant FirstNul(c.data, 0) == FirstNul(c.data, i)
      decreases |c.data| - i
    {
      var b := c.GetByte(i);
      if b.Fail? {
        return Fail(b.error);
      }
      if b.value == 0 {
        assert c.data[i] == 0;
        return Ok((key, i + 1));
      }
      assert c.data[..i + 1] == c.data[..i] + [c.data[i]];
      key := key + [Unsigned8(b.value) as char];
      i := i + 1;
    }
  }

  /** The chunk types with a branch of their own in the constructor's loop, IEND aside. */
  const PARSED_CHUNKS: set<string> :=
    {"IHDR", "PLTE", "IDAT", "bKGD", "cHRM", "gAMA", "hIST", "iCCP", "pHYs", "sBIT", "sRGB", "tEXt", "tIME", "tRNS", "zTXt"}

  /** The chunk a parser that reads nothing of its chunk is given in place of a null one. */
  const EMPTY_CHUNK := PNGChunk(0, 0, [], 0)

  /** The `PNGRed` object: the decoder's fields, its chunk parsers and the image decoding they lead to. */
  class PNGRed {
    // Decode parameters
    const suppressAlpha: bool
    const expandPalette: bool
    const expandGrayAlpha: bool
    const performGammaCorrection: bool
    var output8BitGray: bool
    /** The inflater for IDAT and zTXt data. */
    const inflate: Inflater
    /** The gamma curve of `initGammaLut`. */
    const curve: GammaCurve

    // IHDR
    var bounds: Option<(int32, int32)>
    var bitDepth: nat
    var colorType: nat
    var compressionMethod: nat
    var filterMethod: nat
    var interlaceMethod: nat
    var maxOpacity: int
    var bytesPerPixel: nat
    var inputBands: nat
    var outputBands: nat
    var postProcess: Mode

    // PLTE and tRNS
    var paletteEntries: nat
    var redPalette: Option<seq<int8>>
    var greenPalette: Option<seq<int8>>
    var bluePalette: Option<seq<int8>>
    var alphaPalette: Option<seq<int8>>
    var outputHasAlphaPalette: bool
    var grayTransparentAlpha: int
    var redTransparentAlpha: int
    var greenTransparentAlpha: int
    var blueTransparentAlpha: int

    // Ancillary chunks
    var bkgdRed: int
    var bkgdGreen: int
    var bkgdBlue: int
    var backgroundColor: Option<(int, int, int)>
    var fileGamma: real
    var chromaticity: Option<seq<real>>
    var sRGBRenderingIntent: int
    var significantBits: Option<seq<int>>
    var physicalDimension: Option<(int32, int32, int)>
    var textKeys: seq<string>
    var textStrings: seq<string>
    var ztextKeys: seq<string>
    var ztextStrings: seq<string>
    /** Chunks of other types, by type name, in the order met. */
    var privateChunks: seq<(string, seq<uint8>)>

    // Image data
    var streamVec: seq<seq<uint8>>
    var stream: Inflated
    var dataPos: nat
    var gammaLut: Option<seq<int>>
    var grayLut: Option<seq<int>>
    var tileGeometry: Option<Geometry>
    var theTile: array<int>

    /**
     * What the decoder keeps true between chunks: the post-processing mode
     * writes as many samples as the output has bands; gamma correction
     * implies 8-bit gray output; after IHDR the depth is accepted and a
     * pixel has at least one byte; the tile matches its geometry.
     */
    predicate Valid()
      reads this`postProcess, this`inputBands, this`outputBands, this`output8BitGray, this`bounds, this`bitDepth,
            this`bytesPerPixel, this`interlaceMethod, this`tileGeometry, this`theTile
    {
      ModeBands(postProcess, inputBands) == Some(outputBands) &&
      (performGammaCorrection ==> output8BitGray) &&
      (bounds.Some? ==> BitDepthAccepted(bitDepth) && bytesPerPixel >= 1 && interlaceMethod <= 1) &&
      (tileGeometry.Some? ==>
         bounds.Some? && theTile.Length == tileGeometry.value.Size() &&
         tileGeometry.value.width > 0 && tileGeometry.value.height > 0 && tileGeometry.value.bands == outputBands)
    }

    /** The decode parameters as `HeaderLayout` reads them, with the current `output8BitGray`. */
    function Opts(): Options
      reads this`output8BitGray
    {
      Options(suppressAlpha, expandPalette, output8BitGray, expandGrayAlpha, performGammaCorrection)
    }

    /** The fields the pixel transforms read. */
    function PixelTables(): Tables
      reads this`gammaLut, this`grayLut, this`redPalette, this`greenPalette, this`bluePalette, this`alphaPalette,
            this`grayTransparentAlpha, this`redTransparentAlpha, this`greenTransparentAlpha,
            this`blueTransparentAlpha, this`maxOpacity
    {
      Tables(gammaLut, grayLut, redPalette, greenPalette, bluePalette, alphaPalette,
             grayTransparentAlpha, redTransparentAlpha, greenTransparentAlpha, blueTransparentAlpha,
             maxOpacity, performGammaCorrection)
    }

    /** `processPixels` for one pixel, in the current mode. */
    function PixelFunction(): PixelStep
      reads this`postProcess, this`gammaLut, this`grayLut, this`redPalette, this`greenPalette, this`bluePalette,
            this`alphaPalette, this`grayTransparentAlpha, this`redTransparentAlpha, this`greenTransparentAlpha,
            this`blueTransparentAlpha, this`maxOpacity
    {
      ModeStep(postProcess, PixelTables())
    }

    /** What a pass reads: depth, bands, bytes per pixel and the inflated data. */
    function Context(): PassContext
      reads this`bitDepth, this`inputBands, this`bytesPerPixel, this`stream
    {
      PassContext(bitDepth, inputBands, bytesPerPixel, stream)
    }

    /** How a reconstructed row reaches the tile. */
    function Emit(): RowEmit
      requires tileGeometry.Some?
      reads this`tileGeometry, this`bitDepth, this`inputBands,
            this`postProcess, this`gammaLut, this`grayLut, this`redPalette, this`greenPalette, this`bluePalette,
            this`alphaPalette, this`grayTransparentAlpha, this`redTransparentAlpha, this`greenTransparentAlpha,
            this`blueTransparentAlpha, this`maxOpacity
    {
      Emitter(PixelFunction(), tileGeometry.value, bitDepth, inputBands)
    }

    /** The constructor's parameter handling: gamma correction turns on 8-bit gray output. */
    constructor (o: Options, inflate: Inflater, curve: GammaCurve)
      ensures Valid()
      ensures suppressAlpha == o.suppressAlpha && expandPalette == o.expandPalette &&
              expandGrayAlpha == o.expandGrayAlpha && performGammaCorrection == o.performGammaCorrection &&
              output8BitGray == (o.output8BitGray || o.performGammaCorrection)
      ensures this.inflate == inflate && this.curve == curve
      ensures bounds == None && bitDepth == 0 && colorType == PNG_COLOR_GRAY && postProcess == Mode(PostNone, false)
      ensures inputBands == 0 && outputBands == 0 && paletteEntries == 0 && redPalette == None
      ensures fileGamma == SRGB_GAMMA && sRGBRenderingIntent == -1 && chromaticity == None
      ensures significantBits == None && streamVec == [] && gammaLut == None && grayLut == None && tileGeometry == None
    {
      suppressAlpha := o.suppressAlpha;
      expandPalette := o.expandPalette;
      expandGrayAlpha := o.expandGrayAlpha;
      performGammaCorrection := o.performGammaCorrection;
      output8BitGray := o.output8BitGray || o.performGammaCorrection;
      this.inflate := inflate;
      this.curve := curve;
      bounds := None;
      bitDepth := 0;
      colorType := 0;
      compressionMethod := 0;
      filterMethod := 0;
      interlaceMethod := 0;
      maxOpacity := 0;
      bytesPerPixel := 0;
      inputBands := 0;
      outputBands := 0;
      postProcess := Mode(PostNone, false);
      paletteEntries := 0;
      redPalette := None;
      greenPalette := None;
      bluePalette := None;
      alphaPalette := None;
      outputHasAlphaPalette := false;
      grayTransparentAlpha := 0;
      redTransparentAlpha := 0;
      greenTransparentAlpha := 0;
      blueTransparentAlpha := 0;
      bkgdRed := 0;
      bkgdGreen := 0;
      bkgdBlue := 0;
      backgroundColor := None;
      fileGamma := SRGB_GAMMA;
      chromaticity := None;
      sRGBRenderingIntent := -1;
      significantBits := None;
      physicalDimension := None;
      textKeys := [];
      textStrings := [];
      ztextKeys := [];
      ztextStrings := [];
      privateChunks := [];
      streamVec := [];
      stream := Inflated([], false);
      dataPos := 0;
      gammaLut := None;
      grayLut := None;
      tileGeometry := None;
      theTile := new int[0];
    }

    // -------------------------------------------------------------------------
    // Tables

    /** `initGammaLut(bits)`. */
    method InitGammaLut(bits: nat)
      modifies this`gammaLut
      ensures gammaLut == Some(GammaTable(curve, fileGamma, bits))
      ensures Valid() == old(Valid())
    {
      var numSamples := Pow2(bits % 32);
      var maxOutSample := MaxOutSample(bits);
      var lut := new int[numSamples];
      ghost var table := GammaTable(curve, fileGamma, bits);
      var i := 0;
      while i < numSamples
        invariant 0 <= i <= numSamples
        invariant forall j | 0 <= j < i :: lut[j] == table[j]
      {
        var igamma := curve(fileGamma, i, numSamples, maxOutSample);
        if igamma > maxOutSample {
          igamma := maxOutSample;
        }
        assert igamma == table[i];
        lut[i] := igamma;
        i := i + 1;
      }
      assert lut[..] == table;
      gammaLut := Some(lut[..]);
    }

    /** `initGrayLut(bits)`. */
    method InitGrayLut(bits: nat) returns (r: Result<(), Cause>)
      modifies this`grayLut
      ensures r.Ok? <==> GrayTable(performGammaCorrection, gammaLut, bits).Ok?
      ensures r.Ok? ==> grayLut == Some(GrayTable(performGammaCorrection, gammaLut, bits).value)
      ensures r.Fail? ==> grayLut == old(grayLut)
    {
      var len := Pow2(bits % 32);
      if performGammaCorrection {
        if gammaLut.None? {
          return Fail(NullArray);
        }
        if |gammaLut.value| < len {
          return Fail(IndexOutOfBounds);
        }
        grayLut := Some(gammaLut.value[..len]);
        return Ok(());
      }
      var row := ExpandBits(bits);
      if row.Fail? {
        return Fail(row.error);
      }
      if row.value.None? {
        return Fail(NullArray);
      }
      var e := row.value.value;
      var lut := new int[len];
      var i := 0;
      while i < len
        invariant 0 <= i <= len
        invariant forall j | 0 <= j < i :: lut[j] == e[j] as int
      {
        lut[i] := e[i] as int;
        i := i + 1;
      }
      assert lut[..] == GrayTable(performGammaCorrection, gammaLut, bits).value;
      grayLut := Some(lut[..]);
      r := Ok(());
    }

    // -------------------------------------------------------------------------
    // Critical chunks

    /** The assignments of `parse_IHDR_chunk` once its checks have passed, up to the layout. */
    method SetHeader(width: int32, height: int32, depth: nat, ct: nat, compression: nat, filter: nat, interlace: nat)
      requires Valid() && tileGeometry.None? && HeaderValid(depth, ct, compression, filter, interlace)
      modifies this`bounds, this`bitDepth, this`maxOpacity, this`colorType, this`compressionMethod,
               this`filterMethod, this`interlaceMethod, this`bytesPerPixel
      ensures Valid()
      ensures bounds == Some((width, height)) && bitDepth == depth && colorType == ct && interlaceMethod == interlace &&
              maxOpacity == MaxOpacity(depth) && bytesPerPixel == BytesPerPixel(ct, depth)
    {
      var opacity, bpp := MaxOpacity(depth), BytesPerPixel(ct, depth);
      assert bpp >= 1;
      bounds, bitDepth, maxOpacity, colorType := Some((width, height)), depth, opacity, ct;
      compressionMethod, filterMethod, interlaceMethod, bytesPerPixel := compression, filter, interlace, bpp;
    }

    /** The bands and mode of the `switch (colorType)`; colour types without a case leave them as they were. */
    method SetLayout(layout: Option<Layout>)
      requires Valid() && tileGeometry.None?
      requires layout.Some? ==> ModeBands(layout.value.postProcess, layout.value.inputBands) == Some(layout.value.outputBands)
      modifies this`inputBands, this`outputBands, this`postProcess
      ensures Valid()
      ensures layout.Some? ==> Layout(inputBands, outputBands, postProcess) == layout.value
      ensures layout.None? ==> inputBands == old(inputBands) && outputBands == old(outputBands) && postProcess == old(postProcess)
    {
      if layout.Some? {
        inputBands, outputBands, postProcess := layout.value.inputBands, layout.value.outputBands, layout.value.postProcess;
      }
    }

    /** The fields `parse_IHDR_chunk` sets once its checks have passed. */
    method ApplyHeader(h: (int32, int32, nat, nat, nat, nat, nat))
      requires Valid() && tileGeometry.None? && HeaderValid(h.2, h.3, h.4, h.5, h.6)
      modifies this`bounds, this`bitDepth, this`maxOpacity, this`colorType, this`compressionMethod,
               this`filterMethod, this`interlaceMethod, this`bytesPerPixel, this`inputBands, this`outputBands,
               this`postProcess
      ensures Valid()
      ensures bounds == Some((h.0, h.1)) && bitDepth == h.2 && colorType == h.3 && interlaceMethod == h.6 &&
              maxOpacity == MaxOpacity(bitDepth) && bytesPerPixel == BytesPerPixel(colorType, bitDepth)
      ensures HeaderLayout(colorType, bitDepth, Opts()).Some? ==>
                Layout(inputBands, outputBands, postProcess) == HeaderLayout(colorType, bitDepth, Opts()).value
      ensures HeaderLayout(colorType, bitDepth, Opts()).None? ==>
                inputBands == old(inputBands) && outputBands == old(outputBands) && postProcess == old(postProcess)
    {
      var (width, height, depth, ct, compression, filter, interlace) := h;
      SetHeader(width, height, depth, ct, compression, filter, interlace);
      var layout := HeaderLayout(ct, depth, Opts());
      if layout.Some? {
        LayoutModeFits(ct, depth, Opts());
      }
      SetLayout(layout);
    }

    /** `parse_IHDR_chunk`: the checks in the source's order, then the layout the colour type implies. */
    method ParseIHDR(c: PNGChunk) returns (r: Result<(), Cause>)
      requires Valid() && tileGeometry.None?
      modifies this`bounds, this`bitDepth, this`maxOpacity, this`colorType, this`compressionMethod,
               this`filterMethod, this`interlaceMethod, this`bytesPerPixel, this`inputBands, this`outputBands,
               this`postProcess
      ensures Valid()
      ensures r.Ok? <==> |c.data| >= 13 && HeaderValid(c.data[8], c.data[9], c.data[10], c.data[11], c.data[12])
      ensures r.Ok? ==>
                bounds == Some((c.GetInt4(0).value, c.GetInt4(4).value)) &&
                bitDepth == c.data[8] && colorType == c.data[9] && interlaceMethod == c.data[12] &&
                maxOpacity == MaxOpacity(bitDepth) && bytesPerPixel == BytesPerPixel(colorType, bitDepth)
      ensures r.Ok? && HeaderLayout(colorType, bitDepth, Opts()).Some? ==>
                Layout(inputBands, outputBands, postProcess) == HeaderLayout(colorType, bitDepth, Opts()).value
      ensures r.Ok? && HeaderLayout(colorType, bitDepth, Opts()).None? ==>
                inputBands == old(inputBands) && outputBands == old(outputBands) && postProcess == old(postProcess)
      ensures r.Fail? ==> bounds == old(bounds) && bitDepth == old(bitDepth) && colorType == old(colorType) &&
                          postProcess == old(postProcess) && inputBands == old(inputBands) && outputBands == old(outputBands)
    {
      var h :- HeaderCheck(c);
      ApplyHeader(h);
      r := Ok(());
    }

    /** The palette fields PLTE sets. */
    method SetPalette(entries: nat, channels: (seq<int8>, seq<int8>, seq<int8>))
      modifies this`paletteEntries, this`redPalette, this`greenPalette, this`bluePalette
      ensures paletteEntries == entries
      ensures (redPalette, greenPalette, bluePalette) == (Some(channels.0), Some(channels.1), Some(channels.2))
      ensures Valid() == old(Valid())
    {
      paletteEntries := entries;
      redPalette, greenPalette, bluePalette := Some(channels.0), Some(channels.1), Some(channels.2);
    }

    /** `parse_PLTE_chunk`: `length / 3` entries, through the gamma table (built first if need be) with gamma correction. */
    method ParsePLTE(c: PNGChunk) returns (r: Result<(), Cause>)
      requires Valid()
      modifies this`paletteEntries, this`redPalette, this`greenPalette, this`bluePalette, this`gammaLut
      ensures Valid()
      ensures performGammaCorrection && old(gammaLut).None? ==>
                gammaLut == Some(GammaTable(curve, fileGamma, if bitDepth == 16 then 16 else 8))
      ensures !(performGammaCorrection && old(gammaLut).None?) ==> gammaLut == old(gammaLut)
      ensures r.Ok? <==> !performGammaCorrection || PlteCovered(c, gammaLut.value)
      ensures r.Ok? ==>
                var lut := if performGammaCorrection then gammaLut.value else [];
                paletteEntries == |c.data| / 3 &&
                redPalette == Some(PlteChannel(c, 0, performGammaCorrection, lut)) &&
                greenPalette == Some(PlteChannel(c, 1, performGammaCorrection, lut)) &&
                bluePalette == Some(PlteChannel(c, 2, performGammaCorrection, lut))
    {
      if performGammaCorrection && gammaLut.None? {
        InitGammaLut(if bitDepth == 16 then 16 else 8);
      }
      var lut := if performGammaCorrection then gammaLut.value else [];
      var channels :- ReadPalette(c, performGammaCorrection, lut);
      SetPalette(|c.data| / 3, channels);
      r := Ok(());
    }

    // -------------------------------------------------------------------------
    // Ancillary chunks

    /**
     * `parse_bKGD_chunk`: the samples for the colour type, then the
     * background colour property, with the expanded gray read unsigned as
     * in `BackgroundColor` (the source's signed reading is
     * `BackgroundColorAsWritten`).
     */
    method ParseBKGD(c: PNGChunk) returns (r: Result<(), Cause>)
      modifies this`bkgdRed, this`bkgdGreen, this`bkgdBlue, this`backgroundColor
      ensures var s := BkgdSamples(c, colorType, redPalette, greenPalette, bluePalette,
                                   (old(bkgdRed), old(bkgdGreen), old(bkgdBlue)));
              (r.Ok? <==> s.Ok? && BackgroundColor(colorType, bitDepth, s.value).Ok?) &&
              (r.Ok? ==> (bkgdRed, bkgdGreen, bkgdBlue) == s.value &&
                         backgroundColor == Some(BackgroundColor(colorType, bitDepth, s.value).value))
    {
      var s :- BkgdSamples(c, colorType, redPalette, greenPalette, bluePalette, (bkgdRed, bkgdGreen, bkgdBlue));
      var color :- BackgroundColor(colorType, bitDepth, s);
      bkgdRed, bkgdGreen, bkgdBlue := s.0, s.1, s.2;
      backgroundColor := Some(color);
      r := Ok(());
    }

    /** `parse_cHRM_chunk`: ignored once an sRGB chunk has set a rendering intent, so a null chunk passes then. */
    method ParseCHRM(c: Option<PNGChunk>) returns (r: Result<(), Cause>)
      modifies this`chromaticity
      ensures sRGBRenderingIntent != -1 ==> r.Ok? && chromaticity == old(chromaticity)
      ensures sRGBRenderingIntent == -1 ==>
                (r.Ok? <==> c.Some? && ChunkChromaticity(c.value).Ok?) &&
                (r.Ok? ==> chromaticity == Some(ChunkChromaticity(c.value).value))
    {
      if sRGBRenderingIntent != -1 {
        return Ok(());
      }
      if c.None? {
        return Fail(NullChunk);
      }
      var ch :- ChunkChromaticity(c.value);
      chromaticity := Some(ch);
      r := Ok(());
    }

    /** `parse_gAMA_chunk`: ignored once an sRGB chunk has set a rendering intent. */
    method ParseGAMA(c: Option<PNGChunk>) returns (r: Result<(), Cause>)
      modifies this`fileGamma
      ensures sRGBRenderingIntent != -1 ==> r.Ok? && fileGamma == old(fileGamma)
      ensures sRGBRenderingIntent == -1 ==>
                (r.Ok? <==> c.Some? && ChunkGamma(c.value).Ok?) &&
                (r.Ok? ==> fileGamma == ChunkGamma(c.value).value)
    {
      if sRGBRenderingIntent != -1 {
        return Ok(());
      }
      if c.None? {
        return Fail(NullChunk);
      }
      var g :- ChunkGamma(c.value);
      fileGamma := g;
      r := Ok(());
    }

    /** `parse_hIST_chunk`: a frequency per palette entry is read; nothing is kept. */
    method ParseHIST(c: PNGChunk) returns (r: Result<(), Cause>)
      ensures r == HistCheck(c, redPalette)
    {
      if redPalette.None? {
        return Fail(HistBeforePalette);
      }
      var length := |redPalette.value|;
      var i := 0;
      while i < length
        invariant 0 <= i <= length
        invariant 2 * i <= |c.data|
      {
        var _ :- c.GetInt2(2 * i);
        i := i + 1;
      }
      r := Ok(());
    }

    /** `parse_iCCP_chunk`: the profile name is read up to its NUL byte; nothing is kept. */
    method ParseICCP(c: PNGChunk) returns (r: Result<(), Cause>)
      ensures r.Ok? <==> FirstNul(c.data, 0).Some?
    {
      var _ :- ReadKeyword(c);
      r := Ok(());
    }

    /** `parse_pHYs_chunk`. */
    method ParsePHYS(c: PNGChunk) returns (r: Result<(), Cause>)
      modifies this`physicalDimension
      ensures r.Ok? <==> ChunkPhysical(c).Ok?
      ensures r.Ok? ==> physicalDimension == Some(ChunkPhysical(c).value)
    {
      var p :- ChunkPhysical(c);
      physicalDimension := Some(p);
      r := Ok(());
    }

    /** `parse_sBIT_chunk`: three entries for a palette image, one per input band otherwise, each in 1..depth. */
    method ParseSBIT(c: PNGChunk) returns (r: Result<(), Cause>)
      modifies this`significantBits
      ensures var count, limit := SbitCount(colorType, inputBands), SbitLimit(colorType, bitDepth);
              (r.Ok? <==> SbitOk(c, count, limit)) &&
              (r.Ok? ==> significantBits == Some(SbitValues(c, count)))
    {
      var count := SbitCount(colorType, inputBands);
      var depth := SbitLimit(colorType, bitDepth);
      var bits: seq<int> := [];
      var i := 0;
      while i < count
        invariant 0 <= i <= count
        invariant i <= |c.data| && forall j | 0 <= j < i :: 0 < Signed8(c.data[j]) <= depth
        invariant bits == seq(i, j requires 0 <= j < i => Signed8(c.data[j]) as int)
      {
        var b :- c.GetByte(i);
        if b <= 0 || b > depth {
          return Fail(BadSignificantBits);
        }
        bits := bits + [b as int];
        i := i + 1;
      }
      significantBits := Some(bits);
      r := Ok(());
    }

    /**
     * `parse_sRGB_chunk`: the rendering intent as a signed byte, and the
     * gamma and the chromaticities sRGB implies, on the cHRM scale of
     * `SrgbChromaticity` (the source's values are `SrgbChromaticityAsWritten`).
     */
    method ParseSRGB(c: PNGChunk) returns (r: Result<(), Cause>)
      modifies this`sRGBRenderingIntent, this`fileGamma, this`chromaticity
      ensures r.Ok? <==> |c.data| >= 1
      ensures r.Ok? ==> sRGBRenderingIntent == Signed8(c.data[0]) && fileGamma == SRGB_GAMMA &&
                        chromaticity == Some(SrgbChromaticity())
    {
      var intent :- c.GetByte(0);
      sRGBRenderingIntent := intent;
      fileGamma := SRGB_GAMMA;
      chromaticity := Some(SrgbChromaticity());
      r := Ok(());
    }

    /**
     * `parse_tEXt_chunk`: keyword and text appended to the text lists, read
     * as Latin-1 as in `TextEntry` (the source's reading is `TextEntryAsWritten`).
     */
    method ParseTEXt(c: PNGChunk) returns (r: Result<(), Cause>)
      modifies this`textKeys, this`textStrings
      ensures r.Ok? <==> TextEntry(c).Ok?
      ensures r.Ok? ==> textKeys == old(textKeys) + [TextEntry(c).value.0] &&
                        textStrings == old(textStrings) + [TextEntry(c).value.1]
    {
      var key :- ReadKeyword(c);
      var textIndex := key.1;
      var value := "";
      var i := textIndex;
      while i < |c.data|
        invariant textIndex <= i <= |c.data|
        invariant value == Latin1(c.data[textIndex..i])
      {
        var b := c.GetByte(i).value;
        assert c.data[textIndex..i + 1] == c.data[textIndex..i] + [c.data[i]];
        value := value + [Unsigned8(b) as char];
        i := i + 1;
      }
      assert c.data[textIndex..i] == c.data[textIndex..];
      textKeys := textKeys + [key.0];
      textStrings := textStrings + [value];
      r := Ok(());
    }

    /** `parse_tIME_chunk`: the six fields are read; the date made of them is not modelled. */
    method ParseTIME(c: PNGChunk) returns (r: Result<(), Cause>)
      ensures r == TimeCheck(c)
    {
      r := TimeCheck(c);
    }

    /** tRNS for a palette image: alpha entries, 255 past the chunk's end. */
    method TrnsPalette(c: PNGChunk) returns (r: Result<(), Cause>)
      requires Valid() && tileGeometry.None? && colorType == PNG_COLOR_PALETTE
      modifies this`alphaPalette, this`postProcess, this`outputBands, this`outputHasAlphaPalette
      ensures Valid()
      ensures r.Ok? <==> |c.data| <= paletteEntries
      ensures r.Ok? ==> alphaPalette == Some(AlphaTable(c, paletteEntries))
      ensures r.Ok? && !suppressAlpha && expandPalette ==> postProcess == Mode(PostPaletteToRgba, false) && outputBands == 4
      ensures r.Ok? && !suppressAlpha && !expandPalette ==> outputHasAlphaPalette
      ensures suppressAlpha || r.Fail? ==> postProcess == old(postProcess) && outputBands == old(outputBands)
    {
      var entries := |c.data|;
      if entries > paletteEntries {
        return Fail(TooManyAlphaEntries);
      }
      var alpha: seq<int8> := [];
      var i := 0;
      while i < entries
        invariant 0 <= i <= entries && alpha == AlphaTable(c, paletteEntries)[..i]
      {
        alpha := alpha + [c.GetByte(i).value];
        i := i + 1;
      }
      while i < paletteEntries
        invariant entries <= i <= paletteEntries && alpha == AlphaTable(c, paletteEntries)[..i]
      {
        alpha := alpha + [-1];
        i := i + 1;
      }
      assert alpha == AlphaTable(c, paletteEntries);
      alphaPalette := Some(alpha);
      if !suppressAlpha {
        if expandPalette {
          postProcess := Mode(PostPaletteToRgba, false);
          outputBands := 4;
        } else {
          outputHasAlphaPalette := true;
        }
      }
      r := Ok(());
    }

    /** tRNS for a gray image: the transparent gray, and a mode that adds alpha (through the gray table below 8 bits). */
    method TrnsGray(c: PNGChunk) returns (r: Result<(), Cause>)
      requires Valid() && tileGeometry.None? && colorType == PNG_COLOR_GRAY
      modifies this`postProcess, this`outputBands, this`grayTransparentAlpha, this`output8BitGray, this`maxOpacity
      ensures Valid()
      ensures r.Ok? <==> |c.data| >= 2
      ensures r.Ok? ==> grayTransparentAlpha == c.GetInt2(0).value
      ensures r.Ok? && !suppressAlpha ==>
                postProcess == Mode(if bitDepth < 8 then PostGrayLutAddTrans else PostAddGrayTrans, expandGrayAlpha) &&
                outputBands == (if expandGrayAlpha then 4 else 2) &&
                (bitDepth < 8 ==> output8BitGray && maxOpacity == 255)
      ensures suppressAlpha || r.Fail? ==> postProcess == old(postProcess) && outputBands == old(outputBands)
    {
      var key :- c.GetInt2(0);
      grayTransparentAlpha := key;
      if !suppressAlpha {
        var step;
        if bitDepth < 8 {
          output8BitGray := true;
          maxOpacity := 255;
          step := PostGrayLutAddTrans;
        } else {
          step := PostAddGrayTrans;
        }
        if expandGrayAlpha {
          outputBands := 4;
          postProcess := Mode(step, true);
        } else {
          outputBands := 2;
          postProcess := Mode(step, false);
        }
      }
      r := Ok(());
    }

    /** tRNS for an RGB image: the transparent colour, and the mode that adds alpha. */
    method TrnsRgb(c: PNGChunk) returns (r: Result<(), Cause>)
      requires Valid() && tileGeometry.None? && colorType == PNG_COLOR_RGB
      modifies this`postProcess, this`outputBands, this`redTransparentAlpha, this`greenTransparentAlpha, this`blueTransparentAlpha
      ensures Valid()
      ensures r.Ok? <==> |c.data| >= 6
      ensures r.Ok? ==> (redTransparentAlpha, greenTransparentAlpha, blueTransparentAlpha) ==
                        (c.GetInt2(0).value, c.GetInt2(2).value, c.GetInt2(4).value)
      ensures r.Ok? && !suppressAlpha ==> postProcess == Mode(PostAddRgbTrans, false) && outputBands == 4
      ensures suppressAlpha || r.Fail? ==> postProcess == old(postProcess) && outputBands == old(outputBands)
    {
      var red :- c.GetInt2(0);
      var green :- c.GetInt2(2);
      var blue :- c.GetInt2(4);
      redTransparentAlpha, greenTransparentAlpha, blueTransparentAlpha := red, green, blue;
      if !suppressAlpha {
        outputBands := 4;
        postProcess := Mode(PostAddRgbTrans, false);
      }
      r := Ok(());
    }

    /**
     * `parse_tRNS_chunk`: alpha entries for a palette image, a gray key or
     * an RGB key otherwise, each switching to an alpha-adding mode unless
     * alpha is suppressed; refused for images with an alpha channel, and
     * ignored for colour types 1 and 5.
     */
    method ParseTRNS(c: PNGChunk) returns (r: Result<(), Cause>)
      requires Valid() && tileGeometry.None?
      modifies this`alphaPalette, this`postProcess, this`outputBands, this`outputHasAlphaPalette,
               this`grayTransparentAlpha, this`output8BitGray, this`maxOpacity,
               this`redTransparentAlpha, this`greenTransparentAlpha, this`blueTransparentAlpha
      ensures Valid()
      ensures colorType in {PNG_COLOR_GRAY_ALPHA, PNG_COLOR_RGB_ALPHA} ==> r == Fail(AlphaChunkForbidden)
      ensures !(colorType in {PNG_COLOR_GRAY, PNG_COLOR_RGB, PNG_COLOR_PALETTE, PNG_COLOR_GRAY_ALPHA, PNG_COLOR_RGB_ALPHA}) ==>
                r.Ok? && postProcess == old(postProcess) && outputBands == old(outputBands)
      // palette: the alpha entries
      ensures colorType == PNG_COLOR_PALETTE ==> (r.Ok? <==> |c.data| <= paletteEntries)
      ensures colorType == PNG_COLOR_PALETTE && r.Ok? ==> alphaPalette == Some(AlphaTable(c, paletteEntries))
      ensures colorType == PNG_COLOR_PALETTE && r.Ok? && !suppressAlpha && expandPalette ==>
                postProcess == Mode(PostPaletteToRgba, false) && outputBands == 4
      ensures colorType == PNG_COLOR_PALETTE && r.Ok? && !suppressAlpha && !expandPalette ==> outputHasAlphaPalette
      // gray: the transparent gray
      ensures colorType == PNG_COLOR_GRAY ==> (r.Ok? <==> |c.data| >= 2)
      ensures colorType == PNG_COLOR_GRAY && r.Ok? ==> grayTransparentAlpha == c.GetInt2(0).value
      ensures colorType == PNG_COLOR_GRAY && r.Ok? && !suppressAlpha ==>
                postProcess == Mode(if bitDepth < 8 then PostGrayLutAddTrans else PostAddGrayTrans, expandGrayAlpha) &&
                outputBands == (if expandGrayAlpha then 4 else 2) &&
                (bitDepth < 8 ==> output8BitGray && maxOpacity == 255)
      // RGB: the transparent colour
      ensures colorType == PNG_COLOR_RGB ==> (r.Ok? <==> |c.data| >= 6)
      ensures colorType == PNG_COLOR_RGB && r.Ok? ==>
                (redTransparentAlpha, greenTransparentAlpha, blueTransparentAlpha) ==
                (c.GetInt2(0).value, c.GetInt2(2).value, c.GetInt2(4).value)
      ensures colorType == PNG_COLOR_RGB && r.Ok? && !suppressAlpha ==> postProcess == Mode(PostAddRgbTrans, false) && outputBands == 4
      // a failure, or suppressed alpha, leaves the mode and the bands alone
      ensures suppressAlpha || r.Fail? ==> postProcess == old(postProcess) && outputBands == old(outputBands)
    {
      if colorType == PNG_COLOR_PALETTE {
        r := TrnsPalette(c);
      } else if colorType == PNG_COLOR_GRAY {
        r := TrnsGray(c);
      } else if colorType == PNG_COLOR_RGB {
        r := TrnsRgb(c);
      } else if colorType == PNG_COLOR_GRAY_ALPHA || colorType == PNG_COLOR_RGB_ALPHA {
        r := Fail(AlphaChunkForbidden);
      } else {
        r := Ok(());
      }
    }

    /**
     * `parse_zTXt_chunk`: keyword, method byte, inflated text; an inflater
     * error records nothing. The keyword is Latin-1 as in `ZtxtEntry` (the
     * source's reading is `ZtxtEntryAsWritten`).
     */
    method ParseZTXt(c: PNGChunk) returns (r: Result<(), Cause>)
      modifies this`ztextKeys, this`ztextStrings
      ensures r.Ok? <==> ZtxtEntry(c, inflate).Ok?
      ensures r.Ok? && ZtxtEntry(c, inflate).value.Some? ==>
                ztextKeys == old(ztextKeys) + [ZtxtEntry(c, inflate).value.value.0] &&
                ztextStrings == old(ztextStrings) + [ZtxtEntry(c, inflate).value.value.1]
      ensures r.Ok? && ZtxtEntry(c, inflate).value.None? ==>
                ztextKeys == old(ztextKeys) && ztextStrings == old(ztextStrings)
    {
      var key :- ReadKeyword(c);
      var textIndex := key.1;
      var _ :- c.GetByte(textIndex);
      var text := inflate(c.data[textIndex + 1..]);
      if text.corrupt {
        return Ok(());
      }
      var value := "";
      var i := 0;
      while i < |text.bytes|
        invariant 0 <= i <= |text.bytes| && value == Latin1(text.bytes[..i])
      {
        assert text.bytes[..i + 1] == text.bytes[..i] + [text.bytes[i]];
        value := value + [text.bytes[i] as char];
        i := i + 1;
      }
      assert text.bytes[..i] == text.bytes;
      ztextKeys := ztextKeys + [key.0];
      ztextStrings := ztextStrings + [value];
      r := Ok(());
    }

    /** An IDAT chunk: its data joins the compressed image stream. */
    method AddImageData(c: PNGChunk)
      modifies this`streamVec
      ensures streamVec == old(streamVec) + [c.data]
      ensures Concat(streamVec) == Concat(old(streamVec)) + c.data
    {
      ConcatLength(streamVec, c.data);
      streamVec := streamVec + [c.data];
    }

    /** A chunk of any other type: kept by its type string, in order. */
    method AddPrivateChunk(c: PNGChunk)
      modifies this`privateChunks
      ensures privateChunks == old(privateChunks) + [(c.GetTypeString(), c.data)]
    {
      privateChunks := privateChunks + [(c.GetTypeString(), c.data)];
    }

    // -------------------------------------------------------------------------
    // Image data

    /** The sample depth of the tile: 8 for gray below 8 bits with 8-bit output, and for expanded palettes. */
    function TileDepth(): nat
      reads this`colorType, this`bitDepth, this`output8BitGray
    {
      if colorType == PNG_COLOR_GRAY && bitDepth < 8 && output8BitGray then 8
      else if colorType == PNG_COLOR_PALETTE && expandPalette then 8
      else bitDepth
    }

    /** The tile `parse_IEND_chunk` creates: the image size, the output bands, the tile depth. */
    function TileRaster(): Result<(Geometry, seq<int>), Cause>
      requires bounds.Some?
      reads this`bounds, this`outputBands, this`colorType, this`bitDepth, this`output8BitGray
    {
      CreateRaster(bounds.value.0, bounds.value.1, outputBands, TileDepth())
    }

    /** The modes that read the gray table: POST_GRAY_LUT, POST_GRAY_LUT_ADD_TRANS and its expanded form. */
    predicate NeedsGrayLut()
      reads this`postProcess
    {
      postProcess in {Mode(PostGrayLut, false), Mode(PostGrayLutAddTrans, false), Mode(PostGrayLutAddTrans, true)}
    }

    /**
     * The `IndexColorModel` of an unexpanded palette image can be built:
     * 1 to 16 bits, at least one entry and a palette (with alpha if the
     * output has an alpha palette) that covers every entry.
     */
    predicate ColorModelOk()
      reads this`colorType, this`bitDepth, this`paletteEntries, this`redPalette, this`greenPalette,
            this`bluePalette, this`alphaPalette, this`outputHasAlphaPalette
    {
      colorType == PNG_COLOR_PALETTE && !expandPalette ==>
        1 <= bitDepth <= 16 && paletteEntries >= 1 &&
        redPalette.Some? && |redPalette.value| >= paletteEntries &&
        greenPalette.Some? && |greenPalette.value| >= paletteEntries &&
        bluePalette.Some? && |bluePalette.value| >= paletteEntries &&
        (outputHasAlphaPalette ==> alphaPalette.Some? && |alphaPalette.value| >= paletteEntries)
    }

    /** `decodePass` on the tile, reading the inflated data from `dataPos` on. */
    method DecodePass(p: Pass) returns (r: Result<(), Cause>)
      requires Valid() && tileGeometry.Some?
      modifies theTile, this`dataPos
      ensures var spec := DecodePassSpec(Context(), Emit(), p, old(dataPos), old(theTile[..]));
              (r.Ok? <==> spec.Ok?) && (r.Ok? ==> (dataPos, theTile[..]) == spec.value)
    {
      var c, f, g := Context(), PixelFunction(), tileGeometry.value;
      ghost var emit := Emit();
      EmitterEmitsRows(f, g, c.bitDepth, c.inputBands);
      var next :- PassInto(c, f, g, emit, p, dataPos, theTile);
      dataPos := next;
      r := Ok(());
    }

    /** Pass k of `decodeImage`, run from where the passes before it left the stream and the tile. */
    method DecodePassOf(passes: seq<Pass>, k: nat, ghost pos0: nat, ghost data0: seq<int>) returns (r: Result<(), Cause>)
      requires Valid() && tileGeometry.Some? && k < |passes|
      requires DecodePasses(Context(), Emit(), passes, pos0, data0, k) == Ok((dataPos, theTile[..]))
      modifies theTile, this`dataPos
      ensures var spec := DecodePasses(Context(), Emit(), passes, pos0, data0, k + 1);
              (r.Ok? <==> spec.Ok?) && (r.Ok? ==> (dataPos, theTile[..]) == spec.value)
      ensures r.Fail? ==> DecodePasses(Context(), Emit(), passes, pos0, data0, |passes|).Fail?
      ensures Valid() && tileGeometry == old(tileGeometry) && Context() == old(Context()) && Emit() == old(Emit())
    {
      PassesFailStay(Context(), Emit(), passes, pos0, data0, k + 1, |passes|);
      r := DecodePass(passes[k]);
    }

    /**
     * `decodeImage`: one pass over the whole image, or the seven Adam7
     * passes with interlacing, in the order of `Passes`.
     */
    method DecodeImage() returns (r: Result<(), Cause>)
      requires Valid() && tileGeometry.Some?
      modifies theTile, this`dataPos
      ensures var passes := Passes(tileGeometry.value.width, tileGeometry.value.height, interlaceMethod == 1);
              var spec := DecodePasses(Context(), Emit(), passes, old(dataPos), old(theTile[..]), |passes|);
              (r.Ok? <==> spec.Ok?) && (r.Ok? ==> (dataPos, theTile[..]) == spec.value)
    {
      var passes := Passes(tileGeometry.value.width, tileGeometry.value.height, interlaceMethod == 1);
      ghost var pos0, data0 := dataPos, theTile[..];
      ghost var c, emit := Context(), Emit();
      var k := 0;
      r := Ok(());
      while k < |passes| && r.Ok?
        invariant 0 <= k <= |passes|
        invariant r.Ok? ==> DecodePasses(c, emit, passes, pos0, data0, k) == Ok((dataPos, theTile[..]))
        invariant r.Fail? ==> DecodePasses(c, emit, passes, pos0, data0, |passes|).Fail?
      {
        r := DecodePassOf(passes, k, pos0, data0);
        k := k + 1;
      }
    }

    /** `getTile`: the decoder has a single tile, (0, 0). */
    method GetTile(tileX: int, tileY: int) returns (r: Result<array<int>, Cause>)
      ensures r.Ok? <==> tileX == 0 && tileY == 0
      ensures r.Ok? ==> r.value == theTile
      ensures r.Fail? ==> r.error == BadTile
    {
      if tileX != 0 || tileY != 0 {
        return Fail(BadTile);
      }
      r := Ok(theTile);
    }

    // -------------------------------------------------------------------------
    // IEND and the chunk loop

    /** The passes of `decodeImage` over the tile. */
    function ImagePasses(): seq<Pass>
      requires tileGeometry.Some?
      reads this`tileGeometry, this`interlaceMethod
    {
      Passes(tileGeometry.value.width, tileGeometry.value.height, interlaceMethod == 1)
    }

    /** The tables `parse_IEND_chunk` builds before decoding: the gamma table if still missing, the gray table if the mode reads it. */
    method PrepareTables() returns (r: Result<(), Cause>)
      modifies this`gammaLut, this`grayLut
      ensures gammaLut == (if performGammaCorrection && old(gammaLut).None? then Some(GammaTable(curve, fileGamma, bitDepth))
                           else old(gammaLut))
      ensures NeedsGrayLut() ==> (r.Ok? <==> GrayTable(performGammaCorrection, gammaLut, bitDepth).Ok?)
      ensures NeedsGrayLut() && r.Ok? ==> grayLut == Some(GrayTable(performGammaCorrection, gammaLut, bitDepth).value)
      ensures !NeedsGrayLut() ==> r.Ok? && grayLut == old(grayLut)
      ensures Valid() == old(Valid())
    {
      if performGammaCorrection && gammaLut.None? {
        InitGammaLut(bitDepth);
      }
      if NeedsGrayLut() {
        r := InitGrayLut(bitDepth);
      } else {
        r := Ok(());
      }
    }

    /**
     * The rest of `parse_IEND_chunk`: the gamma table if still missing, the
     * gray table if the mode reads it, the passes from the stream's start
     * into the empty tile, and the colour model check.
     */
    method DecodeTile() returns (r: Result<(), Cause>)
      requires Valid() && tileGeometry.Some? && bounds.Some? && TileRaster().Ok?
      requires dataPos == 0 && theTile[..] == TileRaster().value.1
      modifies theTile, this`dataPos, this`gammaLut, this`grayLut
      ensures Valid() && tileGeometry == old(tileGeometry)
      ensures r.Ok? ==> ColorModelOk()
      ensures gammaLut == (if performGammaCorrection && old(gammaLut).None? then Some(GammaTable(curve, fileGamma, bitDepth))
                           else old(gammaLut))
      ensures r.Ok? && NeedsGrayLut() ==>
                GrayTable(performGammaCorrection, gammaLut, bitDepth).Ok? &&
                grayLut == Some(GrayTable(performGammaCorrection, gammaLut, bitDepth).value)
      ensures r.Ok? ==> DecodePasses(Context(), Emit(), ImagePasses(), 0, TileRaster().value.1, |ImagePasses()|) ==
                        Ok((dataPos, theTile[..]))
      ensures ((NeedsGrayLut() ==> GrayTable(performGammaCorrection, gammaLut, bitDepth).Ok?) &&
               DecodePasses(Context(), Emit(), ImagePasses(), 0, TileRaster().value.1, |ImagePasses()|).Ok? &&
               ColorModelOk()) ==> r.Ok?
    {
      var _ :- PrepareTables();
      var _ :- DecodeImage();
      if !ColorModelOk() {
        return Fail(BadColorModel);
      }
      r := Ok(());
    }

    /**
     * `parse_IEND_chunk` up to the raster: the inflated IDAT data becomes the
     * stream, read from its start, and the empty tile is created, which
     * needs an IHDR chunk before and a raster Java can build. `DecodeTile`
     * is the rest of it.
     */
    method ParseIEND() returns (r: Result<(), Cause>)
      requires Valid() && tileGeometry.None?
      modifies this`stream, this`dataPos, this`theTile, this`tileGeometry
      ensures Valid() && stream == inflate(Concat(streamVec)) && dataPos == 0
      ensures bounds.None? ==> r == Fail(MissingHeader)
      ensures bounds.Some? && TileRaster().Fail? ==> r == Fail(TileRaster().error)
      ensures r.Ok? <==> bounds.Some? && TileRaster().Ok?
      ensures r.Ok? ==> tileGeometry == Some(TileRaster().value.0) && theTile[..] == TileRaster().value.1 && fresh(theTile)
      ensures r.Fail? ==> tileGeometry == None
    {
      stream, dataPos := inflate(Concat(streamVec)), 0;
      r := CreateTile();
    }

    /** The empty raster of `parse_IEND_chunk`. */
    method CreateTile() returns (r: Result<(), Cause>)
      requires Valid() && tileGeometry.None?
      modifies this`theTile, this`tileGeometry
      ensures Valid()
      ensures bounds.None? ==> r == Fail(MissingHeader)
      ensures bounds.Some? && TileRaster().Fail? ==> r == Fail(TileRaster().error)
      ensures r.Ok? <==> bounds.Some? && TileRaster().Ok?
      ensures r.Ok? ==> tileGeometry == Some(TileRaster().value.0) && theTile[..] == TileRaster().value.1 && fresh(theTile)
      ensures r.Fail? ==> tileGeometry == None
    {
      if bounds.None? {
        return Fail(MissingHeader);
      }
      var raster :- TileRaster();
      var (g, data) := raster;
      var tile := new int[g.Size()](_ => 0);
      assert tile[..] == data;
      theTile, tileGeometry := tile, Some(g);
      r := Ok(());
    }

    /** The constructor's last step: without an sBIT chunk, every input band has `bitDepth` significant bits. */
    method FinishSignificantBits()
      modifies this`significantBits
      ensures old(significantBits).None? ==> significantBits == Some(DefaultSignificantBits(inputBands, bitDepth))
      ensures old(significantBits).Some? ==> significantBits == old(significantBits)
      ensures Valid() == old(Valid()) && ColorModelOk() == old(ColorModelOk())
    {
      if significantBits.None? {
        var bits := new int[inputBands];
        var i := 0;
        while i < inputBands
          invariant 0 <= i <= inputBands
          invariant forall j | 0 <= j < i :: bits[j] == bitDepth
        {
          bits[i] := bitDepth;
          i := i + 1;
        }
        assert bits[..] == DefaultSignificantBits(inputBands, bitDepth);
        significantBits := Some(bits[..]);
      }
    }

    /**
     * The parsers that read nothing of their chunk in the current state, and
     * so also pass when `readChunk` returned null: bKGD for a colour type
     * without samples, hIST for an empty or missing palette, sBIT with no
     * entries to read, and tRNS for a colour type other than 0, 2 and 3.
     */
    predicate ReadsNoChunk(name: string)
      reads this`colorType, this`redPalette, this`inputBands
    {
      (name == "bKGD" && !(colorType in {0, 2, 3, 4, 6})) ||
      (name == "hIST" && (redPalette.None? || |redPalette.value| == 0)) ||
      (name == "sBIT" && SbitCount(colorType, inputBands) == 0) ||
      (name == "tRNS" && !(colorType in {0, 2, 3}))
    }

    /** The critical chunks of the constructor's loop other than IEND: IHDR, PLTE and IDAT. */
    method ParseCriticalChunk(name: string, c: PNGChunk) returns (r: Result<(), Cause>)
      requires Valid() && tileGeometry.None? && name in {"IHDR", "PLTE", "IDAT"}
      modifies this`bounds, this`bitDepth, this`maxOpacity, this`colorType, this`compressionMethod,
               this`filterMethod, this`interlaceMethod, this`bytesPerPixel, this`inputBands, this`outputBands,
               this`postProcess, this`paletteEntries, this`redPalette, this`greenPalette, this`bluePalette,
               this`gammaLut, this`streamVec
      ensures Valid() && tileGeometry.None?
      ensures name == "IDAT" ==> r.Ok? && streamVec == old(streamVec) + [c.data]
      ensures name != "IDAT" ==> streamVec == old(streamVec)
    {
      if name == "IHDR" {
        r := ParseIHDR(c);
      } else if name == "PLTE" {
        r := ParsePLTE(c);
      } else {
        AddImageData(c);
        r := Ok(());
      }
    }

    /** The chunks of the constructor's loop that describe the image, tRNS aside: bKGD, hIST, pHYs, sBIT and sRGB. */
    method ParseImageInfoChunk(name: string, c: PNGChunk) returns (r: Result<(), Cause>)
      requires name in {"bKGD", "hIST", "pHYs", "sBIT", "sRGB"}
      modifies this`bkgdRed, this`bkgdGreen, this`bkgdBlue, this`backgroundColor,
               this`physicalDimension, this`significantBits, this`sRGBRenderingIntent, this`fileGamma, this`chromaticity
    {
      if name == "bKGD" {
        r := ParseBKGD(c);
      } else if name == "hIST" {
        r := ParseHIST(c);
      } else if name == "pHYs" {
        r := ParsePHYS(c);
      } else if name == "sBIT" {
        r := ParseSBIT(c);
      } else {
        r := ParseSRGB(c);
      }
    }

    /** The chunks of the constructor's loop that carry text or are kept as they are: iCCP, tEXt, tIME, zTXt and the rest. */
    method ParseOtherChunk(name: string, c: PNGChunk) returns (r: Result<(), Cause>)
      requires !(name in PARSED_CHUNKS - {"iCCP", "tEXt", "tIME", "zTXt"})
      modifies this`textKeys, this`textStrings, this`ztextKeys, this`ztextStrings, this`privateChunks
      ensures !(name in PARSED_CHUNKS) ==> r.Ok? && privateChunks == old(privateChunks) + [(c.GetTypeString(), c.data)]
      ensures name in PARSED_CHUNKS ==> privateChunks == old(privateChunks)
    {
      if name == "iCCP" {
        r := ParseICCP(c);
      } else if name == "tEXt" {
        r := ParseTEXt(c);
      } else if name == "tIME" {
        r := ParseTIME(c);
      } else if name == "zTXt" {
        r := ParseZTXt(c);
      } else {
        AddPrivateChunk(c);
        r := Ok(());
      }
    }

    /** The parser for a chunk that was read, by its type; cHRM and gAMA, which take a possibly null chunk, aside. */
    method ParseChunkData(name: string, c: PNGChunk) returns (r: Result<(), Cause>)
      requires Valid() && tileGeometry.None? && !(name in {"IEND", "cHRM", "gAMA"})
      modifies this`bounds, this`bitDepth, this`maxOpacity, this`colorType, this`compressionMethod,
               this`filterMethod, this`interlaceMethod, this`bytesPerPixel, this`inputBands, this`outputBands,
               this`postProcess, this`paletteEntries, this`redPalette, this`greenPalette, this`bluePalette,
               this`gammaLut, this`streamVec, this`bkgdRed, this`bkgdGreen, this`bkgdBlue, this`backgroundColor,
               this`chromaticity, this`fileGamma, this`physicalDimension, this`significantBits,
               this`sRGBRenderingIntent, this`textKeys, this`textStrings, this`alphaPalette,
               this`outputHasAlphaPalette, this`grayTransparentAlpha, this`output8BitGray,
               this`redTransparentAlpha, this`greenTransparentAlpha, this`blueTransparentAlpha,
               this`ztextKeys, this`ztextStrings, this`privateChunks
      ensures Valid() && tileGeometry.None?
      ensures name == "IDAT" ==> r.Ok? && streamVec == old(streamVec) + [c.data]
      ensures name != "IDAT" ==> streamVec == old(streamVec)
      ensures !(name in PARSED_CHUNKS) ==> r.Ok? && privateChunks == old(privateChunks) + [(c.GetTypeString(), c.data)]
      ensures name in PARSED_CHUNKS ==> privateChunks == old(privateChunks)
    {
      if name in {"IHDR", "PLTE", "IDAT"} {
        r := ParseCriticalChunk(name, c);
      } else if name == "tRNS" {
        r := ParseTRNS(c);
      } else {
        ghost var valid := Valid();
        if name in {"bKGD", "hIST", "pHYs", "sBIT", "sRGB"} {
          r := ParseImageInfoChunk(name, c);
        } else {
          r := ParseOtherChunk(name, c);
        }
        assert Valid() == valid;
      }
    }

    /**
     * One step of the constructor's loop for a chunk other than IEND: the
     * parser the type names, or the private-chunk branch for other types.
     * A null chunk fails at its first use, except in cHRM and gAMA (which
     * may not use it) and where `ReadsNoChunk` holds.
     */
    method ParseChunk(name: string, chunk: Option<PNGChunk>) returns (r: Result<(), Cause>)
      requires Valid() && tileGeometry.None? && name != "IEND"
      modifies this`bounds, this`bitDepth, this`maxOpacity, this`colorType, this`compressionMethod,
               this`filterMethod, this`interlaceMethod, this`bytesPerPixel, this`inputBands, this`outputBands,
               this`postProcess, this`paletteEntries, this`redPalette, this`greenPalette, this`bluePalette,
               this`gammaLut, this`streamVec, this`bkgdRed, this`bkgdGreen, this`bkgdBlue, this`backgroundColor,
               this`chromaticity, this`fileGamma, this`physicalDimension, this`significantBits,
               this`sRGBRenderingIntent, this`textKeys, this`textStrings, this`alphaPalette,
               this`outputHasAlphaPalette, this`grayTransparentAlpha, this`output8BitGray,
               this`redTransparentAlpha, this`greenTransparentAlpha, this`blueTransparentAlpha,
               this`ztextKeys, this`ztextStrings, this`privateChunks
      ensures Valid() && tileGeometry.None?
      ensures chunk.None? && !(name in {"cHRM", "gAMA"}) && !old(ReadsNoChunk(name)) ==> r == Fail(NullChunk)
      ensures name == "IDAT" && chunk.Some? ==> r.Ok? && streamVec == old(streamVec) + [chunk.value.data]
      ensures name != "IDAT" ==> streamVec == old(streamVec)
      ensures !(name in PARSED_CHUNKS) && chunk.Some? ==>
                r.Ok? && privateChunks == old(privateChunks) + [(chunk.value.GetTypeString(), chunk.value.data)]
      ensures name in PARSED_CHUNKS ==> privateChunks == old(privateChunks)
    {
      if name == "cHRM" {
        r := ParseCHRM(chunk);
      } else if name == "gAMA" {
        r := ParseGAMA(chunk);
      } else if chunk.None? && !ReadsNoChunk(name) {
        r := Fail(NullChunk);
      } else {
        r := ParseChunkData(name, chunk.GetOr(EMPTY_CHUNK));
      }
    }

    /**
     * The constructor's `do ... while (true)` loop: chunk after chunk from
     * offset 8 until an IEND chunk, whose own data is read and not used.
     * `getChunkType` returning null (fewer than 8 bytes left) fails at its
     * `equals`; a null chunk from `readChunk` leaves the stream where
     * `SkipPosition` says.
     */
    method ReadChunks(s: seq<uint8>) returns (r: Result<(), Cause>)
      requires Valid() && tileGeometry.None?
      modifies this`bounds, this`bitDepth, this`maxOpacity, this`colorType, this`compressionMethod,
               this`filterMethod, this`interlaceMethod, this`bytesPerPixel, this`inputBands, this`outputBands,
               this`postProcess, this`paletteEntries, this`redPalette, this`greenPalette, this`bluePalette,
               this`gammaLut, this`streamVec, this`bkgdRed, this`bkgdGreen, this`bkgdBlue, this`backgroundColor,
               this`chromaticity, this`fileGamma, this`physicalDimension, this`significantBits,
               this`sRGBRenderingIntent, this`textKeys, this`textStrings, this`alphaPalette,
               this`outputHasAlphaPalette, this`grayTransparentAlpha, this`output8BitGray,
               this`redTransparentAlpha, this`greenTransparentAlpha, this`blueTransparentAlpha,
               this`ztextKeys, this`ztextStrings, this`privateChunks
      ensures Valid() && tileGeometry.None?
    {
      var pos := 8;
      while true
        invariant Valid() && tileGeometry.None?
        decreases |s| - pos
      {
        var name := GetChunkType(s, pos);
        if name.None? {
          return Fail(NullChunk);
        }
        var read := ReadChunk(s, pos);
        var chunk := if read.Some? then Some(read.value.0) else None;
        pos := if read.Some? then read.value.1 else SkipPosition(s, pos);
        if name.value == "IEND" {
          return Ok(());
        }
        var _ :- ParseChunk(name.value, chunk);
      }
    }

    /** `parse_IEND_chunk` in full, run once the loop has reached IEND. */
    method FinishImage() returns (r: Result<(), Cause>)
      requires Valid() && tileGeometry.None?
      modifies this`stream, this`dataPos, this`theTile, this`tileGeometry, this`gammaLut, this`grayLut
      ensures Valid()
      ensures r.Ok? ==> tileGeometry.Some? && ColorModelOk()
    {
      var _ :- ParseIEND();
      r := DecodeTile();
    }

    /**
     * The constructor: the 8-byte signature, then the chunk loop, then IEND's
     * decoding and the default significant bits. Any failure after the
     * signature is the exception of the chunk loop.
     */
    static method Decode(s: seq<uint8>, o: Options, inflate: Inflater, curve: GammaCurve) returns (r: Result<PNGRed, DecodeError>)
      ensures r == Fail(BadSignature) <==> !SignatureOk(s)
      ensures r.Ok? ==> fresh(r.value) && r.value.Valid() && r.value.tileGeometry.Some? &&
                        r.value.significantBits.Some? && r.value.ColorModelOk()
    {
      if !SignatureOk(s) {
        return Fail(BadSignature);
      }
      var d := new PNGRed(o, inflate, curve);
      var e := d.ReadChunks(s);
      if e.Fail? {
        return Fail(ChunkFailed(e.error));
      }
      e := d.FinishImage();
      if e.Fail? {
        return Fail(ChunkFailed(e.error));
      }
      d.FinishSignificantBits();
      r := Ok(d);
    }
  }
}

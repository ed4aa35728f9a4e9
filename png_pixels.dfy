/**
 * The pixel layer of the decoder: unpacking a reconstructed scanline into
 * samples, the per-pixel transforms of `processPixels`, and storing a pixel
 * in the destination raster. A raster is modelled as its geometry and a
 * flat sequence of samples, `bands` samples per pixel, row after row; a
 * sample is truncated on store as the raster's data buffer truncates it.
 */
module PngPixels {
  import opened Wrappers
  import opened JavaInt
  import opened PngChunk
  import opened PngHeader

  /** `table[i]` for a Java array that may be null. */
  function Lookup<T>(table: Option<seq<T>>, i: int): (r: Result<T, Cause>)
    ensures r.Ok? <==> table.Some? && 0 <= i < |table.value|
    ensures r.Ok? ==> r.value == table.value[i]
    ensures table.None? ==> r == Fail(NullArray)
  {
    match table
    case None => Fail(NullArray)
    case Some(t) => if 0 <= i < |t| then Ok(t[i]) else Fail(IndexOutOfBounds)
  }

  /** A sample of a pixel array, `ps[i]`. */
  function At(ps: seq<int>, i: nat): (r: Result<int, Cause>)
    ensures r.Ok? <==> i < |ps|
    ensures r.Ok? ==> r.value == ps[i]
  {
    if i < |ps| then Ok(ps[i]) else Fail(IndexOutOfBounds)
  }

  /** The assignment `pd[i] = v`. */
  function Put(pd: seq<int>, i: nat, v: int): (r: Result<seq<int>, Cause>)
    ensures r.Ok? <==> i < |pd|
    ensures r.Ok? ==> r.value == pd[i := v]
  {
    if i < |pd| then Ok(pd[i := v]) else Fail(IndexOutOfBounds)
  }

  /** Writes `vs` into `pd` from index 0. */
  function PutAll(pd: seq<int>, vs: seq<int>): (r: Result<seq<int>, Cause>)
    ensures r.Ok? <==> |vs| <= |pd|
    ensures r.Ok? ==> r.value == vs + pd[|vs|..]
  {
    if |vs| <= |pd| then Ok(vs + pd[|vs|..]) else Fail(IndexOutOfBounds)
  }

  /** The decoder fields a pixel transform reads. */
  datatype Tables = Tables(
    gammaLut: Option<seq<int>>, grayLut: Option<seq<int>>,
    redPalette: Option<seq<int8>>, greenPalette: Option<seq<int8>>,
    bluePalette: Option<seq<int8>>, alphaPalette: Option<seq<int8>>,
    grayKey: int, redKey: int, greenKey: int, blueKey: int,
    maxOpacity: int, performGamma: bool)

  /** The alpha an add-transparency mode gives: 0 for the key, full opacity for anything else. */
  function KeyAlpha(t: Tables, v: int, key: int): int
  {
    if v == key then 0 else t.maxOpacity
  }

  /** A sample through the gamma table when gamma correction is on. */
  function Corrected(t: Tables, v: int): Result<int, Cause>
  {
    if t.performGamma then Lookup(t.gammaLut, v) else Ok(v)
  }

  function Palette(p: Option<seq<int8>>, i: int): Result<int, Cause>
  {
    var v :- Lookup(p, i);
    Ok(v as int)
  }

  /** Every sample through the gamma table, as mode POST_GAMMA rewrites `ps`. */
  function GammaAll(t: Tables, ps: seq<int>): (r: Result<seq<int>, Cause>)
    ensures r.Ok? ==> |r.value| == |ps| && forall i | 0 <= i < |ps| :: Lookup(t.gammaLut, ps[i]) == Ok(r.value[i])
  {
    if ps == [] then Ok([])
    else
      var head :- Lookup(t.gammaLut, ps[0]);
      var tail :- GammaAll(t, ps[1..]);
      Ok([head] + tail)
  }

  /**
   * One pixel of `processPixels`: from the source pixel `ps` and the
   * destination buffer `pd` carried over from the previous pixel, the
   * samples written (`ps` itself for POST_NONE and POST_GAMMA, `pd`
   * otherwise) and the buffer carried on. None for a mode without a case,
   * which writes nothing.
   */
  function PixelOut(m: Mode, t: Tables, ps: seq<int>, pd: seq<int>): Result<Option<(seq<int>, seq<int>)>, Cause>
  {
    if !m.expand then
      match m.step
      case PostNone => Ok(Some((ps, pd)))
      case PostGamma =>
        var g :- GammaAll(t, ps);
        Ok(Some((g, pd)))
      case PostGrayLut =>
        var v :- At(ps, 0);
        var l :- Lookup(t.grayLut, v);
        var out :- PutAll(pd, [l]);
        Ok(Some((out, out)))
      case PostGrayLutAddTrans =>
        var v :- At(ps, 0);
        var l :- Lookup(t.grayLut, v);
        var out :- PutAll(pd, [l, KeyAlpha(t, v, t.grayKey)]);
        Ok(Some((out, out)))
      case PostPaletteToRgb =>
        var v :- At(ps, 0);
        var r :- Palette(t.redPalette, v);
        var g :- Palette(t.greenPalette, v);
        var b :- Palette(t.bluePalette, v);
        var out :- PutAll(pd, [r, g, b]);
        Ok(Some((out, out)))
      case PostPaletteToRgba =>
        var v :- At(ps, 0);
        var r :- Palette(t.redPalette, v);
        var g :- Palette(t.greenPalette, v);
        var b :- Palette(t.bluePalette, v);
        var a :- Palette(t.alphaPalette, v);
        var out :- PutAll(pd, [r, g, b, a]);
        Ok(Some((out, out)))
      case PostAddGrayTrans =>
        var v0 :- At(ps, 0);
        var v :- Corrected(t, v0);
        var out :- PutAll(pd, [v, KeyAlpha(t, v, t.grayKey)]);
        Ok(Some((out, out)))
      case PostAddRgbTrans =>
        var r :- At(ps, 0);
        var g :- At(ps, 1);
        var b :- At(ps, 2);
        var r' :- Corrected(t, r);
        var g' :- Corrected(t, g);
        var b' :- Corrected(t, b);
        var alpha := if r == t.redKey && g == t.greenKey && b == t.blueKey then 0 else t.maxOpacity;
        var out :- PutAll(pd, [r', g', b', alpha]);
        Ok(Some((out, out)))
      case PostRemoveGrayTrans =>
        var v0 :- At(ps, 0);
        var v :- Corrected(t, v0);
        var out :- PutAll(pd, [v]);
        Ok(Some((out, out)))
      case PostRemoveRgbTrans =>
        var r :- At(ps, 0);
        var g :- At(ps, 1);
        var b :- At(ps, 2);
        var r' :- Corrected(t, r);
        var g' :- Corrected(t, g);
        var b' :- Corrected(t, b);
        var out :- PutAll(pd, [r', g', b']);
        Ok(Some((out, out)))
    else
      match m.step
      case PostGamma =>
        var v :- At(ps, 0);
        var alpha :- At(ps, 1);
        var g :- Lookup(t.gammaLut, v);
        var out :- PutAll(pd, [g, g, g, alpha]);
        Ok(Some((out, out)))
      case PostNone =>
        var v :- At(ps, 0);
        var alpha :- At(ps, 1);
        var out :- PutAll(pd, [v, v, v, alpha]);
        Ok(Some((out, out)))
      case PostAddGrayTrans =>
        var v0 :- At(ps, 0);
        var v :- Corrected(t, v0);
        var out :- PutAll(pd, [v, v, v, KeyAlpha(t, v, t.grayKey)]);
        Ok(Some((out, out)))
      case PostGrayLutAddTrans =>
        var v :- At(ps, 0);
        var l :- Lookup(t.grayLut, v);
        var out :- PutAll(pd, [l, l, l, KeyAlpha(t, v, t.grayKey)]);
        Ok(Some((out, out)))
      case _ => Ok(None)
  }

  /** A mode has a case in `processPixels` exactly when it has a band count. */
  lemma {:induction false} CaseIffBands(m: Mode, t: Tables, ps: seq<int>, pd: seq<int>, inputBands: nat)
    ensures PixelOut(m, t, ps, pd) == Ok(None) <==> ModeBands(m, inputBands).None?
    ensures ModeBands(m, inputBands).None? ==> PixelOut(m, t, ps, pd) == Ok(None)
  {
  }

  /**
   * The alpha of the gray add-transparency modes. With the gray table
   * (POST_GRAY_LUT_ADD_TRANS) the raw sample is compared with the key; in
   * POST_ADD_GRAY_TRANS the sample after gamma correction is.
   */
  lemma GrayTransparency(m: Mode, t: Tables, ps: seq<int>, pd: seq<int>)
    requires m.step in {PostGrayLutAddTrans, PostAddGrayTrans}
    requires PixelOut(m, t, ps, pd).Ok? && PixelOut(m, t, ps, pd).value.Some?
    ensures var out := PixelOut(m, t, ps, pd).value.value.0;
            var a := if m.expand then 3 else 1;
            var compared := if m.step == PostGrayLutAddTrans then ps[0] else Corrected(t, ps[0]).value;
            |ps| >= 1 && |out| > a && Corrected(t, ps[0]).Ok? ==>
              out[a] == (if compared == t.grayKey then 0 else t.maxOpacity)
    ensures var out := PixelOut(m, t, ps, pd).value.value.0;
            var a := if m.expand then 3 else 1;
            t.maxOpacity != 0 && |out| > a && |ps| >= 1 ==>
              (out[a] == 0 <==> (if m.step == PostGrayLutAddTrans then ps[0] else out[0]) == t.grayKey)
  {
  }

  /** The RGB add-transparency mode compares the raw samples, before gamma correction, with the key. */
  lemma RgbTransparency(t: Tables, ps: seq<int>, pd: seq<int>)
    requires PixelOut(Mode(PostAddRgbTrans, false), t, ps, pd).Ok?
    ensures var out := PixelOut(Mode(PostAddRgbTrans, false), t, ps, pd).value.value.0;
            |ps| >= 3 && |out| >= 4 &&
            out[3] == (if ps[0] == t.redKey && ps[1] == t.greenKey && ps[2] == t.blueKey then 0 else t.maxOpacity) &&
            Corrected(t, ps[0]) == Ok(out[0]) && Corrected(t, ps[1]) == Ok(out[1]) && Corrected(t, ps[2]) == Ok(out[2])
  {
  }

  /** Under gamma correction a raw gray equal to the key can stay opaque in POST_ADD_GRAY_TRANS. */
  lemma GammaHidesGrayKey()
    ensures var t := Tables(Some([0, 7]), None, None, None, None, None, 1, 0, 0, 0, 255, true);
            PixelOut(Mode(PostAddGrayTrans, false), t, [1], [0, 0]) == Ok(Some(([7, 255], [7, 255])))
  {
    var t := Tables(Some([0, 7]), None, None, None, None, None, 1, 0, 0, 0, 255, true);
    assert Corrected(t, 1) == Ok(7);
    assert KeyAlpha(t, 7, 1) == 255;
    assert [7, 255] + [0, 0][2..] == [7, 255];
  }

  /** The expand variants write gray three times and then alpha: (g, g, g, alpha). */
  lemma ExpandWritesGrayThrice(m: Mode, t: Tables, ps: seq<int>, pd: seq<int>)
    requires m.expand && PixelOut(m, t, ps, pd).Ok? && PixelOut(m, t, ps, pd).value.Some?
    ensures var out := PixelOut(m, t, ps, pd).value.value.0;
            |out| >= 4 && out[0] == out[1] == out[2] &&
            (m.step == PostNone ==> out[0] == ps[0] && out[3] == ps[1]) &&
            (m.step == PostGamma ==> Lookup(t.gammaLut, ps[0]) == Ok(out[0]) && out[3] == ps[1]) &&
            (m.step == PostAddGrayTrans ==> Corrected(t, ps[0]) == Ok(out[0])) &&
            (m.step == PostGrayLutAddTrans ==> Lookup(t.grayLut, ps[0]) == Ok(out[0]))
  {
  }

  /** The remove modes write the colour bands only, and the alpha sample never reaches the output. */
  lemma RemoveDropsAlpha(m: Mode, t: Tables, ps: seq<int>, ps': seq<int>, pd: seq<int>)
    requires m == Mode(PostRemoveGrayTrans, false) || m == Mode(PostRemoveRgbTrans, false)
    requires var c := if m.step == PostRemoveGrayTrans then 1 else 3;
             |ps| == |ps'| == c + 1 && ps[..c] == ps'[..c]
    ensures PixelOut(m, t, ps, pd) == PixelOut(m, t, ps', pd)
    ensures var c := if m.step == PostRemoveGrayTrans then 1 else 3;
            PixelOut(m, t, ps, pd).Ok? && PixelOut(m, t, ps, pd).value.Some? ==>
              forall i | 0 <= i < c :: Corrected(t, ps[i]) == Ok(PixelOut(m, t, ps, pd).value.value.0[i])
  {
    if m.step == PostRemoveRgbTrans {
      assert ps[0] == ps'[0] && ps[1] == ps'[1] && ps[2] == ps'[2];
    } else {
      assert ps[0] == ps'[0];
    }
  }

  /**
   * The number of samples written: for a mode with a case, the buffer keeps
   * its length when it has room for the mode's bands, and the written pixel
   * has the mode's band count when the source pixel has the input bands.
   */
  lemma {:induction false} PixelOutBands(m: Mode, t: Tables, ps: seq<int>, pd: seq<int>)
    requires ModeBands(m, |ps|).Some? && PixelOut(m, t, ps, pd).Ok?
    ensures PixelOut(m, t, ps, pd).value.Some?
    ensures var (out, pd') := PixelOut(m, t, ps, pd).value.value;
            |pd'| == |pd| && (m.step in {PostNone, PostGamma} && !m.expand ==> |out| == |ps|) &&
            (!(m.step in {PostNone, PostGamma} && !m.expand) ==> |out| == |pd| >= ModeBands(m, |ps|).value)
  {
    if m.expand {
      ExpandOutBands(m, t, ps, pd);
    } else {
      PlainOutBands(m, t, ps, pd);
    }
  }

  /** `PixelOutBands` for the modes that do not expand gray to RGB. */
  lemma PlainOutBands(m: Mode, t: Tables, ps: seq<int>, pd: seq<int>)
    requires !m.expand && ModeBands(m, |ps|).Some? && PixelOut(m, t, ps, pd).Ok?
    ensures PixelOut(m, t, ps, pd).value.Some?
    ensures var (out, pd') := PixelOut(m, t, ps, pd).value.value;
            |pd'| == |pd| && (m.step in {PostNone, PostGamma} ==> |out| == |ps|) &&
            (!(m.step in {PostNone, PostGamma}) ==> |out| == |pd| >= ModeBands(m, |ps|).value)
  {
    match m.step
    case PostNone =>
    case PostGamma =>
    case PostGrayLut =>
    case PostGrayLutAddTrans =>
    case PostPaletteToRgb =>
    case PostPaletteToRgba =>
    case PostAddGrayTrans =>
    case PostAddRgbTrans =>
    case PostRemoveGrayTrans =>
    case PostRemoveRgbTrans =>
  }

  /** `PixelOutBands` for the modes that expand gray to RGB. */
  lemma ExpandOutBands(m: Mode, t: Tables, ps: seq<int>, pd: seq<int>)
    requires m.expand && ModeBands(m, |ps|).Some? && PixelOut(m, t, ps, pd).Ok?
    ensures PixelOut(m, t, ps, pd).value.Some?
    ensures var (out, pd') := PixelOut(m, t, ps, pd).value.value;
            |pd'| == |pd| == |out| >= ModeBands(m, |ps|).value
  {
    assert m.step in {PostNone, PostGamma, PostGrayLutAddTrans, PostAddGrayTrans};
  }

  // ---------------------------------------------------------------------------
  // Raster geometry and the data buffer

  /** A raster as `createRaster` makes it: a packed one for one band below 8 bits, bytes up to 8 bits, shorts above. */
  datatype Geometry = Geometry(width: nat, height: nat, bands: nat, depth: nat)
  {
    predicate Packed() { depth < 8 && bands == 1 }

    /** The number of samples in the data buffer. */
    function Size(): nat { width * height * bands }
  }

  /** 2 to the depth of a packed raster, whose samples are below 8 bits. */
  function PackedLimit(depth: nat): (m: nat)
    requires depth < 8
    ensures m == Pow2(depth)
  {
    assert Pow2(0) == 1 && Pow2(1) == 2 && Pow2(2) == 4 && Pow2(3) == 8;
    assert Pow2(4) == 16 && Pow2(5) == 32 && Pow2(6) == 64 && Pow2(7) == 128;
    if depth == 0 then 1 else if depth == 1 then 2 else if depth == 2 then 4 else if depth == 3 then 8
    else if depth == 4 then 16 else if depth == 5 then 32 else if depth == 6 then 64 else 128
  }

  /** What a sample reads back as after `setPixel` stores `v`: the low `depth` bits, 8 bits or 16 bits. */
  function Store(g: Geometry, v: int): (r: int)
    ensures g.Packed() ==> 0 <= r < Pow2(g.depth)
    ensures !g.Packed() && g.depth <= 8 ==> 0 <= r < 0x100 && (r - v) % 0x100 == 0
    ensures g.depth > 8 ==> 0 <= r < 0x1_0000 && (r - v) % 0x1_0000 == 0
  {
    if g.Packed() then v % PackedLimit(g.depth)
    else if g.depth <= 8 then v % 0x100
    else v % 0x1_0000
  }

  /** A sample already in range is stored unchanged. */
  lemma StoreInRange(g: Geometry, v: int)
    requires 0 <= v && (g.Packed() ==> v < Pow2(g.depth)) && (g.depth <= 8 ==> v < 0x100) && v < 0x1_0000
    ensures Store(g, v) == v
  {
    if g.Packed() {
      var m := PackedLimit(g.depth);
      assert v < m;
      DivModUnique(v, m, 0, v);
    }
  }

  /**
   * `createRaster`: the raster is refused for a width or height that is not
   * positive, and an interleaved one for a band count without an entry in
   * `bandOffsets` (which is null for 0 bands and has none above 4).
   */
  function CreateRaster(width: int, height: int, bands: nat, depth: nat): (r: Result<(Geometry, seq<int>), Cause>)
    ensures r.Ok? <==> width > 0 && height > 0 && 1 <= bands <= 4
    ensures r.Ok? ==> r.value.0 == Geometry(width, height, bands, depth) && r.value.1 == seq(r.value.0.Size(), _ => 0)
  {
    if width <= 0 || height <= 0 then Fail(BadRaster)
    else if bands == 0 then Fail(NullArray)
    else if bands > 4 then Fail(IndexOutOfBounds)
    else
      var g := Geometry(width, height, bands, depth);
      Ok((g, seq(g.Size(), _ => 0)))
  }

  /** The index of the first sample of pixel (x, y). */
  function PixelIndex(g: Geometry, x: nat, y: nat): nat
  {
    (y * g.width + x) * g.bands
  }

  lemma PixelIndexBounds(g: Geometry, x: nat, y: nat)
    requires x < g.width && y < g.height
    ensures PixelIndex(g, x, y) + g.bands <= g.Size()
  {
    var w := g.width;
    assert y * w + x + 1 <= g.height * w by {
      assert (y + 1) * w <= g.height * w by {
        MulMono(y + 1, g.height, w);
      }
    }
    MulMono(y * w + x + 1, g.height * w, g.bands);
  }

  /** The samples of pixel (x, y). */
  function GetPixel(g: Geometry, data: seq<int>, x: nat, y: nat): (px: seq<int>)
    requires |data| == g.Size() && x < g.width && y < g.height
    ensures |px| == g.bands
  {
    PixelIndexBounds(g, x, y);
    data[PixelIndex(g, x, y)..PixelIndex(g, x, y) + g.bands]
  }

  /**
   * `setPixel(x, y, px)`: the pixel must lie in the raster and `px` must
   * hold a sample per band; each is stored truncated.
   */
  function SetPixel(g: Geometry, data: seq<int>, x: int, y: int, px: seq<int>): (r: Result<seq<int>, Cause>)
    requires |data| == g.Size()
    ensures r.Ok? <==> 0 <= x < g.width && 0 <= y < g.height && |px| >= g.bands
    ensures r.Ok? ==> |r.value| == |data|
  {
    if 0 <= x < g.width && 0 <= y < g.height && |px| >= g.bands then
      PixelIndexBounds(g, x, y);
      var i := PixelIndex(g, x, y);
      Ok(data[..i] + seq(g.bands, b requires 0 <= b < g.bands => Store(g, px[b])) + data[i + g.bands..])
    else Fail(IndexOutOfBounds)
  }

  /** Distinct pixels lie `bands` samples or more apart in the data buffer. */
  lemma PixelsDisjoint(g: Geometry, x: nat, y: nat, x': nat, y': nat)
    requires x < g.width && y < g.height && x' < g.width && y' < g.height && (x, y) != (x', y')
    ensures PixelIndex(g, x, y) + g.bands <= PixelIndex(g, x', y') || PixelIndex(g, x', y') + g.bands <= PixelIndex(g, x, y)
  {
    var k, k' := y * g.width + x, y' * g.width + x';
    CellsDistinct(g.width, x, y, x', y');
    if k < k' {
      ScaleApart(k, k', g.bands);
    } else {
      ScaleApart(k', k, g.bands);
    }
  }

  lemma ScaleApart(k: nat, k': nat, c: nat)
    requires k < k'
    ensures k * c + c <= k' * c
  {
    MulMono(k + 1, k', c);
  }

  /** Distinct positions of a row-major grid have distinct cell numbers. */
  lemma CellsDistinct(w: nat, x: nat, y: nat, x': nat, y': nat)
    requires x < w && x' < w && (x, y) != (x', y')
    ensures y * w + x != y' * w + x'
  {
    if y < y' {
      MulMono(y + 1, y', w);
    } else if y' < y {
      MulMono(y' + 1, y, w);
    }
  }

  /** After `setPixel` the pixel reads back as the stored samples, and every other pixel is unchanged. */
  lemma SetPixelReadBack(g: Geometry, data: seq<int>, x: nat, y: nat, px: seq<int>, x': nat, y': nat)
    requires |data| == g.Size() && SetPixel(g, data, x, y, px).Ok? && x' < g.width && y' < g.height
    ensures var d := SetPixel(g, data, x, y, px).value;
            GetPixel(g, d, x', y') ==
              if (x', y') == (x, y) then seq(g.bands, b requires 0 <= b < g.bands => Store(g, px[b]))
              else GetPixel(g, data, x', y')
  {
    PixelIndexBounds(g, x, y);
    PixelIndexBounds(g, x', y');
    var d := SetPixel(g, data, x, y, px).value;
    var i, j := PixelIndex(g, x, y), PixelIndex(g, x', y');
    var stored := seq(g.bands, b requires 0 <= b < g.bands => Store(g, px[b]));
    assert d == data[..i] + stored + data[i + g.bands..];
    if (x', y') == (x, y) {
      assert d[j..j + g.bands] == stored;
    } else {
      PixelsDisjoint(g, x, y, x', y');
      if j + g.bands <= i {
        assert d[j..j + g.bands] == data[j..j + g.bands];
      } else {
        assert d[j..j + g.bands] == data[j..j + g.bands];
      }
    }
  }

  // ---------------------------------------------------------------------------
  // Unpacking a scanline

  /** Sample `k` of a packed row of `depth`-bit samples, the first in the high bits of each byte. */
  function PackedSample(row: seq<uint8>, depth: nat, k: nat): (v: int)
    requires 1 <= depth < 8 && 8 % depth == 0 && (k * depth) / 8 < |row|
    ensures 0 <= v < Pow2(depth)
  {
    var bitPos := k * depth;
    var shift := 8 - depth - bitPos % 8;
    PowFacts(depth, shift);
    row[bitPos / 8] / Pow2(shift) % Pow2(depth)
  }

  lemma PowFacts(depth: nat, shift: int)
    requires 1 <= depth < 8 && 8 % depth == 0 && 0 <= shift
    ensures Pow2(shift) >= 1 && Pow2(depth) >= 2
  {
    assert Pow2(1) == 2;
    if depth > 1 {
      PowMono(1, depth);
    }
  }

  lemma PowMono(a: nat, b: nat)
    requires a <= b
    ensures Pow2(a) <= Pow2(b)
    decreases b - a
  {
    if a < b {
      PowMono(a, b - 1);
    }
  }

  /** The 16-bit sample stored from bytes `hi` and `lo` (`(short) (hi << 8 | lo & 0xff)` read back unsigned). */
  function Sample16(hi: uint8, lo: uint8): (v: int)
    ensures 0 <= v < 0x1_0000 && v / 0x100 == hi && v % 0x100 == lo
  {
    hi * 0x100 + lo
  }

  /**
   * The source pixels a pass row holds once the reconstructed bytes are
   * copied in: `width` pixels of `bands` samples. Above 8 bits the copy
   * reads two bytes per 16-bit element, which runs past the row for every
   * depth but 16.
   */
  function RowPixels(row: seq<uint8>, depth: nat, bands: nat, width: nat): (r: Result<seq<seq<int>>, Cause>)
    requires |row| == (bands * width * depth + 7) / 8
    ensures r.Ok? ==> |r.value| == width && forall k | 0 <= k < width :: |r.value[k]| == bands
  {
    if depth < 8 && bands == 1 then
      if depth in {1, 2, 4} then
        Ok(seq(width, k requires 0 <= k < width => [PackedSampleAt(row, depth, width, k)]))
      else Fail(IndexOutOfBounds)
    else if depth <= 8 then
      if depth == 8 then
        Ok(seq(width, k requires 0 <= k < width => Bytes8(row, bands, width, k)))
      else Fail(IndexOutOfBounds)
    else if depth == 16 then
      Ok(seq(width, k requires 0 <= k < width => Bytes16(row, bands, width, k)))
    else Fail(IndexOutOfBounds)
  }

  function PackedSampleAt(row: seq<uint8>, depth: nat, width: nat, k: nat): int
    requires depth in {1, 2, 4} && |row| == (width * depth + 7) / 8 && k < width
  {
    assert (k * depth) / 8 < |row| by {
      MulMono(k + 1, width, depth);
    }
    PackedSample(row, depth, k)
  }

  function Bytes8(row: seq<uint8>, bands: nat, width: nat, k: nat): (px: seq<int>)
    requires |row| == (bands * width * 8 + 7) / 8 && k < width
    ensures |px| == bands
  {
    assert |row| == bands * width;
    assert (k + 1) * bands <= width * bands by {
      MulMono(k + 1, width, bands);
    }
    seq(bands, b requires 0 <= b < bands => row[k * bands + b] as int)
  }

  function Bytes16(row: seq<uint8>, bands: nat, width: nat, k: nat): (px: seq<int>)
    requires |row| == (bands * width * 16 + 7) / 8 && k < width
    ensures |px| == bands
  {
    assert |row| == 2 * bands * width;
    assert (k + 1) * bands <= width * bands by {
      MulMono(k + 1, width, bands);
    }
    seq(bands, b requires 0 <= b < bands => Sample16(row[2 * (k * bands + b)], row[2 * (k * bands + b) + 1]))
  }

  /** At 8 bits the samples are the row's bytes in order, pixel after pixel. */
  lemma Row8IsBytes(row: seq<uint8>, bands: nat, width: nat, k: nat, b: nat)
    requires |row| == (bands * width * 8 + 7) / 8 && k < width && b < bands
    ensures RowPixels(row, 8, bands, width).Ok?
    ensures k * bands + b < |row| && RowPixels(row, 8, bands, width).value[k][b] == row[k * bands + b]
  {
    assert (k + 1) * bands <= width * bands by {
      MulMono(k + 1, width, bands);
    }
  }

  /** At 16 bits each sample is the big-endian pair of bytes. */
  lemma Row16IsBigEndian(row: seq<uint8>, bands: nat, width: nat, k: nat, b: nat)
    requires |row| == (bands * width * 16 + 7) / 8 && k < width && b < bands
    ensures RowPixels(row, 16, bands, width).Ok?
    ensures 2 * (k * bands + b) + 1 < |row| &&
            RowPixels(row, 16, bands, width).value[k][b] ==
              row[2 * (k * bands + b)] as int * 0x100 + row[2 * (k * bands + b) + 1] as int
  {
    assert (k + 1) * bands <= width * bands by {
      MulMono(k + 1, width, bands);
    }
    assert k * bands + b < (k + 1) * bands;
    assert |row| == 2 * (width * bands);
    var px := Bytes16(row, bands, width, k);
    assert RowPixels(row, 16, bands, width).value[k] == px;
    assert px[b] == Sample16(row[2 * (k * bands + b)], row[2 * (k * bands + b) + 1]);
  }

  /** Below 8 bits every sample is below 2 to the depth, so it fits the packed raster unchanged. */
  lemma PackedInRange(row: seq<uint8>, depth: nat, width: nat, k: nat)
    requires depth in {1, 2, 4} && |row| == (1 * width * depth + 7) / 8 && k < width
    ensures RowPixels(row, depth, 1, width).Ok?
    ensures 0 <= RowPixels(row, depth, 1, width).value[k][0] < Pow2(depth)
  {
  }

  /** Depths other than 1, 2, 4, 8 and 16 cannot be copied into the pass row. */
  lemma OddDepthFails(row: seq<uint8>, depth: nat, bands: nat, width: nat)
    requires |row| == (bands * width * depth + 7) / 8 && !(depth in {1, 2, 4, 8, 16})
    ensures RowPixels(row, depth, bands, width).Fail?
  {
  }
}

/**
 * What `decodePass` and `processPixels` do, as functions of the state
 * they change: the position in the inflated image data, the two row
 * buffers `curr` and `prior`, and the samples of the destination raster.
 * The decoder's loops are proved to follow these functions.
 */
module PngPass {
  import opened Wrappers
  import opened JavaInt
  import opened PngChunk
  import opened PngHeader
  import opened PngFilter
  import opened PngInterlace
  import opened PngPixels

  /**
   * The inflated IDAT data: the bytes the inflater yields, and whether it
   * then raises an error (corrupt or truncated data) instead of reporting
   * the end of the stream.
   */
  datatype Inflated = Inflated(bytes: seq<uint8>, corrupt: bool)

  /** An inflater: the decompressed form of a zlib stream. */
  type Inflater = seq<uint8> -> Inflated

  /** `bytesPerRow = (inputBands * passWidth * bitDepth + 7) / 8`. */
  function BytesPerRow(inputBands: nat, passWidth: nat, bitDepth: nat): nat
  {
    (inputBands * passWidth * bitDepth + 7) / 8
  }

  function Zeros(n: nat): (z: seq<uint8>)
    ensures |z| == n && forall i | 0 <= i < n :: z[i] == 0
  {
    seq(n, _ => 0)
  }

  function Min(a: int, b: int): int
  {
    if a <= b then a else b
  }

  /**
   * The read at the start of each row: the filter type byte, then
   * `readFully` of the row. Exceptions are caught and only logged, so on
   * a short read the tail of `curr` keeps the bytes of an older row; a
   * read failing at the filter byte leaves the filter at 0, and a clean end
   * of stream yields -1.
   */
  function ReadRow(s: Inflated, pos: nat, curr: seq<uint8>): (r: (int, seq<uint8>, nat))
    ensures |r.1| == |curr| && r.2 == ReadEnd(s, pos, |curr|)
  {
    if pos < |s.bytes| then
      var start := pos + 1;
      var k := Min(|curr|, |s.bytes| - start);
      assert start + k <= |s.bytes|;
      (s.bytes[pos] as int, s.bytes[start..start + k] + curr[k..], start + k)
    else if s.corrupt then (0, curr, pos)
    else (-1, curr, pos)
  }

  /** Where a row read of `n` bytes from `pos` stops. */
  function ReadEnd(s: Inflated, pos: nat, n: nat): (e: nat)
    ensures pos <= e && (pos < |s.bytes| ==> e <= |s.bytes|) && (pos >= |s.bytes| ==> e == pos)
  {
    if pos < |s.bytes| then pos + 1 + Min(n, |s.bytes| - (pos + 1)) else pos
  }

  /** Where `j` row reads of `n` bytes each from `pos` stop. */
  function RowsEnd(s: Inflated, pos: nat, n: nat, j: nat): nat
  {
    if j == 0 then pos else ReadEnd(s, RowsEnd(s, pos, n, j - 1), n)
  }

  /** While the data lasts, every row read consumes the filter byte and `n` bytes. */
  lemma {:induction false} RowsEndExact(s: Inflated, pos: nat, n: nat, j: nat)
    requires pos + j * (n + 1) <= |s.bytes|
    ensures RowsEnd(s, pos, n, j) == pos + j * (n + 1)
  {
    if j > 0 {
      StepArith(pos, j, n + 1);
      RowsEndExact(s, pos, n, j - 1);
    }
  }

  /** A full row read: the filter byte and exactly the next `|curr|` bytes. */
  lemma ReadRowComplete(s: Inflated, pos: nat, curr: seq<uint8>)
    requires pos + 1 + |curr| <= |s.bytes|
    ensures ReadRow(s, pos, curr) == (s.bytes[pos] as int, s.bytes[pos + 1..pos + 1 + |curr|], pos + 1 + |curr|)
  {
    var a := pos + 1;
    assert Min(|curr|, |s.bytes| - a) == |curr|;
    assert s.bytes[a..a + |curr|] + curr[|curr|..] == s.bytes[a..a + |curr|];
  }

  /** At the end of a clean stream the filter reads as -1; at the end of a corrupt one as 0, and the row stays as it was. */
  lemma ReadRowAtEnd(s: Inflated, pos: nat, curr: seq<uint8>)
    requires pos >= |s.bytes|
    ensures ReadRow(s, pos, curr) == (if s.corrupt then 0 else -1, curr, pos)
  {
  }

  /**
   * The `switch (filter)` of `decodePass`: filter types 0 to 4, anything
   * else refused. Sub has no prior row and Up steps byte by byte; Average
   * and Paeth first read `bpp` bytes of both rows.
   */
  function Defilter(filter: int, curr: seq<uint8>, prior: seq<uint8>, bpp: nat): (r: Result<seq<uint8>, Cause>)
    requires bpp >= 1
    ensures r.Ok? ==> |r.value| == |curr|
  {
    var n := |curr|;
    if filter == PNG_FILTER_NONE then Ok(curr)
    else if !(PNG_FILTER_SUB <= filter <= PNG_FILTER_PAETH) then Fail(UnknownFilter)
    else if filter == PNG_FILTER_UP && |prior| < n then Fail(IndexOutOfBounds)
    else if filter >= PNG_FILTER_AVERAGE && (n < bpp || |prior| < bpp) then Fail(IndexOutOfBounds)
    else Ok(Unfilter(filter, curr, if filter == PNG_FILTER_SUB then [] else prior, n, if filter == PNG_FILTER_UP then 1 else bpp))
  }

  /** Which rows reconstruct, and that every other filter type is refused. */
  lemma DefilterCases(filter: int, curr: seq<uint8>, prior: seq<uint8>, bpp: nat)
    requires bpp >= 1
    ensures Defilter(filter, curr, prior, bpp).Ok? <==>
              0 <= filter <= 4 && (filter in {3, 4} ==> bpp <= |curr| && bpp <= |prior|) && (filter == 2 ==> |curr| <= |prior|)
    ensures !(0 <= filter <= 4) ==> Defilter(filter, curr, prior, bpp) == Fail(UnknownFilter)
  {
  }

  /** The rows a filter reconstructs are the ones the row filter of the same type encodes (section 6 of RFC 2083). */
  lemma DefilterInvertsFilter(filter: int, x: seq<uint8>, prior: seq<uint8>, bpp: nat)
    requires 1 <= filter <= 4 && bpp >= 1 && |prior| == |x| && bpp <= |x|
    ensures var p := if filter == PNG_FILTER_SUB then [] else prior;
            var b := if filter == PNG_FILTER_UP then 1 else bpp;
            Defilter(filter, Filtered(filter, x, p, b), prior, bpp) == Ok(x)
  {
    var p := if filter == PNG_FILTER_SUB then [] else prior;
    var b := if filter == PNG_FILTER_UP then 1 else bpp;
    var f := Filtered(filter, x, p, b);
    DecodeFiltered(filter, x, p, b, |x|);
    assert Defilter(filter, f, prior, bpp) == Ok(Unfilter(filter, f, p, |f|, b));
    assert Unfilter(filter, f, p, |f|, b) == Decoded(filter, f, p, b, |f|) + f[|f|..];
    assert f[|f|..] == [];
    assert x[..|x|] == x;
    assert Decoded(filter, f, p, b, |f|) + f[|f|..] == x;
  }

  // ---------------------------------------------------------------------------
  // processPixels

  /** What `processPixels` does for one pixel: the samples to write and the buffer carried to the next pixel, or None where the mode has no case. */
  type PixelStep = (seq<int>, seq<int>) -> Result<Option<(seq<int>, seq<int>)>, Cause>

  /** The step of a post-processing mode with the decoder's tables. */
  function ModeStep(m: Mode, t: Tables): PixelStep
  {
    (ps, pd) => PixelOut(m, t, ps, pd)
  }

  /**
   * The first `n` pixels of `processPixels` on destination row `y`: the
   * samples after source pixel n - 1 went to column xOffset + (n - 1) * step,
   * and the buffer `pd`, which starts as destination pixel (0, 0).
   */
  function RowUpTo(f: PixelStep, g: Geometry, data0: seq<int>, src: seq<seq<int>>,
                   xOffset: int, step: int, y: int, n: nat): (r: Result<(seq<int>, seq<int>), Cause>)
    requires |data0| == g.Size() && n <= |src| && g.width > 0 && g.height > 0
    ensures r.Ok? ==> |r.value.0| == |data0|
  {
    if n == 0 then Ok((data0, GetPixel(g, data0, 0, 0)))
    else
      var st :- RowUpTo(f, g, data0, src, xOffset, step, y, n - 1);
      var o :- f(src[n - 1], st.1);
      match o
      case None => Ok(st)
      case Some(written) =>
        var data :- SetPixel(g, st.0, xOffset + (n - 1) * step, y, written.0);
        Ok((data, written.1))
  }

  /** The whole of `processPixels` for one pass row. */
  function ProcessRow(f: PixelStep, g: Geometry, data0: seq<int>, src: seq<seq<int>>,
                      xOffset: int, step: int, y: int): Result<seq<int>, Cause>
    requires |data0| == g.Size() && g.width > 0 && g.height > 0
  {
    var st :- RowUpTo(f, g, data0, src, xOffset, step, y, |src|);
    Ok(st.0)
  }

  lemma {:induction false} RowPrefixOk(f: PixelStep, g: Geometry, data0: seq<int>, src: seq<seq<int>>,
                                       xOffset: int, step: int, y: int, k: nat, n: nat)
    requires |data0| == g.Size() && k <= n <= |src| && g.width > 0 && g.height > 0
    requires RowUpTo(f, g, data0, src, xOffset, step, y, n).Ok?
    ensures RowUpTo(f, g, data0, src, xOffset, step, y, k).Ok?
    decreases n - k
  {
    if k < n {
      RowPrefixOk(f, g, data0, src, xOffset, step, y, k, n - 1);
    }
  }

  /** A row that fails at a pixel fails as a whole. */
  lemma RowFailStays(f: PixelStep, g: Geometry, data0: seq<int>, src: seq<seq<int>>,
                     xOffset: int, step: int, y: int, k: nat)
    requires |data0| == g.Size() && k <= |src| && g.width > 0 && g.height > 0
    ensures RowUpTo(f, g, data0, src, xOffset, step, y, k).Fail? ==> ProcessRow(f, g, data0, src, xOffset, step, y).Fail?
  {
    if RowUpTo(f, g, data0, src, xOffset, step, y, |src|).Ok? {
      RowPrefixOk(f, g, data0, src, xOffset, step, y, k, |src|);
    }
  }

  /** The destination column of source pixel k is xOffset + k * step; no other pixel of the raster is touched. */
  predicate OnRow(x: nat, y: nat, xOffset: int, step: int, row: int, n: nat)
  {
    y == row && step >= 1 && x >= xOffset && (x - xOffset) % step == 0 && (x - xOffset) / step < n
  }

  lemma OnRowGrows(x: nat, y: nat, xOffset: int, step: int, row: int, n: nat)
    requires n >= 1
    ensures OnRow(x, y, xOffset, step, row, n - 1) ==> OnRow(x, y, xOffset, step, row, n)
  {
  }

  /** The column of source pixel n - 1 is on the row. */
  lemma OnRowLast(x: nat, y: nat, xOffset: int, step: int, row: int, n: nat)
    requires n >= 1 && step >= 1
    ensures x == xOffset + (n - 1) * step && y == row ==> OnRow(x, y, xOffset, step, row, n)
  {
    if x == xOffset + (n - 1) * step {
      DivModUnique((n - 1) * step, step, n - 1, 0);
      assert x - xOffset == (n - 1) * step;
    }
  }

  /**
   * `processPixels` writes only the pixels (xOffset + k * step, y) for
   * k below the pass width: every other pixel keeps its samples.
   */
  lemma {:induction false} RowFrame(f: PixelStep, g: Geometry, data0: seq<int>, src: seq<seq<int>>,
                                    xOffset: int, step: int, y: int, n: nat, x': nat, y': nat)
    requires |data0| == g.Size() && n <= |src| && g.width > 0 && g.height > 0 && step >= 1
    requires RowUpTo(f, g, data0, src, xOffset, step, y, n).Ok? && x' < g.width && y' < g.height
    requires !OnRow(x', y', xOffset, step, y, n)
    ensures GetPixel(g, RowUpTo(f, g, data0, src, xOffset, step, y, n).value.0, x', y') == GetPixel(g, data0, x', y')
  {
    if n > 0 {
      var st := RowUpTo(f, g, data0, src, xOffset, step, y, n - 1).value;
      OnRowGrows(x', y', xOffset, step, y, n);
      RowFrame(f, g, data0, src, xOffset, step, y, n - 1, x', y');
      var o := f(src[n - 1], st.1).value;
      if o.Some? {
        var x := xOffset + (n - 1) * step;
        OnRowLast(x', y', xOffset, step, y, n);
        SetPixelReadBack(g, st.0, x, y, o.value.0, x', y');
      }
    }
  }

  /** The samples `setPixel` leaves for a written pixel. */
  function Stored(g: Geometry, px: seq<int>): seq<int>
    requires |px| >= g.bands
  {
    seq(g.bands, b requires 0 <= b < g.bands => Store(g, px[b]))
  }

  /** The samples written for source pixel k, from the buffer carried over from pixel k - 1. */
  function Written(f: PixelStep, g: Geometry, data0: seq<int>, src: seq<seq<int>>,
                   xOffset: int, step: int, y: int, k: nat): Option<seq<int>>
    requires |data0| == g.Size() && k < |src| && g.width > 0 && g.height > 0
  {
    match RowUpTo(f, g, data0, src, xOffset, step, y, k)
    case Fail(_) => None
    case Ok(st) =>
      match f(src[k], st.1)
      case Ok(Some(w)) => Some(w.0)
      case _ => None
  }

  /**
   * After a successful row with a step of at least one, the pixel of
   * source pixel k holds what the mode wrote for it, truncated to the
   * raster's depth: later pixels of the row never overwrite it.
   */
  lemma {:induction false} RowValues(f: PixelStep, g: Geometry, data0: seq<int>, src: seq<seq<int>>,
                                     xOffset: nat, step: nat, y: nat, n: nat, k: nat)
    requires |data0| == g.Size() && n <= |src| && g.width > 0 && g.height > 0 && step >= 1 && k < n
    requires RowUpTo(f, g, data0, src, xOffset, step, y, n).Ok?
    requires Written(f, g, data0, src, xOffset, step, y, k).Some?
    ensures xOffset + k * step < g.width && y < g.height
    ensures var px := Written(f, g, data0, src, xOffset, step, y, k).value;
            |px| >= g.bands &&
            GetPixel(g, RowUpTo(f, g, data0, src, xOffset, step, y, n).value.0, xOffset + k * step, y) == Stored(g, px)
  {
    RowPrefixOk(f, g, data0, src, xOffset, step, y, k + 1, n);
    if n == k + 1 {
      PixelStored(f, g, data0, src, xOffset, step, y, k);
    } else {
      RowValues(f, g, data0, src, xOffset, step, y, n - 1, k);
      LaterPixelKeeps(f, g, data0, src, xOffset, step, y, n, k);
    }
  }

  /** Right after source pixel k, its pixel holds what the mode wrote for it. */
  lemma PixelStored(f: PixelStep, g: Geometry, data0: seq<int>, src: seq<seq<int>>,
                    xOffset: nat, step: nat, y: nat, k: nat)
    requires |data0| == g.Size() && k < |src| && g.width > 0 && g.height > 0
    requires RowUpTo(f, g, data0, src, xOffset, step, y, k + 1).Ok?
    requires Written(f, g, data0, src, xOffset, step, y, k).Some?
    ensures xOffset + k * step < g.width && y < g.height
    ensures var px := Written(f, g, data0, src, xOffset, step, y, k).value;
            |px| >= g.bands &&
            GetPixel(g, RowUpTo(f, g, data0, src, xOffset, step, y, k + 1).value.0, xOffset + k * step, y) == Stored(g, px)
  {
    var x := xOffset + k * step;
    var st := RowUpTo(f, g, data0, src, xOffset, step, y, k).value;
    var px := Written(f, g, data0, src, xOffset, step, y, k).value;
    assert SetPixel(g, st.0, x, y, px).Ok?;
    SetPixelReadBack(g, st.0, x, y, px, x, y);
  }

  /** A source pixel after pixel k writes another column, so pixel k's samples stay. */
  lemma LaterPixelKeeps(f: PixelStep, g: Geometry, data0: seq<int>, src: seq<seq<int>>,
                        xOffset: nat, step: nat, y: nat, n: nat, k: nat)
    requires |data0| == g.Size() && n <= |src| && g.width > 0 && g.height > 0 && step >= 1 && k + 1 < n
    requires RowUpTo(f, g, data0, src, xOffset, step, y, n).Ok?
    requires xOffset + k * step < g.width && y < g.height
    ensures GetPixel(g, RowUpTo(f, g, data0, src, xOffset, step, y, n).value.0, xOffset + k * step, y) ==
            GetPixel(g, RowUpTo(f, g, data0, src, xOffset, step, y, n - 1).value.0, xOffset + k * step, y)
  {
    var st' := RowUpTo(f, g, data0, src, xOffset, step, y, n - 1).value;
    var o := f(src[n - 1], st'.1).value;
    if o.Some? {
      MulMono(0, k, step);
      MulLess(k, n - 1, step);
      var x: nat, x2: nat := xOffset + k * step, xOffset + (n - 1) * step;
      assert x2 != x;
      var d := SetPixel(g, st'.0, x2, y, o.value.0);
      assert RowUpTo(f, g, data0, src, xOffset, step, y, n) == Ok((d.value, o.value.1));
      SetPixelReadBack(g, st'.0, x2, y, o.value.0, x, y);
    } else {
      assert RowUpTo(f, g, data0, src, xOffset, step, y, n) == Ok(st');
    }
  }

  // ---------------------------------------------------------------------------
  // decodePass and decodeImage

  /**
   * What happens to a reconstructed row: unpacked into pixels and written
   * into the destination raster at row `y` of the pass.
   */
  type RowEmit = (Pass, int, seq<uint8>, seq<int>) -> Result<seq<int>, Cause>

  /** The pass row raster's pixels, then `processPixels` into destination row `y`. */
  function EmitRow(f: PixelStep, g: Geometry, bitDepth: nat, inputBands: nat,
                   p: Pass, y: int, row: seq<uint8>, data: seq<int>): (r: Result<seq<int>, Cause>)
    requires |row| == BytesPerRow(inputBands, p.width, bitDepth) && |data| == g.Size() && g.width > 0 && g.height > 0
    ensures r.Ok? ==> |r.value| == |data|
  {
    var src :- RowPixels(row, bitDepth, inputBands, p.width);
    ProcessRow(f, g, data, src, p.xOffset, p.xStep, y)
  }

  /** The emitter of a decoder whose destination raster has geometry `g`. */
  function Emitter(f: PixelStep, g: Geometry, bitDepth: nat, inputBands: nat): RowEmit
  {
    (p: Pass, y: int, row: seq<uint8>, data: seq<int>) =>
      if |row| == BytesPerRow(inputBands, p.width, bitDepth) && |data| == g.Size() && g.width > 0 && g.height > 0
      then EmitRow(f, g, bitDepth, inputBands, p, y, row, data)
      else Fail(IndexOutOfBounds)
  }

  /** `emit` is `EmitRow` on every row of the expected length and every raster of the geometry's size. */
  ghost predicate EmitsRows(emit: RowEmit, f: PixelStep, g: Geometry, bitDepth: nat, inputBands: nat)
  {
    g.width > 0 && g.height > 0 &&
    forall q: Pass, y: int, row: seq<uint8>, data: seq<int>
      {:trigger EmitRow(f, g, bitDepth, inputBands, q, y, row, data)}
      | |row| == BytesPerRow(inputBands, q.width, bitDepth) && |data| == g.Size() ::
      emit(q, y, row, data) == EmitRow(f, g, bitDepth, inputBands, q, y, row, data)
  }

  /** The emitter of a raster with pixels emits its rows. */
  lemma EmitterEmitsRows(f: PixelStep, g: Geometry, bitDepth: nat, inputBands: nat)
    requires g.width > 0 && g.height > 0
    ensures EmitsRows(Emitter(f, g, bitDepth, inputBands), f, g, bitDepth, inputBands)
  {
    forall q: Pass, y: int, row: seq<uint8>, data: seq<int> | |row| == BytesPerRow(inputBands, q.width, bitDepth) && |data| == g.Size()
      ensures Emitter(f, g, bitDepth, inputBands)(q, y, row, data) == EmitRow(f, g, bitDepth, inputBands, q, y, row, data)
    {
      EmitterApplies(f, g, bitDepth, inputBands, q, y, row, data);
    }
  }

  /** The decoder state a pass reads but does not change. */
  datatype PassContext = PassContext(bitDepth: nat, inputBands: nat, bytesPerPixel: nat, stream: Inflated)
  {
    predicate Valid()
    {
      bytesPerPixel >= 1
    }
  }

  /** The state a pass changes: the position in the inflated data, the two row buffers, and the raster's samples. */
  datatype PassState = PassState(pos: nat, curr: seq<uint8>, prior: seq<uint8>, data: seq<int>)

  /**
   * One row of a pass: read, reconstruct against the prior row, emit into
   * destination row `y`, then swap the buffers so the reconstructed row
   * becomes the prior one.
   */
  function RowStep(c: PassContext, emit: RowEmit, p: Pass, y: int, s: PassState): (r: Result<PassState, Cause>)
    requires c.Valid() && |s.curr| == |s.prior|
    ensures r.Ok? ==> |r.value.curr| == |r.value.prior| == |s.curr|
  {
    var (filter, raw, pos) := ReadRow(c.stream, s.pos, s.curr);
    var row :- Defilter(filter, raw, s.prior, c.bytesPerPixel);
    var data :- emit(p, y, row, s.data);
    Ok(PassState(pos, s.prior, row, data))
  }

  /** A row whose filter is undone ends as its emitter leaves the raster. */
  lemma RowStepOf(c: PassContext, emit: RowEmit, p: Pass, y: int, s: PassState, filter: int, raw: seq<uint8>, next: nat, row: seq<uint8>)
    requires c.Valid() && |s.curr| == |s.prior|
    requires ReadRow(c.stream, s.pos, s.curr) == (filter, raw, next)
    requires Defilter(filter, raw, s.prior, c.bytesPerPixel) == Ok(row)
    ensures emit(p, y, row, s.data).Fail? ==> RowStep(c, emit, p, y, s) == Fail(emit(p, y, row, s.data).error)
    ensures emit(p, y, row, s.data).Ok? ==> RowStep(c, emit, p, y, s) == Ok(PassState(next, s.prior, row, emit(p, y, row, s.data).value))
  {
  }

  /** A row whose filter cannot be undone fails. */
  lemma RowStepFails(c: PassContext, emit: RowEmit, p: Pass, y: int, s: PassState, filter: int, raw: seq<uint8>, next: nat)
    requires c.Valid() && |s.curr| == |s.prior|
    requires ReadRow(c.stream, s.pos, s.curr) == (filter, raw, next)
    ensures Defilter(filter, raw, s.prior, c.bytesPerPixel).Fail? ==> RowStep(c, emit, p, y, s).Fail?
  {
  }

  /** The emitter applied to a row of the expected length on the raster's own samples. */
  lemma EmitterApplies(f: PixelStep, g: Geometry, bitDepth: nat, inputBands: nat, p: Pass, y: int, row: seq<uint8>, data: seq<int>)
    requires |row| == BytesPerRow(inputBands, p.width, bitDepth) && |data| == g.Size() && g.width > 0 && g.height > 0
    ensures Emitter(f, g, bitDepth, inputBands)(p, y, row, data) == EmitRow(f, g, bitDepth, inputBands, p, y, row, data)
  {
  }

  /** The first `j` rows of a pass; the prior row of its first row is all zeros. */
  function PassUpTo(c: PassContext, emit: RowEmit, p: Pass, pos: nat, data: seq<int>, j: nat): (r: Result<PassState, Cause>)
    requires c.Valid()
    ensures r.Ok? ==> |r.value.curr| == |r.value.prior| == BytesPerRow(c.inputBands, p.width, c.bitDepth)
  {
    if j == 0 then
      var n := BytesPerRow(c.inputBands, p.width, c.bitDepth);
      Ok(PassState(pos, Zeros(n), Zeros(n), data))
    else
      var s :- PassUpTo(c, emit, p, pos, data, j - 1);
      RowStep(c, emit, p, RowOf(p, j - 1), s)
  }

  /**
   * `decodePass`: nothing at all for a pass without pixels; otherwise the
   * one-row pass raster is created, which fails as `createRaster` does,
   * and then every row is decoded.
   */
  function DecodePassSpec(c: PassContext, emit: RowEmit, p: Pass, pos: nat, data: seq<int>): (r: Result<(nat, seq<int>), Cause>)
    requires c.Valid()
    ensures p.width == 0 || p.height == 0 ==> r == Ok((pos, data))
    ensures p.width > 0 && p.height > 0 && !(1 <= c.inputBands <= 4) ==> r.Fail?
  {
    if p.width == 0 || p.height == 0 then Ok((pos, data))
    else
      var _ :- CreateRaster(p.width, 1, c.inputBands, c.bitDepth);
      var s :- PassUpTo(c, emit, p, pos, data, p.height);
      Ok((s.pos, s.data))
  }

  /** A pass with pixels whose row raster can be created ends as its rows do. */
  lemma PassSpecOfRows(c: PassContext, emit: RowEmit, p: Pass, pos: nat, data: seq<int>)
    requires c.Valid() && p.width > 0 && p.height > 0 && CreateRaster(p.width, 1, c.inputBands, c.bitDepth).Ok?
    ensures var rows := PassUpTo(c, emit, p, pos, data, p.height);
            (DecodePassSpec(c, emit, p, pos, data).Ok? <==> rows.Ok?) &&
            (rows.Ok? ==> DecodePassSpec(c, emit, p, pos, data).value == (rows.value.pos, rows.value.data))
  {
  }

  /** `decodeImage`: the passes one after the other, the inflated data read on from where the last pass stopped. */
  function DecodePasses(c: PassContext, emit: RowEmit, passes: seq<Pass>, pos: nat, data: seq<int>, k: nat): Result<(nat, seq<int>), Cause>
    requires c.Valid() && k <= |passes|
  {
    if k == 0 then Ok((pos, data))
    else
      var st :- DecodePasses(c, emit, passes, pos, data, k - 1);
      DecodePassSpec(c, emit, passes[k - 1], st.0, st.1)
  }

  lemma {:induction false} PassPrefixOk(c: PassContext, emit: RowEmit, p: Pass, pos: nat, data: seq<int>, i: nat, j: nat)
    requires c.Valid() && i <= j
    requires PassUpTo(c, emit, p, pos, data, j).Ok?
    ensures PassUpTo(c, emit, p, pos, data, i).Ok?
    decreases j - i
  {
    if i < j {
      PassStepOk(c, emit, p, pos, data, j);
      PassPrefixOk(c, emit, p, pos, data, i, j - 1);
    }
  }

  /** A pass that fails at a row fails as a whole. */
  lemma PassFailStays(c: PassContext, emit: RowEmit, p: Pass, pos: nat, data: seq<int>, i: nat, j: nat)
    requires c.Valid() && i <= j
    ensures PassUpTo(c, emit, p, pos, data, i).Fail? ==> PassUpTo(c, emit, p, pos, data, j).Fail?
  {
    if PassUpTo(c, emit, p, pos, data, j).Ok? {
      PassPrefixOk(c, emit, p, pos, data, i, j);
    }
  }

  /** `decodeImage` fails as soon as one pass fails. */
  lemma {:induction false} PassesFailStay(c: PassContext, emit: RowEmit, passes: seq<Pass>, pos: nat, data: seq<int>, i: nat, j: nat)
    requires c.Valid() && i <= j <= |passes|
    ensures DecodePasses(c, emit, passes, pos, data, i).Fail? ==> DecodePasses(c, emit, passes, pos, data, j).Fail?
    decreases j - i
  {
    if i < j {
      PassesFailStay(c, emit, passes, pos, data, i, j - 1);
    }
  }

  /** One row of a pass as a value, so that a loop over rows can be stated without unfolding `RowStep`. */
  type StepFn = (Pass, int, PassState) -> Result<PassState, Cause>

  /** `step` is `RowStep` on every state whose two row buffers have the same length. */
  ghost predicate StepsRows(step: StepFn, c: PassContext, emit: RowEmit)
  {
    c.Valid() &&
    forall q: Pass, y: int, s: PassState {:trigger RowStep(c, emit, q, y, s)} | |s.curr| == |s.prior| ::
      step(q, y, s) == RowStep(c, emit, q, y, s)
  }

  /** `RowStep` as a value. */
  function Steps(c: PassContext, emit: RowEmit): StepFn
    requires c.Valid()
  {
    (q: Pass, y: int, s: PassState) => if |s.curr| == |s.prior| then RowStep(c, emit, q, y, s) else Fail(IndexOutOfBounds)
  }

  lemma StepsAreRows(c: PassContext, emit: RowEmit)
    requires c.Valid()
    ensures StepsRows(Steps(c, emit), c, emit)
  {
    forall q: Pass, y: int, s: PassState | |s.curr| == |s.prior|
      ensures Steps(c, emit)(q, y, s) == RowStep(c, emit, q, y, s)
    {
    }
  }

  /** The first `j` rows of a pass taken by `step` over row buffers of `n` bytes. */
  ghost function Rows(step: StepFn, n: nat, p: Pass, pos: nat, data: seq<int>, j: nat): Result<PassState, Cause>
  {
    if j == 0 then Ok(PassState(pos, Zeros(n), Zeros(n), data))
    else
      var s :- Rows(step, n, p, pos, data, j - 1);
      step(p, RowOf(p, j - 1), s)
  }

  /** Taken by `RowStep`, the rows are those of `PassUpTo`. */
  lemma {:induction false} RowsArePassUpTo(step: StepFn, c: PassContext, emit: RowEmit, p: Pass, pos: nat, data: seq<int>, j: nat)
    requires StepsRows(step, c, emit)
    ensures Rows(step, BytesPerRow(c.inputBands, p.width, c.bitDepth), p, pos, data, j) == PassUpTo(c, emit, p, pos, data, j)
  {
    if j > 0 {
      RowsArePassUpTo(step, c, emit, p, pos, data, j - 1);
      var prev := PassUpTo(c, emit, p, pos, data, j - 1);
      if prev.Ok? {
        assert step(p, RowOf(p, j - 1), prev.value) == RowStep(c, emit, p, RowOf(p, j - 1), prev.value);
      }
    }
  }

  /** After `j` rows, a failing row `j` fails the whole pass. */
  lemma RowFailsPass(step: StepFn, c: PassContext, emit: RowEmit, p: Pass, pos: nat, data: seq<int>, j: nat)
    requires StepsRows(step, c, emit) && j < p.height
    requires Rows(step, BytesPerRow(c.inputBands, p.width, c.bitDepth), p, pos, data, j + 1).Fail?
    ensures Rows(step, BytesPerRow(c.inputBands, p.width, c.bitDepth), p, pos, data, p.height).Fail?
  {
    RowsArePassUpTo(step, c, emit, p, pos, data, j + 1);
    RowsArePassUpTo(step, c, emit, p, pos, data, p.height);
    PassFailStays(c, emit, p, pos, data, j + 1, p.height);
  }

  /** A row follows only a successful row. */
  lemma PassStepOk(c: PassContext, emit: RowEmit, p: Pass, pos: nat, data: seq<int>, j: nat)
    requires c.Valid() && j >= 1
    ensures PassUpTo(c, emit, p, pos, data, j).Ok? ==> PassUpTo(c, emit, p, pos, data, j - 1).Ok?
  {
  }

  /**
   * While the inflated data lasts, every row consumes exactly its filter
   * byte and `bytesPerRow` bytes, so row j starts at pos + j * (bytesPerRow + 1).
   */
  lemma {:induction false} PassConsumes(c: PassContext, emit: RowEmit, p: Pass, pos: nat, data: seq<int>, j: nat)
    requires c.Valid()
    requires PassUpTo(c, emit, p, pos, data, j).Ok?
    requires pos + j * (BytesPerRow(c.inputBands, p.width, c.bitDepth) + 1) <= |c.stream.bytes|
    ensures PassUpTo(c, emit, p, pos, data, j).value.pos == pos + j * (BytesPerRow(c.inputBands, p.width, c.bitDepth) + 1)
  {
    PassReads(c, emit, p, pos, data, j);
    RowsEndExact(c.stream, pos, BytesPerRow(c.inputBands, p.width, c.bitDepth), j);
  }

  /** A pass stops where its row reads stop. */
  lemma {:induction false} PassReads(c: PassContext, emit: RowEmit, p: Pass, pos: nat, data: seq<int>, j: nat)
    requires c.Valid()
    requires PassUpTo(c, emit, p, pos, data, j).Ok?
    ensures PassUpTo(c, emit, p, pos, data, j).value.pos == RowsEnd(c.stream, pos, BytesPerRow(c.inputBands, p.width, c.bitDepth), j)
  {
    if j > 0 {
      PassStepOk(c, emit, p, pos, data, j);
      PassReads(c, emit, p, pos, data, j - 1);
      PassReadsNext(c, emit, p, pos, data, j);
    }
  }

  lemma PassReadsNext(c: PassContext, emit: RowEmit, p: Pass, pos: nat, data: seq<int>, j: nat)
    requires c.Valid() && j >= 1
    requires PassUpTo(c, emit, p, pos, data, j).Ok? && PassUpTo(c, emit, p, pos, data, j - 1).Ok?
    requires PassUpTo(c, emit, p, pos, data, j - 1).value.pos == RowsEnd(c.stream, pos, BytesPerRow(c.inputBands, p.width, c.bitDepth), j - 1)
    ensures PassUpTo(c, emit, p, pos, data, j).value.pos == RowsEnd(c.stream, pos, BytesPerRow(c.inputBands, p.width, c.bitDepth), j)
  {
    var n := BytesPerRow(c.inputBands, p.width, c.bitDepth);
    var s := PassUpTo(c, emit, p, pos, data, j - 1).value;
    PassReadsStep(c, emit, p, pos, data, j);
    assert |s.curr| == n;
    assert RowsEnd(c.stream, pos, n, j) == ReadEnd(c.stream, RowsEnd(c.stream, pos, n, j - 1), n);
  }

  lemma PassReadsStep(c: PassContext, emit: RowEmit, p: Pass, pos: nat, data: seq<int>, j: nat)
    requires c.Valid() && j >= 1
    requires PassUpTo(c, emit, p, pos, data, j).Ok? && PassUpTo(c, emit, p, pos, data, j - 1).Ok?
    ensures var s := PassUpTo(c, emit, p, pos, data, j - 1).value;
            PassUpTo(c, emit, p, pos, data, j).value.pos == ReadEnd(c.stream, s.pos, |s.curr|)
  {
    var s := PassUpTo(c, emit, p, pos, data, j - 1).value;
    var y := RowOf(p, j - 1);
    assert PassUpTo(c, emit, p, pos, data, j) == RowStep(c, emit, p, y, s);
    RowStepPos(c, emit, p, y, s);
  }

  lemma StepArith(pos: nat, j: nat, w: nat)
    requires j >= 1
    ensures pos + (j - 1) * w + w == pos + j * w
  {
  }

  /** A row ends where its read ended. */
  lemma RowStepPos(c: PassContext, emit: RowEmit, p: Pass, y: int, s: PassState)
    requires c.Valid() && |s.curr| == |s.prior|
    requires RowStep(c, emit, p, y, s).Ok?
    ensures RowStep(c, emit, p, y, s).value.pos == ReadRow(c.stream, s.pos, s.curr).2
  {
  }

  /** A row that starts at the clean end of the inflated data fails with the unknown-filter error. */
  lemma CleanEndFails(c: PassContext, emit: RowEmit, p: Pass, y: int, s: PassState)
    requires c.Valid() && |s.curr| == |s.prior|
    requires s.pos >= |c.stream.bytes| && !c.stream.corrupt
    ensures RowStep(c, emit, p, y, s) == Fail(UnknownFilter)
  {
    ReadRowAtEnd(c.stream, s.pos, s.curr);
  }

  /** A filter type above 4 fails the row. */
  lemma UnknownFilterFails(c: PassContext, emit: RowEmit, p: Pass, y: int, s: PassState)
    requires c.Valid() && |s.curr| == |s.prior|
    requires s.pos < |c.stream.bytes| && c.stream.bytes[s.pos] > 4
    ensures RowStep(c, emit, p, y, s) == Fail(UnknownFilter)
  {
  }
}

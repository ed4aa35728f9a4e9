/**
 * The IHDR chunk (section 4.1.1 of RFC 2083) and what the decoder derives
 * from it: whether the header is accepted, the number of input and output
 * bands, the bytes per pixel the filters step by, and the initial
 * post-processing mode.
 */
module PngHeader {
  import opened Wrappers
  import opened JavaInt

  const PNG_COLOR_GRAY: int := 0
  const PNG_COLOR_RGB: int := 2
  const PNG_COLOR_PALETTE: int := 3
  const PNG_COLOR_GRAY_ALPHA: int := 4
  const PNG_COLOR_RGB_ALPHA: int := 6

  /** `colorTypeNames`: seven entries, so types 1 and 5 are named "Error" and 7 upwards is out of bounds. */
  const COLOR_TYPE_NAMES: seq<string> :=
    ["Grayscale", "Error", "Truecolor", "Index", "Grayscale with alpha", "Error", "Truecolor with alpha"]

  /** `validMask`: bits 1, 2, 4, 8 and 16 of an `int`. */
  const VALID_MASK: bv32 := 0x1_0116

  /** The bit-depth test `(1 << bitDepth & validMask) != 0`, with Java's shift distance taken modulo 32. */
  predicate BitDepthAccepted(bitDepth: nat)
  {
    ShiftOne(bitDepth) & VALID_MASK != 0
  }

  lemma ShiftCases(k: bv5)
    ensures ((1 as bv32) << k) & VALID_MASK != 0 <==> k == 1 || k == 2 || k == 4 || k == 8 || k == 16
  {
  }

  /** A depth passes exactly when it is 1, 2, 4, 8 or 16 modulo 32. */
  lemma BitDepthAcceptedIff(d: nat)
    ensures BitDepthAccepted(d) <==> d % 32 in {1, 2, 4, 8, 16}
  {
    var k := (d % 32) as bv5;
    ShiftCases(k);
    assert k as int == d % 32;
  }

  /** Below 32 the test is the one intended; 33 and 48 pass as well, 17 and 3 do not. */
  lemma BitDepthQuirk(d: nat)
    requires d < 32
    ensures BitDepthAccepted(d) <==> d in {1, 2, 4, 8, 16}
    ensures BitDepthAccepted(33) && BitDepthAccepted(48) && !BitDepthAccepted(17) && !BitDepthAccepted(3)
  {
    BitDepthAcceptedIff(d);
    BitDepthAcceptedIff(33);
    BitDepthAcceptedIff(48);
    BitDepthAcceptedIff(17);
    BitDepthAcceptedIff(3);
  }

  /** `maxOpacity = (1 << bitDepth) - 1` for an accepted depth. */
  function MaxOpacity(bitDepth: nat): (r: int)
    requires BitDepthAccepted(bitDepth)
    ensures r + 1 == Pow2(bitDepth % 32)
    ensures bitDepth < 32 ==> r + 1 == Pow2(bitDepth)
  {
    BitDepthAcceptedIff(bitDepth);
    var k := bitDepth % 32;
    if k == 1 then 1 else if k == 2 then 3 else if k == 4 then 15 else if k == 8 then 255 else 65535
  }

  /**
   * The checks of `parse_IHDR_chunk` on bit depth, colour type,
   * compression, filter and interlace method, in the order the source
   * makes them. Colour types 1 and 5 pass: they are only logged, and the
   * name table has an entry for them.
   */
  predicate HeaderValid(bitDepth: nat, colorType: nat, compression: nat, filter: nat, interlace: nat)
  {
    BitDepthAccepted(bitDepth) &&
    !(colorType == PNG_COLOR_RGB && bitDepth < 8) &&
    !(colorType == PNG_COLOR_PALETTE && bitDepth == 16) &&
    !(colorType == PNG_COLOR_GRAY_ALPHA && bitDepth < 8) &&
    !(colorType == PNG_COLOR_RGB_ALPHA && bitDepth < 8) &&
    colorType < |COLOR_TYPE_NAMES| &&
    compression == 0 && filter == 0 && interlace in {0, 1}
  }

  /** For depths below 32 the accepted headers are the combinations RFC 2083 allows, plus colour types 1 and 5. */
  lemma HeaderValidIff(bitDepth: nat, colorType: nat, compression: nat, filter: nat, interlace: nat)
    requires bitDepth < 32
    ensures HeaderValid(bitDepth, colorType, compression, filter, interlace) <==>
              bitDepth in {1, 2, 4, 8, 16} && colorType <= 6 &&
              (colorType in {PNG_COLOR_RGB, PNG_COLOR_GRAY_ALPHA, PNG_COLOR_RGB_ALPHA} ==> bitDepth in {8, 16}) &&
              (colorType == PNG_COLOR_PALETTE ==> bitDepth <= 8) &&
              compression == 0 && filter == 0 && (interlace == 0 || interlace == 1)
  {
    BitDepthQuirk(bitDepth);
  }

  /** The post-processing steps of `processPixels` (POST_NONE .. POST_REMOVE_RGB_TRANS). */
  datatype Step =
    | PostNone | PostGamma | PostGrayLut | PostGrayLutAddTrans | PostPaletteToRgb | PostPaletteToRgba
    | PostAddGrayTrans | PostAddRgbTrans | PostRemoveGrayTrans | PostRemoveRgbTrans

  /** A `postProcess` value: a step, and `expand` for POST_EXP_MASK (gray to G/G/G). */
  datatype Mode = Mode(step: Step, expand: bool)

  function StepCode(s: Step): (c: int)
    ensures 0 <= c <= 9
  {
    match s
    case PostNone => 0
    case PostGamma => 1
    case PostGrayLut => 2
    case PostGrayLutAddTrans => 3
    case PostPaletteToRgb => 4
    case PostPaletteToRgba => 5
    case PostAddGrayTrans => 6
    case PostAddRgbTrans => 7
    case PostRemoveGrayTrans => 8
    case PostRemoveRgbTrans => 9
  }

  /** The Java constant for a mode: the step's code, with 16 added for the expand mask. */
  function Code(m: Mode): int
  {
    StepCode(m.step) + if m.expand then 16 else 0
  }

  /** Distinct modes have distinct codes, so the `switch` in `processPixels` tells them apart. */
  lemma CodeInjective(m1: Mode, m2: Mode)
    requires Code(m1) == Code(m2)
    ensures m1 == m2
  {
  }

  /** The number of samples a pixel of the given mode writes, given the input bands; None where `processPixels` has no case. */
  function ModeBands(m: Mode, inputBands: nat): Option<nat>
  {
    if m.expand then
      if m.step in {PostNone, PostGamma, PostGrayLutAddTrans, PostAddGrayTrans} then Some(4) else None
    else
      match m.step
      case PostNone => Some(inputBands)
      case PostGamma => Some(inputBands)
      case PostGrayLut => Some(1)
      case PostGrayLutAddTrans => Some(2)
      case PostPaletteToRgb => Some(3)
      case PostPaletteToRgba => Some(4)
      case PostAddGrayTrans => Some(2)
      case PostAddRgbTrans => Some(4)
      case PostRemoveGrayTrans => Some(1)
      case PostRemoveRgbTrans => Some(3)
  }

  /** The decode parameters that steer the layout; `output8BitGray` is on whenever gamma correction is. */
  datatype Options = Options(suppressAlpha: bool, expandPalette: bool, output8BitGray: bool,
                             expandGrayAlpha: bool, performGammaCorrection: bool)

  /** What the `switch (colorType)` of `parse_IHDR_chunk` assigns. */
  datatype Layout = Layout(inputBands: nat, outputBands: nat, postProcess: Mode)

  /** `bytesPerPixel`: assigned for every colour type, the switch then scales it. */
  function BytesPerPixel(colorType: int, bitDepth: int): nat
  {
    var sample := if bitDepth == 16 then 2 else 1;
    if colorType == PNG_COLOR_RGB then 3 * sample
    else if colorType == PNG_COLOR_PALETTE then 1
    else if colorType == PNG_COLOR_GRAY_ALPHA then 2 * sample
    else if colorType == PNG_COLOR_RGB_ALPHA then 4 * sample
    else sample
  }

  /** The bands and mode set by the switch; None for colour types 1 and 5, which have no case. */
  function HeaderLayout(colorType: int, bitDepth: int, o: Options): Option<Layout>
  {
    var gamma := if o.performGammaCorrection then PostGamma else PostNone;
    if colorType == PNG_COLOR_GRAY then
      Some(Layout(1, 1, Mode(if o.output8BitGray && bitDepth < 8 then PostGrayLut else gamma, false)))
    else if colorType == PNG_COLOR_RGB then
      Some(Layout(3, 3, Mode(gamma, false)))
    else if colorType == PNG_COLOR_PALETTE then
      Some(Layout(1, if o.expandPalette then 3 else 1, Mode(if o.expandPalette then PostPaletteToRgb else PostNone, false)))
    else if colorType == PNG_COLOR_GRAY_ALPHA then
      if o.suppressAlpha then Some(Layout(2, 1, Mode(PostRemoveGrayTrans, false)))
      else Some(Layout(2, if o.expandGrayAlpha then 4 else 2, Mode(gamma, o.expandGrayAlpha)))
    else if colorType == PNG_COLOR_RGB_ALPHA then
      Some(Layout(4, if o.suppressAlpha then 3 else 4, Mode(if o.suppressAlpha then PostRemoveRgbTrans else gamma, false)))
    else None
  }

  /** The input bands per colour type, and the bytes per pixel: one per sample, two at 16 bits, always one for palettes. */
  lemma {:induction false} LayoutBands(colorType: int, bitDepth: int, o: Options)
    ensures HeaderLayout(colorType, bitDepth, o).Some? <==> colorType in {0, 2, 3, 4, 6}
    ensures HeaderLayout(colorType, bitDepth, o).Some? ==>
              HeaderLayout(colorType, bitDepth, o).value.inputBands ==
                (if colorType in {0, 3} then 1 else if colorType == 2 then 3 else if colorType == 4 then 2 else 4)
    ensures HeaderLayout(colorType, bitDepth, o).Some? ==>
              BytesPerPixel(colorType, bitDepth) ==
                if colorType == PNG_COLOR_PALETTE then 1
                else HeaderLayout(colorType, bitDepth, o).value.inputBands * (if bitDepth == 16 then 2 else 1)
  {
  }

  /** The mode writes exactly as many samples as the output has bands. */
  lemma {:induction false} LayoutModeFits(colorType: int, bitDepth: int, o: Options)
    requires HeaderLayout(colorType, bitDepth, o).Some?
    ensures var l := HeaderLayout(colorType, bitDepth, o).value;
            ModeBands(l.postProcess, l.inputBands) == Some(l.outputBands)
  {
  }

  /**
   * The initial mode: the alpha band is removed exactly when alpha is
   * suppressed on an image that has one; gray expansion happens only for
   * gray with alpha; the gray table only for gray below 8 bits.
   */
  lemma {:induction false} InitialMode(colorType: int, bitDepth: int, o: Options)
    requires colorType in {0, 2, 3, 4, 6}
    ensures var m := HeaderLayout(colorType, bitDepth, o).value.postProcess;
            (m.step in {PostRemoveGrayTrans, PostRemoveRgbTrans} <==> o.suppressAlpha && colorType in {4, 6}) &&
            (m.expand <==> colorType == 4 && !o.suppressAlpha && o.expandGrayAlpha) &&
            (m.step == PostGrayLut <==> colorType == 0 && o.output8BitGray && bitDepth < 8) &&
            (m.step == PostPaletteToRgb <==> colorType == 3 && o.expandPalette) &&
            (m.step == PostGamma ==> o.performGammaCorrection)
  {
  }
}

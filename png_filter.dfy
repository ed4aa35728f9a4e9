/**
 * Scanline filtering (section 6 of RFC 2083). Each byte of a filtered row
 * is stored as the difference, modulo 256, between the byte and a
 * prediction made from the byte one pixel to the left, the byte above it
 * and the byte above and to the left. The decoder adds the prediction back
 * in place, from left to right, so that the left neighbour it reads is
 * already reconstructed.
 *
 * `Decoded` specifies reconstruction; `Filtered` is the encoder it
 * inverts. The in-place methods are the decoder's five `decode*Filter`
 * loops, each proved to leave exactly `Unfilter` in the row.
 */
module PngFilter {
  import opened JavaInt

  const PNG_FILTER_NONE: int := 0
  const PNG_FILTER_SUB: int := 1
  const PNG_FILTER_UP: int := 2
  const PNG_FILTER_AVERAGE: int := 3
  const PNG_FILTER_PAETH: int := 4

  function Abs(x: int): nat
  {
    if x < 0 then -x else x
  }

  /** `paethPredictor(a, b, c)`, with a the left byte, b the upper one and c the upper-left one. */
  function PaethPredictor(a: int, b: int, c: int): int
  {
    var p := a + b - c;
    var pa := Abs(p - a);
    var pb := Abs(p - b);
    var pc := Abs(p - c);
    if pa <= pb && pa <= pc then a
    else if pb <= pc then b
    else c
  }

  /**
   * The Paeth prediction is, of a, b and c, the first in that order that
   * lies nearest to the estimate a + b - c.
   */
  lemma PaethNearest(a: int, b: int, c: int)
    ensures var r := PaethPredictor(a, b, c);
            r == a || r == b || r == c
    ensures var r, p := PaethPredictor(a, b, c), a + b - c;
            Abs(p - r) <= Abs(p - a) && Abs(p - r) <= Abs(p - b) && Abs(p - r) <= Abs(p - c)
    ensures var r, p := PaethPredictor(a, b, c), a + b - c;
            (Abs(p - a) <= Abs(p - b) && Abs(p - a) <= Abs(p - c) ==> r == a) &&
            (Abs(p - b) < Abs(p - a) && Abs(p - b) <= Abs(p - c) ==> r == b) &&
            (Abs(p - c) < Abs(p - a) && Abs(p - c) < Abs(p - b) ==> r == c)
  {
  }

  /** The prediction each filter type adds back. */
  function Predictor(filter: int, left: int, up: int, upLeft: int): int
  {
    if filter == PNG_FILTER_SUB then left
    else if filter == PNG_FILTER_UP then up
    else if filter == PNG_FILTER_AVERAGE then (left + up) / 2
    else if filter == PNG_FILTER_PAETH then PaethPredictor(left, up, upLeft)
    else 0
  }

  /** The byte of the prior row at `i`; the filters that never read it may pass an empty row. */
  function PriorAt(prior: seq<uint8>, i: int): uint8
  {
    if 0 <= i < |prior| then prior[i] else 0
  }

  /** The byte `bpp` to the left of position `i`, or 0 within the first pixel. */
  function LeftOf(row: seq<uint8>, i: int, bpp: nat): uint8
  {
    if bpp <= i && i - bpp < |row| then row[i - bpp] else 0
  }

  /** A filtered byte with its prediction added back, modulo 256. */
  function Reconstruct(filter: int, raw: uint8, left: uint8, up: uint8, upLeft: uint8): uint8
  {
    (raw + Predictor(filter, left, up, upLeft)) % 0x100
  }

  /** A byte with its prediction subtracted, modulo 256. */
  function Difference(filter: int, x: uint8, left: uint8, up: uint8, upLeft: uint8): uint8
  {
    (x - Predictor(filter, left, up, upLeft)) % 0x100
  }

  /** Adding the prediction back undoes subtracting it, and the other way round. */
  lemma ReconstructDifference(filter: int, x: uint8, left: uint8, up: uint8, upLeft: uint8)
    ensures Reconstruct(filter, Difference(filter, x, left, up, upLeft), left, up, upLeft) == x
    ensures Difference(filter, Reconstruct(filter, x, left, up, upLeft), left, up, upLeft) == x
  {
    var p := Predictor(filter, left, up, upLeft);
    var q := (x - p) / 0x100;
    DivModUnique(x - q * 0x100, 0x100, -q, x);
    var q' := (x + p) / 0x100;
    DivModUnique(x - q' * 0x100, 0x100, -q', x);
  }

  /**
   * The first `n` reconstructed bytes of a row: byte i is the filtered byte
   * plus the prediction from the reconstructed byte `bpp` to the left (0
   * in the first pixel) and from the prior row, modulo 256.
   */
  function Decoded(filter: int, raw: seq<uint8>, prior: seq<uint8>, bpp: nat, n: nat): (d: seq<uint8>)
    requires n <= |raw| && bpp >= 1
    ensures |d| == n
    decreases n, 0
  {
    if n == 0 then []
    else Decoded(filter, raw, prior, bpp, n - 1) + [DecodedByte(filter, raw, prior, bpp, n - 1)]
  }

  /** Reconstructed byte `i`: its prediction uses the bytes reconstructed before it. */
  function DecodedByte(filter: int, raw: seq<uint8>, prior: seq<uint8>, bpp: nat, i: nat): uint8
    requires i < |raw| && bpp >= 1
    decreases i, 1
  {
    var d := Decoded(filter, raw, prior, bpp, i);
    Reconstruct(filter, raw[i], LeftOf(d, i, bpp), PriorAt(prior, i), LeftOf(prior, i, bpp))
  }

  /** A row after reconstruction of its first `count` bytes; the rest is untouched. */
  function Unfilter(filter: int, raw: seq<uint8>, prior: seq<uint8>, count: nat, bpp: nat): (r: seq<uint8>)
    requires count <= |raw| && bpp >= 1
    ensures |r| == |raw|
  {
    Decoded(filter, raw, prior, bpp, count) + raw[count..]
  }

  /** The encoder: each byte minus its prediction from the original row and the prior row. */
  function Filtered(filter: int, x: seq<uint8>, prior: seq<uint8>, bpp: nat): (f: seq<uint8>)
    requires bpp >= 1
    ensures |f| == |x|
  {
    seq(|x|, i requires 0 <= i < |x| =>
      Difference(filter, x[i], LeftOf(x, i, bpp), PriorAt(prior, i), LeftOf(prior, i, bpp)))
  }

  /** Reconstruction undoes the encoder: a row filtered with any type comes back unchanged. */
  lemma {:induction false} DecodeFiltered(filter: int, x: seq<uint8>, prior: seq<uint8>, bpp: nat, n: nat)
    requires bpp >= 1 && n <= |x|
    ensures Decoded(filter, Filtered(filter, x, prior, bpp), prior, bpp, n) == x[..n]
  {
    if n > 0 {
      var f := Filtered(filter, x, prior, bpp);
      DecodeFiltered(filter, x, prior, bpp, n - 1);
      var i := n - 1;
      assert LeftOf(x[..n - 1], i, bpp) == LeftOf(x, i, bpp);
      ReconstructDifference(filter, x[i], LeftOf(x, i, bpp), PriorAt(prior, i), LeftOf(prior, i, bpp));
      assert DecodedByte(filter, f, prior, bpp, i) == x[i];
      assert x[..n] == x[..n - 1] + [x[i]];
    }
  }

  /** The encoder undoes reconstruction: every filtered row is the encoding of the row it decodes to. */
  lemma {:induction false} FilterDecoded(filter: int, raw: seq<uint8>, prior: seq<uint8>, bpp: nat)
    requires bpp >= 1
    ensures Filtered(filter, Decoded(filter, raw, prior, bpp, |raw|), prior, bpp) == raw
  {
    var d := Decoded(filter, raw, prior, bpp, |raw|);
    var f := Filtered(filter, d, prior, bpp);
    forall i | 0 <= i < |raw|
      ensures f[i] == raw[i]
    {
      DecodedPrefix(filter, raw, prior, bpp, i, |raw|);
      var d0 := Decoded(filter, raw, prior, bpp, i);
      DecodedPrefix(filter, raw, prior, bpp, i + 1, |raw|);
      assert d[i] == Decoded(filter, raw, prior, bpp, i + 1)[i];
      assert LeftOf(d0, i, bpp) == LeftOf(d, i, bpp);
      ReconstructDifference(filter, raw[i], LeftOf(d, i, bpp), PriorAt(prior, i), LeftOf(prior, i, bpp));
    }
  }

  /** Reconstructing more bytes extends the shorter reconstruction. */
  lemma {:induction false} DecodedPrefix(filter: int, raw: seq<uint8>, prior: seq<uint8>, bpp: nat, m: nat, n: nat)
    requires bpp >= 1 && m <= n <= |raw|
    ensures Decoded(filter, raw, prior, bpp, n)[..m] == Decoded(filter, raw, prior, bpp, m)
    decreases n - m
  {
    if m < n {
      DecodedPrefix(filter, raw, prior, bpp, m, n - 1);
      assert Decoded(filter, raw, prior, bpp, n)[..n - 1] == Decoded(filter, raw, prior, bpp, n - 1);
    }
  }

  /** Filter type 0 and unknown types predict nothing: the row is kept as read. */
  lemma {:induction false} NoneKeepsRow(raw: seq<uint8>, prior: seq<uint8>, bpp: nat, n: nat)
    requires bpp >= 1 && n <= |raw|
    ensures Decoded(PNG_FILTER_NONE, raw, prior, bpp, n) == raw[..n]
  {
    if n > 0 {
      NoneKeepsRow(raw, prior, bpp, n - 1);
      assert raw[..n] == raw[..n - 1] + [raw[n - 1]];
    }
  }

  /** Sub leaves the first pixel, the first `bpp` bytes, as read. */
  lemma {:induction false} SubKeepsFirstPixel(raw: seq<uint8>, prior: seq<uint8>, bpp: nat, n: nat)
    requires bpp >= 1 && n <= |raw| && n <= bpp
    ensures Decoded(PNG_FILTER_SUB, raw, prior, bpp, n) == raw[..n]
  {
    if n > 0 {
      SubKeepsFirstPixel(raw, prior, bpp, n - 1);
      assert raw[..n] == raw[..n - 1] + [raw[n - 1]];
    }
  }

  /** Against an all-zero prior row, as on the first row of a pass, Up keeps the row and Paeth acts as Sub. */
  lemma {:induction false} ZeroPriorRow(raw: seq<uint8>, prior: seq<uint8>, bpp: nat, n: nat)
    requires bpp >= 1 && n <= |raw|
    requires forall i | 0 <= i < |prior| :: prior[i] == 0
    ensures Decoded(PNG_FILTER_UP, raw, prior, bpp, n) == raw[..n]
    ensures Decoded(PNG_FILTER_PAETH, raw, prior, bpp, n) == Decoded(PNG_FILTER_SUB, raw, prior, bpp, n)
  {
    ZeroPriorUp(raw, prior, bpp, n);
    ZeroPriorPaeth(raw, prior, bpp, n);
  }

  lemma {:induction false} ZeroPriorUp(raw: seq<uint8>, prior: seq<uint8>, bpp: nat, n: nat)
    requires bpp >= 1 && n <= |raw|
    requires forall i | 0 <= i < |prior| :: prior[i] == 0
    ensures Decoded(PNG_FILTER_UP, raw, prior, bpp, n) == raw[..n]
  {
    if n > 0 {
      ZeroPriorUp(raw, prior, bpp, n - 1);
      var i := n - 1;
      assert PriorAt(prior, i) == 0;
      assert raw[..n] == raw[..i] + [raw[i]];
    }
  }

  lemma {:induction false} ZeroPriorPaeth(raw: seq<uint8>, prior: seq<uint8>, bpp: nat, n: nat)
    requires bpp >= 1 && n <= |raw|
    requires forall i | 0 <= i < |prior| :: prior[i] == 0
    ensures Decoded(PNG_FILTER_PAETH, raw, prior, bpp, n) == Decoded(PNG_FILTER_SUB, raw, prior, bpp, n)
  {
    if n > 0 {
      ZeroPriorPaeth(raw, prior, bpp, n - 1);
      var i := n - 1;
      var d := Decoded(PNG_FILTER_SUB, raw, prior, bpp, i);
      assert PriorAt(prior, i) == 0 && LeftOf(prior, i, bpp) == 0;
      PaethAsSub(raw[i], LeftOf(d, i, bpp));
      assert Decoded(PNG_FILTER_PAETH, raw, prior, bpp, n) == d + [Reconstruct(PNG_FILTER_PAETH, raw[i], LeftOf(d, i, bpp), 0, 0)];
    }
  }

  /** One step of the in-place loops: storing the reconstructed byte at `i` extends the decoded prefix by one. */
  lemma StepKeepsRow(filter: int, raw: seq<uint8>, prior: seq<uint8>, bpp: nat, row: seq<uint8>, i: nat, v: uint8)
    requires bpp >= 1 && i < |raw| == |row|
    requires row[..i] == Decoded(filter, raw, prior, bpp, i) && row[i..] == raw[i..]
    requires v == Reconstruct(filter, row[i], LeftOf(row[..i], i, bpp), PriorAt(prior, i), LeftOf(prior, i, bpp))
    ensures row[i := v][..i + 1] == Decoded(filter, raw, prior, bpp, i + 1)
    ensures row[i := v][i + 1..] == raw[i + 1..]
  {
    assert row[i] == raw[i];
    assert row[i := v][..i + 1] == row[..i] + [v];
  }

  /** With nothing above, Paeth predicts the left byte, as Sub does. */
  lemma PaethAsSub(raw: uint8, left: uint8)
    ensures Reconstruct(PNG_FILTER_PAETH, raw, left, 0, 0) == Reconstruct(PNG_FILTER_SUB, raw, left, 0, 0)
  {
    assert PaethPredictor(left, 0, 0) == left;
  }

  lemma PaethOfUp(b: uint8)
    ensures PaethPredictor(0, b, 0) == b
  {
  }

  /** `decodeSubFilter`: from `bpp` on, each byte gets the reconstructed byte one pixel to its left added. */
  method DecodeSubFilter(curr: array<uint8>, count: int, bpp: int)
    requires 0 <= count <= curr.Length && bpp >= 1
    modifies curr
    ensures curr[..] == Unfilter(PNG_FILTER_SUB, old(curr[..]), [], count, bpp)
  {
    ghost var raw := curr[..];
    if count < bpp {
      SubKeepsFirstPixel(raw, [], bpp, count);
      assert raw == raw[..count] + raw[count..];
      return;
    }
    SubKeepsFirstPixel(raw, [], bpp, bpp);
    var i := bpp;
    while i < count
      invariant bpp <= i <= count
      invariant curr[..i] == Decoded(PNG_FILTER_SUB, raw, [], bpp, i)
      invariant curr[i..] == raw[i..]
    {
      ghost var d0 := curr[..i];
      var val := curr[i] as int;
      val := val + curr[i - bpp] as int;
      assert curr[i - bpp] == LeftOf(d0, i, bpp);
      StepKeepsRow(PNG_FILTER_SUB, raw, [], bpp, curr[..], i, val % 0x100);
      curr[i] := val % 0x100;
      i := i + 1;
    }
  }

  /** `decodeUpFilter`: each byte gets the byte above it added. */
  method DecodeUpFilter(curr: array<uint8>, prev: array<uint8>, count: int)
    requires 0 <= count <= curr.Length && count <= prev.Length && curr != prev
    modifies curr
    ensures curr[..] == Unfilter(PNG_FILTER_UP, old(curr[..]), prev[..], count, 1)
  {
    ghost var raw := curr[..];
    var i := 0;
    while i < count
      invariant 0 <= i <= count
      invariant curr[..i] == Decoded(PNG_FILTER_UP, raw, prev[..], 1, i)
      invariant curr[i..] == raw[i..]
    {
      ghost var d0 := curr[..i];
      var r := curr[i] as int;
      var prior := prev[i] as int;
      assert prev[i] == PriorAt(prev[..], i);
      StepKeepsRow(PNG_FILTER_UP, raw, prev[..], 1, curr[..], i, (r + prior) % 0x100);
      curr[i] := (r + prior) % 0x100;
      i := i + 1;
    }
  }

  /** `decodeAverageFilter`: each byte gets the mean, rounded down, of its left and upper neighbours added. */
  method DecodeAverageFilter(curr: array<uint8>, prev: array<uint8>, count: int, bpp: int)
    requires 1 <= bpp <= count <= curr.Length && count <= prev.Length && curr != prev
    modifies curr
    ensures curr[..] == Unfilter(PNG_FILTER_AVERAGE, old(curr[..]), prev[..], count, bpp)
  {
    ghost var raw := curr[..];
    assert raw == Unfilter(PNG_FILTER_AVERAGE, raw, prev[..], 0, bpp);
    AverageFirstPixel(curr, prev, bpp, raw);
    AverageRest(curr, prev, count, bpp, raw);
  }

  /** The first loop of `decodeAverageFilter`: within the first pixel there is no left neighbour. */
  method AverageFirstPixel(curr: array<uint8>, prev: array<uint8>, bpp: int, ghost raw: seq<uint8>)
    requires 1 <= bpp <= curr.Length && bpp <= prev.Length && curr != prev && |raw| == curr.Length
    requires curr[..] == Unfilter(PNG_FILTER_AVERAGE, raw, prev[..], 0, bpp)
    modifies curr
    ensures curr[..] == Unfilter(PNG_FILTER_AVERAGE, raw, prev[..], bpp, bpp)
  {
    ghost var above := prev[..];
    var i := 0;
    while i < bpp
      invariant 0 <= i <= bpp
      invariant prev[..] == above
      invariant curr[..] == Unfilter(PNG_FILTER_AVERAGE, raw, above, i, bpp)
    {
      ghost var row := curr[..];
      var r := curr[i] as int;
      var priorRow := prev[i] as int;
      AverageStep(raw, above, bpp, i, row, r, 0, priorRow);
      var v := (r + priorRow / 2) % 0x100;
      curr[i] := v;
      assert curr[..] == row[i := v];
      i := i + 1;
    }
  }

  /** The second loop of `decodeAverageFilter`, from the second pixel on. */
  method AverageRest(curr: array<uint8>, prev: array<uint8>, count: int, bpp: int, ghost raw: seq<uint8>)
    requires 1 <= bpp <= count <= curr.Length && count <= prev.Length && curr != prev && |raw| == curr.Length
    requires curr[..] == Unfilter(PNG_FILTER_AVERAGE, raw, prev[..], bpp, bpp)
    modifies curr
    ensures curr[..] == Unfilter(PNG_FILTER_AVERAGE, raw, prev[..], count, bpp)
  {
    ghost var above := prev[..];
    var i := bpp;
    while i < count
      invariant bpp <= i <= count
      invariant prev[..] == above
      invariant curr[..] == Unfilter(PNG_FILTER_AVERAGE, raw, above, i, bpp)
    {
      ghost var row := curr[..];
      var r := curr[i] as int;
      var priorPixel := curr[i - bpp] as int;
      var priorRow := prev[i] as int;
      AverageStep(raw, above, bpp, i, row, r, priorPixel, priorRow);
      var v := (r + (priorPixel + priorRow) / 2) % 0x100;
      curr[i] := v;
      assert curr[..] == row[i := v];
      i := i + 1;
    }
  }

  /** `decodePaethFilter`: the first pixel gets the byte above added, the rest the Paeth prediction. */
  method DecodePaethFilter(curr: array<uint8>, prev: array<uint8>, count: int, bpp: int)
    requires 1 <= bpp <= count <= curr.Length && count <= prev.Length && curr != prev
    modifies curr
    ensures curr[..] == Unfilter(PNG_FILTER_PAETH, old(curr[..]), prev[..], count, bpp)
  {
    ghost var raw := curr[..];
    assert raw == Unfilter(PNG_FILTER_PAETH, raw, prev[..], 0, bpp);
    PaethFirstPixel(curr, prev, bpp, raw);
    PaethRest(curr, prev, count, bpp, raw);
  }

  /** The first loop of `decodePaethFilter`: within the first pixel the prediction is the byte above. */
  method PaethFirstPixel(curr: array<uint8>, prev: array<uint8>, bpp: int, ghost raw: seq<uint8>)
    requires 1 <= bpp <= curr.Length && bpp <= prev.Length && curr != prev && |raw| == curr.Length
    requires curr[..] == Unfilter(PNG_FILTER_PAETH, raw, prev[..], 0, bpp)
    modifies curr
    ensures curr[..] == Unfilter(PNG_FILTER_PAETH, raw, prev[..], bpp, bpp)
  {
    ghost var above := prev[..];
    var i := 0;
    while i < bpp
      invariant 0 <= i <= bpp
      invariant prev[..] == above
      invariant curr[..] == Unfilter(PNG_FILTER_PAETH, raw, above, i, bpp)
    {
      ghost var row := curr[..];
      var r := curr[i] as int;
      var priorRow := prev[i];
      PaethStep(raw, above, bpp, i, row, r, 0, priorRow, 0);
      PaethOfUp(priorRow);
      var v := (r + priorRow as int) % 0x100;
      curr[i] := v;
      assert curr[..] == row[i := v];
      i := i + 1;
    }
  }

  /** The second loop of `decodePaethFilter`, from the second pixel on. */
  method PaethRest(curr: array<uint8>, prev: array<uint8>, count: int, bpp: int, ghost raw: seq<uint8>)
    requires 1 <= bpp <= count <= curr.Length && count <= prev.Length && curr != prev && |raw| == curr.Length
    requires curr[..] == Unfilter(PNG_FILTER_PAETH, raw, prev[..], bpp, bpp)
    modifies curr
    ensures curr[..] == Unfilter(PNG_FILTER_PAETH, raw, prev[..], count, bpp)
  {
    ghost var above := prev[..];
    var i := bpp;
    while i < count
      invariant bpp <= i <= count
      invariant prev[..] == above
      invariant curr[..] == Unfilter(PNG_FILTER_PAETH, raw, above, i, bpp)
    {
      ghost var row := curr[..];
      var r := curr[i] as int;
      var priorPixel := curr[i - bpp] as int;
      var priorRow := prev[i] as int;
      var priorRowPixel := prev[i - bpp] as int;
      PaethStep(raw, above, bpp, i, row, r, priorPixel, priorRow, priorRowPixel);
      var v := (r + PaethPredictor(priorPixel, priorRow, priorRowPixel)) % 0x100;
      curr[i] := v;
      assert curr[..] == row[i := v];
      i := i + 1;
    }
  }

  /** Reconstructing one more byte replaces it, in place, by its reconstruction. */
  lemma UnfilterStep(filter: int, raw: seq<uint8>, prior: seq<uint8>, bpp: nat, i: nat)
    requires bpp >= 1 && i < |raw|
    ensures var u := Unfilter(filter, raw, prior, i, bpp);
            u[i] == raw[i] && LeftOf(u, i, bpp) == LeftOf(Decoded(filter, raw, prior, bpp, i), i, bpp) &&
            Unfilter(filter, raw, prior, i + 1, bpp) == u[i := DecodedByte(filter, raw, prior, bpp, i)]
  {
    var d := Decoded(filter, raw, prior, bpp, i);
    var u := Unfilter(filter, raw, prior, i, bpp);
    assert u == d + raw[i..];
    assert Unfilter(filter, raw, prior, i + 1, bpp) == d + [DecodedByte(filter, raw, prior, bpp, i)] + raw[i + 1..];
  }

  /** One step of the Average loops, from the bytes the loop reads: the current one, the one to its left and the one above. */
  lemma AverageStep(raw: seq<uint8>, prior: seq<uint8>, bpp: nat, i: nat, row: seq<uint8>, r: int, left: int, up: int)
    requires bpp >= 1 && i < |raw| && i < |prior|
    requires row == Unfilter(PNG_FILTER_AVERAGE, raw, prior, i, bpp) && r == row[i] && up == prior[i]
    requires left == if i < bpp then 0 else row[i - bpp]
    ensures Unfilter(PNG_FILTER_AVERAGE, raw, prior, i + 1, bpp) == row[i := (r + (left + up) / 2) % 0x100]
  {
    UnfilterStep(PNG_FILTER_AVERAGE, raw, prior, bpp, i);
  }

  /** One step of the Paeth loops: the byte above in the first pixel, the Paeth prediction after it. */
  lemma PaethStep(raw: seq<uint8>, prior: seq<uint8>, bpp: nat, i: nat, row: seq<uint8>, r: int, left: int, up: int, upLeft: int)
    requires bpp >= 1 && i < |raw| && i < |prior|
    requires row == Unfilter(PNG_FILTER_PAETH, raw, prior, i, bpp) && r == row[i] && up == prior[i]
    requires left == (if i < bpp then 0 else row[i - bpp]) && upLeft == (if i < bpp then 0 else prior[i - bpp])
    ensures Unfilter(PNG_FILTER_PAETH, raw, prior, i + 1, bpp) == row[i := (r + PaethPredictor(left, up, upLeft)) % 0x100]
  {
    UnfilterStep(PNG_FILTER_PAETH, raw, prior, bpp, i);
  }
}

/**
 * The passes `decodeImage` makes over the image: one pass over every pixel
 * when the image is not interlaced, and the seven passes of Adam7 (section
 * 2.6 of RFC 2083) when it is. A pass decodes the pixels
 * (xOffset + i * xStep, yOffset + j * yStep) for i < width and j < height.
 */
module PngInterlace {
  import opened JavaInt

  datatype Pass = Pass(xOffset: nat, yOffset: nat, xStep: nat, yStep: nat, width: nat, height: nat)

  /** The passes of `decodeImage` for an image of `w` by `h` pixels, with the widths and heights as the source computes them. */
  function Passes(w: nat, h: nat, interlaced: bool): seq<Pass>
  {
    if !interlaced then [Pass(0, 0, 1, 1, w, h)]
    else
      [ Pass(0, 0, 8, 8, (w + 7) / 8, (h + 7) / 8),
        Pass(4, 0, 8, 8, (w + 3) / 8, (h + 7) / 8),
        Pass(0, 4, 4, 8, (w + 3) / 4, (h + 3) / 8),
        Pass(2, 0, 4, 4, (w + 1) / 4, (h + 3) / 4),
        Pass(0, 2, 2, 4, (w + 1) / 2, (h + 1) / 4),
        Pass(1, 0, 2, 2, w / 2, (h + 1) / 2),
        Pass(0, 1, 1, 2, w, h / 2) ]
  }

  /** The image row that row `j` of the pass decodes. */
  function RowOf(p: Pass, j: nat): nat
  {
    p.yOffset + j * p.yStep
  }

  /** The number of positions off, off + step, off + 2 * step, ... that lie below `n`. */
  function Positions(n: nat, off: nat, step: nat): nat
    requires off < step
  {
    (n + step - 1 - off) / step
  }

  /** `Positions` counts exactly the positions below `n`: the k-th is below `n` iff k is below the count. */
  lemma PositionsExact(n: nat, off: nat, step: nat, k: nat)
    requires off < step
    ensures k < Positions(n, off, step) <==> off + k * step < n
  {
    var c := Positions(n, off, step);
    var m := n + step - 1 - off;
    assert c * step <= m < c * step + step;
    if k < c {
      MulMono(k, c - 1, step);
      assert (c - 1) * step == c * step - step;
    } else {
      MulMono(c, k, step);
    }
  }

  /** Every pass starts inside its 8 by 8 block and has the width and height of the positions it visits. */
  lemma {:induction false} PassesExact(w: nat, h: nat, interlaced: bool)
    ensures |Passes(w, h, interlaced)| == if interlaced then 7 else 1
    ensures forall p | p in Passes(w, h, interlaced) ::
              p.xOffset < p.xStep && p.yOffset < p.yStep &&
              p.width == Positions(w, p.xOffset, p.xStep) && p.height == Positions(h, p.yOffset, p.yStep)
  {
  }

  /** Every pixel a pass writes lies inside the image. */
  lemma PassInBounds(w: nat, h: nat, interlaced: bool, p: Pass, i: nat, j: nat)
    requires p in Passes(w, h, interlaced) && i < p.width && j < p.height
    ensures p.xOffset + i * p.xStep < w && p.yOffset + j * p.yStep < h
  {
    PassesExact(w, h, interlaced);
    PositionsExact(w, p.xOffset, p.xStep, i);
    PositionsExact(h, p.yOffset, p.yStep, j);
  }

  /** The pass visits pixel (x, y). */
  predicate Covers(p: Pass, x: nat, y: nat)
  {
    p.xOffset <= x && p.yOffset <= y && p.xStep > 0 && p.yStep > 0 &&
    (x - p.xOffset) % p.xStep == 0 && (y - p.yOffset) % p.yStep == 0 &&
    (x - p.xOffset) / p.xStep < p.width && (y - p.yOffset) / p.yStep < p.height
  }

  /** The Adam7 pass a pixel belongs to, from its place in its 8 by 8 block. */
  function Adam7Pass(x: nat, y: nat): (k: nat)
    ensures k < 7
  {
    var a, b := x % 8, y % 8;
    if b % 2 == 1 then 6
    else if a % 2 == 1 then 5
    else if b % 4 == 2 then 4
    else if a % 4 == 2 then 3
    else if b == 4 then 2
    else if a == 4 then 1
    else 0
  }

  lemma CoversStep(p: Pass, n: nat, m: nat, x: nat, y: nat)
    requires p.xOffset < p.xStep && p.yOffset < p.yStep
    requires p.width == Positions(n, p.xOffset, p.xStep) && p.height == Positions(m, p.yOffset, p.yStep)
    requires x < n && y < m
    ensures Covers(p, x, y) <==> p.xOffset <= x && p.yOffset <= y &&
                                 (x - p.xOffset) % p.xStep == 0 && (y - p.yOffset) % p.yStep == 0
  {
    if p.xOffset <= x && p.yOffset <= y && (x - p.xOffset) % p.xStep == 0 && (y - p.yOffset) % p.yStep == 0 {
      var i, j := (x - p.xOffset) / p.xStep, (y - p.yOffset) / p.yStep;
      assert p.xOffset + i * p.xStep == x;
      assert p.yOffset + j * p.yStep == y;
      PositionsExact(n, p.xOffset, p.xStep, i);
      PositionsExact(m, p.yOffset, p.yStep, j);
    }
  }

  /** For a step of 1, 2, 4 or 8, `x` lies on the grid from `off` exactly when it has remainder `off`. */
  lemma OnGrid(x: nat, off: nat, step: nat)
    requires off < step && step in {1, 2, 4, 8}
    ensures (off <= x && (x - off) % step == 0) <==> x % step == off
    ensures x % step == (x % 8) % step
  {
    OnGridOffset(x, off, step);
    OnGridBlock(x, step);
  }

  /** `x` lies on the grid from `off` exactly when it has remainder `off`. */
  lemma OnGridOffset(x: nat, off: nat, step: nat)
    requires off < step
    ensures (off <= x && (x - off) % step == 0) <==> x % step == off
  {
    if off <= x && (x - off) % step == 0 {
      var t := (x - off) / step;
      assert x == t * step + off;
      DivModUnique(x, step, t, off);
    }
    if x % step == off {
      MulMono(0, x / step, step);
      DivModUnique(x - off, step, x / step, 0);
    }
  }

  /** A step that divides 8 sees the same remainder in `x` as in its place in the block. */
  lemma OnGridBlock(x: nat, step: nat)
    requires step in {1, 2, 4, 8}
    ensures x % step == (x % 8) % step
  {
    var c := if step == 1 then 8 else if step == 2 then 4 else if step == 4 then 2 else 1;
    assert 8 == c * step;
    var a, b := x / 8, x % 8;
    assert b == (b / step) * step + b % step;
    assert a * 8 == (a * c) * step;
    assert x == (a * c + b / step) * step + b % step;
    DivModUnique(x, step, a * c + b / step, b % step);
  }

  /** Pass k of Adam7 visits a pixel exactly when the pixel has the pass's remainders. */
  lemma CoversByRemainder(w: nat, h: nat, x: nat, y: nat, k: nat)
    requires x < w && y < h && k < 7
    ensures var p := Passes(w, h, true)[k];
            Covers(p, x, y) <==> (x % 8) % p.xStep == p.xOffset && (y % 8) % p.yStep == p.yOffset
  {
    var ps := Passes(w, h, true);
    PassesExact(w, h, true);
    var p := ps[k];
    assert p in ps;
    Adam7Steps(w, h, k);
    CoversInBlock(p, w, h, x, y);
  }

  /** A pass whose steps divide 8 visits a pixel exactly when the pixel's place in its block has the pass's remainders. */
  lemma CoversInBlock(p: Pass, n: nat, m: nat, x: nat, y: nat)
    requires p.xOffset < p.xStep && p.yOffset < p.yStep && p.xStep in {1, 2, 4, 8} && p.yStep in {1, 2, 4, 8}
    requires p.width == Positions(n, p.xOffset, p.xStep) && p.height == Positions(m, p.yOffset, p.yStep)
    requires x < n && y < m
    ensures Covers(p, x, y) <==> (x % 8) % p.xStep == p.xOffset && (y % 8) % p.yStep == p.yOffset
  {
    CoversStep(p, n, m, x, y);
    OnGrid(x, p.xOffset, p.xStep);
    OnGrid(y, p.yOffset, p.yStep);
  }

  /** The Adam7 passes step by 1, 2, 4 or 8 pixels in each direction. */
  lemma Adam7Steps(w: nat, h: nat, k: nat)
    requires k < 7
    ensures Passes(w, h, true)[k].xStep in {1, 2, 4, 8} && Passes(w, h, true)[k].yStep in {1, 2, 4, 8}
  {
  }

  /** Within an 8 by 8 block the seven remainder patterns of Adam7 partition the 64 positions. */
  lemma Adam7Table(a: nat, b: nat, k: nat)
    requires a < 8 && b < 8 && k < 7
    ensures var p := Passes(8, 8, true)[k];
            a % p.xStep == p.xOffset && b % p.yStep == p.yOffset <==> k == Adam7Pass(a, b)
  {
    var p := Passes(8, 8, true)[k];
    Adam7Remainders(a, b);
    if k == 0 {
      assert (p.xOffset, p.yOffset, p.xStep, p.yStep) == (0, 0, 8, 8);
    } else if k == 1 {
      assert (p.xOffset, p.yOffset, p.xStep, p.yStep) == (4, 0, 8, 8);
    } else if k == 2 {
      assert (p.xOffset, p.yOffset, p.xStep, p.yStep) == (0, 4, 4, 8);
    } else if k == 3 {
      assert (p.xOffset, p.yOffset, p.xStep, p.yStep) == (2, 0, 4, 4);
    } else if k == 4 {
      assert (p.xOffset, p.yOffset, p.xStep, p.yStep) == (0, 2, 2, 4);
    } else if k == 5 {
      assert (p.xOffset, p.yOffset, p.xStep, p.yStep) == (1, 0, 2, 2);
    } else {
      assert (p.xOffset, p.yOffset, p.xStep, p.yStep) == (0, 1, 1, 2);
    }
  }

  /** The block positions of each pass, written out with the steps and offsets of `Passes`. */
  lemma Adam7Remainders(a: nat, b: nat)
    requires a < 8 && b < 8
    ensures a % 8 == 0 && b % 8 == 0 <==> Adam7Pass(a, b) == 0
    ensures a % 8 == 4 && b % 8 == 0 <==> Adam7Pass(a, b) == 1
    ensures a % 4 == 0 && b % 8 == 4 <==> Adam7Pass(a, b) == 2
    ensures a % 4 == 2 && b % 4 == 0 <==> Adam7Pass(a, b) == 3
    ensures a % 2 == 0 && b % 4 == 2 <==> Adam7Pass(a, b) == 4
    ensures a % 2 == 1 && b % 2 == 0 <==> Adam7Pass(a, b) == 5
    ensures a % 1 == 0 && b % 2 == 1 <==> Adam7Pass(a, b) == 6
  {
  }

  /** The Adam7 pass of a pixel depends only on its place in its 8 by 8 block. */
  lemma Adam7PassOfBlock(x: nat, y: nat)
    ensures Adam7Pass(x, y) == Adam7Pass(x % 8, y % 8)
  {
  }

  /** The offsets and steps of the Adam7 passes do not depend on the image size. */
  lemma Adam7Grid(w: nat, h: nat, k: nat)
    requires k < 7
    ensures var p, q := Passes(w, h, true)[k], Passes(8, 8, true)[k];
            p.xOffset == q.xOffset && p.yOffset == q.yOffset && p.xStep == q.xStep && p.yStep == q.yStep
  {
  }

  /** With interlacing each pixel of the image is decoded by exactly one pass, the Adam7 pass of its block position. */
  lemma Adam7CoversOnce(w: nat, h: nat, x: nat, y: nat, k: nat)
    requires x < w && y < h && k < 7
    ensures Covers(Passes(w, h, true)[k], x, y) <==> k == Adam7Pass(x, y)
  {
    CoversByRemainder(w, h, x, y, k);
    Adam7Table(x % 8, y % 8, k);
    Adam7Grid(w, h, k);
    Adam7PassOfBlock(x, y);
  }

  /** Without interlacing the single pass decodes every pixel. */
  lemma PlainCoversAll(w: nat, h: nat, x: nat, y: nat)
    requires x < w && y < h
    ensures Covers(Passes(w, h, false)[0], x, y)
  {
  }
}

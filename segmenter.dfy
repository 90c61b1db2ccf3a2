/** The box geometry of `divide_image`: how the image is padded and cut into
    a grid of cells whose shape follows the glyphs. Only the crop boxes are
    modelled; the pixels they copy are not. */
module Segmenter {
  import opened Errors
  import opened PyMath

  /** The numbers `divide_image` derives before it crops: the column count,
      the cell width and height as reals, the row count and the height the
      image is padded to. */
  datatype Layout = Layout(cols: nat, xStep: real, yStep: real, rows: nat, paddedHeight: nat)

  /** A crop box `(left, upper, right, lower)`, in pixels of the padded image. */
  datatype Box = Box(left: int, top: int, right: int, bottom: int)

  /** The `i`-th multiple of `step`, `i * step`, built up by repeated
      addition so that proofs about rounded edges stay linear (PosIsProduct
      shows it is the product). */
  function Pos(i: nat, step: real): real
  {
    if i == 0 then 0.0 else Pos(i - 1, step) + step
  }

  lemma {:induction false} PosIsProduct(i: nat, step: real)
    ensures Pos(i, step) == i as real * step
  {
    if i > 0 {
      PosIsProduct(i - 1, step);
    }
  }

  lemma {:induction false} PosMono(i: nat, j: nat, step: real)
    requires i <= j && step >= 0.0
    ensures 0.0 <= Pos(i, step) <= Pos(j, step)
    decreases j
  {
    if i < j {
      PosMono(i, j - 1, step);
    } else if i > 0 {
      PosMono(i - 1, i - 1, step);
    }
  }

  /** What a layout for a `width` by `height` image guarantees: the columns
      span the width exactly, the rows are the fewest that reach the full
      height, the padded image is at least as tall as the original, and the
      last row's rounded lower edge is the padded bottom. */
  ghost predicate Covers(width: nat, height: nat, L: Layout)
  {
    && L.cols > 0 && L.xStep > 0.0 && L.yStep > 0.0
    && Pos(L.cols, L.xStep) == width as real
    && Pos(L.rows, L.yStep) >= height as real
    && (L.rows == 0 || Pos(L.rows - 1, L.yStep) < height as real)
    && L.paddedHeight >= height
    && (L.rows > 0 ==> RowBottom(L, L.rows - 1) == L.paddedHeight)
  }

  /** Lines 11-13 and 18: the cell width `W / x_segs`, the cell height
      `x_step * glyph_ratio`, the row count `ceil(H / y_step)` and the padded
      height `int(y_step * y_segs)`. Both divisions raise on a zero divisor. */
  function Plan(width: nat, height: nat, xSegs: nat, glyphRatio: real): (r: Result<Layout>)
    requires glyphRatio >= 0.0
    ensures r.Failure? <==> xSegs == 0 || width == 0 || glyphRatio == 0.0
    ensures r.Failure? ==> r.error == ZeroDivisionError
    ensures r.Success? ==> xSegs > 0 && r.value.xStep == width as real / xSegs as real && r.value.yStep == r.value.xStep * glyphRatio
    ensures r.Success? ==> r.value.cols == xSegs && Covers(width, height, r.value)
    ensures r.Success? ==> r.value.paddedHeight as real <= Pos(r.value.rows, r.value.yStep) < r.value.paddedHeight as real + 1.0
  {
    if xSegs == 0 then Failure(ZeroDivisionError)
    else
      var xStep := width as real / xSegs as real;
      var yStep := xStep * glyphRatio;
      if yStep == 0.0 then Failure(ZeroDivisionError)
      else
        var rows := Ceil(height as real / yStep);
        var L := Layout(xSegs, xStep, yStep, rows, Trunc(yStep * rows as real));
        PlanCovers(width, height, L);
        Success(L)
  }

  lemma MulMono(a: real, b: real, c: real)
    requires a <= b && c >= 0.0
    ensures a * c <= b * c
  {
  }

  lemma MulStrict(a: real, b: real, c: real)
    requires a < b && c > 0.0
    ensures a * c < b * c
  {
  }

  /** `ceil(h / y)` steps of `y` reach `h`... */
  lemma CeilReaches(h: real, y: real, n: int)
    requires y > 0.0 && h / y <= n as real
    ensures n as real * y >= h
  {
    var q := h / y;
    assert q * y == h;
    MulMono(q, n as real, y);
  }

  /** ... and one step fewer does not. */
  lemma CeilMinimal(h: real, y: real, n: int)
    requires y > 0.0 && n as real < h / y + 1.0
    ensures (n - 1) as real * y < h
  {
    var q := h / y;
    assert q * y == h;
    MulStrict((n - 1) as real, q, y);
  }

  lemma PlanCovers(width: nat, height: nat, L: Layout)
    requires width > 0 && L.cols > 0 && L.xStep == width as real / L.cols as real && L.yStep > 0.0
    requires L.rows == Ceil(height as real / L.yStep)
    requires L.paddedHeight == Trunc(L.yStep * L.rows as real)
    ensures Covers(width, height, L)
    ensures L.paddedHeight as real <= Pos(L.rows, L.yStep) < L.paddedHeight as real + 1.0
  {
    PosIsProduct(L.cols, L.xStep);
    PosIsProduct(L.rows, L.yStep);
    CeilReaches(height as real, L.yStep, L.rows);
    CeilMinimal(height as real, L.yStep, L.rows);
    if L.rows > 0 {
      PosIsProduct(L.rows - 1, L.yStep);
    }
    assert L.yStep * L.rows as real == L.rows as real * L.yStep;
    LastRowAtBottom(L);
  }

  /** When the padded height does not exceed the rows' total height, the
      last row's lower edge is the padded bottom. */
  lemma LastRowAtBottom(L: Layout)
    requires L.paddedHeight as real <= Pos(L.rows, L.yStep)
    ensures L.rows > 0 ==> RowBottom(L, L.rows - 1) == L.paddedHeight
  {
    if L.rows > 0 {
      assert Min(Pos(L.rows, L.yStep), L.paddedHeight as real) == L.paddedHeight as real;
      RoundInt(L.paddedHeight);
    }
  }

  /** The four edges of the crop box at column `xi`, row `yi` (lines 29-32):
      `xi * x_step` and `yi * y_step`, the far edges first clamped to the
      padded image, all rounded half to even. A near edge is never left of
      or above the image, and a far edge never past its right or bottom. */
  function ColumnLeft(L: Layout, xi: nat): (r: int)
    ensures L.xStep >= 0.0 ==> r >= 0
  {
    EdgeNonNegative(xi, L.xStep);
    Round(Pos(xi, L.xStep))
  }

  function RowTop(L: Layout, yi: nat): (r: int)
    ensures L.yStep >= 0.0 ==> r >= 0
  {
    EdgeNonNegative(yi, L.yStep);
    Round(Pos(yi, L.yStep))
  }

  function ColumnRight(width: nat, L: Layout, xi: nat): (r: int)
    ensures r <= width
  {
    EdgeClamped(Pos(xi + 1, L.xStep), width);
    Round(Min(Pos(xi + 1, L.xStep), width as real))
  }

  function RowBottom(L: Layout, yi: nat): (r: int)
    ensures r <= L.paddedHeight
  {
    EdgeClamped(Pos(yi + 1, L.yStep), L.paddedHeight);
    Round(Min(Pos(yi + 1, L.yStep), L.paddedHeight as real))
  }

  /** A near edge at a non-negative step is never left of or above the image. */
  lemma EdgeNonNegative(i: nat, step: real)
    ensures step >= 0.0 ==> Round(Pos(i, step)) >= 0
  {
    if step >= 0.0 {
      PosMono(0, i, step);
      RoundBetween(0, Pos(i, step), Pos(i, step).Floor + 1);
    }
  }

  /** A far edge clamped to `bound` rounds to at most `bound`. */
  lemma EdgeClamped(x: real, bound: nat)
    ensures Round(Min(x, bound as real)) <= bound
  {
    RoundMonotone(Min(x, bound as real), bound as real);
    RoundInt(bound);
  }

  /** The crop box of lines 28-33: its far edges never pass the padded
      image's right and bottom, and for non-negative steps its near edges
      are never negative (CellInsideImage adds that the edges are ordered). */
  function CellBox(width: nat, L: Layout, xi: nat, yi: nat): (b: Box)
    ensures b.right <= width && b.bottom <= L.paddedHeight
    ensures L.xStep >= 0.0 && L.yStep >= 0.0 ==> 0 <= b.left && 0 <= b.top
  {
    Box(ColumnLeft(L, xi), RowTop(L, yi), ColumnRight(width, L, xi), RowBottom(L, yi))
  }

  /** `segs` is the grid the nested loops build: `rows` rows of `cols`
      boxes, each the box of its own position. */
  ghost predicate IsSegmentation(width: nat, L: Layout, segs: seq<seq<Box>>)
  {
    && |segs| == L.rows
    && (forall yi :: 0 <= yi < |segs| ==> |segs[yi]| == L.cols)
    && (forall yi, xi :: 0 <= yi < |segs| && 0 <= xi < |segs[yi]| ==> segs[yi][xi] == CellBox(width, L, xi, yi))
  }

  /** `divide_image` reduced to its crop boxes, as written: the layout of
      lines 11-18, padding included (`Plan`, whose truncated padding can
      leave the last row empty, see TruncatedPaddingEmptiesLastRow), then
      the nested loops of lines 22-36. */
  method DivideImage(width: nat, height: nat, xSegs: nat, glyphRatio: real) returns (r: Result<seq<seq<Box>>>)
    requires glyphRatio >= 0.0
    ensures Plan(width, height, xSegs, glyphRatio).Failure? ==> r == Failure(ZeroDivisionError)
    ensures Plan(width, height, xSegs, glyphRatio).Success? ==>
      r.Success? && IsSegmentation(width, Plan(width, height, xSegs, glyphRatio).value, r.value)
  {
    var plan := Plan(width, height, xSegs, glyphRatio);
    if plan.Failure? {
      return Failure(plan.error);
    }
    var segments := CutBoxes(width, plan.value);
    return Success(segments);
  }

  /** The same with the corrected, rounded padding of `PlanRounded`, under
      which no cell is empty (RoundedPaddingKeepsCellsNonEmpty). */
  method DivideImageRounded(width: nat, height: nat, xSegs: nat, glyphRatio: real) returns (r: Result<seq<seq<Box>>>)
    requires glyphRatio >= 0.0
    ensures PlanRounded(width, height, xSegs, glyphRatio).Failure? ==> r == Failure(ZeroDivisionError)
    ensures PlanRounded(width, height, xSegs, glyphRatio).Success? ==>
      r.Success? && IsSegmentation(width, PlanRounded(width, height, xSegs, glyphRatio).value, r.value)
  {
    var plan := PlanRounded(width, height, xSegs, glyphRatio);
    if plan.Failure? {
      return Failure(plan.error);
    }
    var segments := CutBoxes(width, plan.value);
    return Success(segments);
  }

  /** The nested loops of lines 22-36: row by row, left to right, the box
      of every position of the layout. */
  method CutBoxes(width: nat, L: Layout) returns (segments: seq<seq<Box>>)
    ensures IsSegmentation(width, L, segments)
  {
    segments := [];
    var yi := 0;
    while yi < L.rows
      invariant 0 <= yi <= L.rows
      invariant |segments| == yi
      invariant forall y :: 0 <= y < yi ==> |segments[y]| == L.cols
      invariant forall y, x :: 0 <= y < yi && 0 <= x < L.cols ==> segments[y][x] == CellBox(width, L, x, y)
    {
      var row: seq<Box> := [];
      var xi := 0;
      while xi < L.cols
        invariant 0 <= xi <= L.cols
        invariant |row| == xi
        invariant forall x :: 0 <= x < xi ==> row[x] == CellBox(width, L, x, yi)
      {
        row := row + [CellBox(width, L, xi, yi)];
        xi := xi + 1;
      }
      segments := segments + [row];
      yi := yi + 1;
    }
  }

  /** Columns tile the width: the first starts at 0, each ends where the
      next starts (the clamp never bites before the last column), and the
      last ends at the image's right edge. */
  lemma ColumnsTile(width: nat, height: nat, L: Layout)
    requires Covers(width, height, L)
    ensures ColumnLeft(L, 0) == 0
    ensures forall xi :: 0 <= xi < L.cols - 1 ==> ColumnRight(width, L, xi) == ColumnLeft(L, xi + 1)
    ensures ColumnRight(width, L, L.cols - 1) == width
  {
    RoundInt(0);
    forall xi | 0 <= xi < L.cols - 1
      ensures ColumnRight(width, L, xi) == ColumnLeft(L, xi + 1)
    {
      PosMono(xi + 1, L.cols, L.xStep);
      assert Min(Pos(xi + 1, L.xStep), width as real) == Pos(xi + 1, L.xStep);
    }
    assert Min(Pos(L.cols, L.xStep), width as real) == width as real;
    RoundInt(width);
  }

  /** Rows tile the padded height: the first starts at 0, each ends where
      the next starts (every row but the last lies above the original
      bottom), and the last ends at the padded bottom. */
  lemma RowsTile(width: nat, height: nat, L: Layout)
    requires Covers(width, height, L) && L.rows > 0
    ensures RowTop(L, 0) == 0
    ensures forall yi :: 0 <= yi < L.rows - 1 ==> RowBottom(L, yi) == RowTop(L, yi + 1)
    ensures RowBottom(L, L.rows - 1) == L.paddedHeight
  {
    RoundInt(0);
    forall yi | 0 <= yi < L.rows - 1
      ensures RowBottom(L, yi) == RowTop(L, yi + 1)
    {
      PosMono(yi + 1, L.rows - 1, L.yStep);
      assert Min(Pos(yi + 1, L.yStep), L.paddedHeight as real) == Pos(yi + 1, L.yStep);
    }
  }

  /** Every box lies inside the padded image, with its left edge not past
      its right and its top not below its bottom. */
  lemma CellInsideImage(width: nat, height: nat, L: Layout, xi: nat, yi: nat)
    requires Covers(width, height, L) && xi < L.cols && yi < L.rows
    ensures var b := CellBox(width, L, xi, yi);
      0 <= b.left <= b.right <= width && 0 <= b.top <= b.bottom <= L.paddedHeight
  {
    PosMono(xi, xi + 1, L.xStep);
    PosMono(xi + 1, L.cols, L.xStep);
    var a := Pos(xi, L.xStep);
    var b := Min(Pos(xi + 1, L.xStep), width as real);
    RoundBetween(0, a, width);
    RoundBetween(0, b, width);
    RoundMonotone(a, b);
    PosMono(yi, yi + 1, L.yStep);
    PosMono(yi, L.rows - 1, L.yStep);
    var c := Pos(yi, L.yStep);
    var d := Min(Pos(yi + 1, L.yStep), L.paddedHeight as real);
    RoundBetween(0, c, L.paddedHeight);
    RoundBetween(0, d, L.paddedHeight);
    RoundMonotone(c, d);
  }

  /** With `x_segs` no larger than the width and glyphs at least one pixel
      tall per column, the cells are at least a pixel in each direction, yet
      `int(y_step * y_segs)` can cut the padded image so short that the last
      row is empty: a 10 by 3 image in 10 columns of glyphs 1.3 times taller
      than wide has 3 rows, but is padded to 3 pixels, not 3.9, so its last
      row spans [round(2.6), round(min(3.9, 3))) = [3, 3). */
  lemma TruncatedPaddingEmptiesLastRow()
    ensures Plan(10, 3, 10, 1.3).Success?
    ensures var L := Plan(10, 3, 10, 1.3).value;
      && L.xStep == 1.0 && L.yStep == 1.3 && L.rows == 3 && L.paddedHeight == 3
      && RowTop(L, 2) == 3 && RowBottom(L, 2) == 3
  {
    var L := Plan(10, 3, 10, 1.3).value;
    assert L.xStep == 1.0 && L.yStep == 1.3;
    assert Ceil(3.0 / 1.3) == 3;
    assert L.paddedHeight == Trunc(3.9) == 3;
    assert Pos(2, 1.3) == 2.6;
    assert Pos(3, 1.3) == 3.9;
    RoundInt(3);
  }

  /** The intended layout: the image is padded to the rounded height of its
      rows, `round(y_step * y_segs)`, consistently with how the crop edges are
      rounded. */
  function PlanRounded(width: nat, height: nat, xSegs: nat, glyphRatio: real): (r: Result<Layout>)
    requires glyphRatio >= 0.0
    ensures r.Failure? <==> xSegs == 0 || width == 0 || glyphRatio == 0.0
    ensures r.Failure? ==> r.error == ZeroDivisionError
    ensures r.Success? ==> xSegs > 0 && r.value.xStep == width as real / xSegs as real && r.value.yStep == r.value.xStep * glyphRatio
    ensures r.Success? ==> r.value.cols == xSegs && Covers(width, height, r.value)
    ensures r.Success? ==> r.value.paddedHeight == Round(Pos(r.value.rows, r.value.yStep))
  {
    match Plan(width, height, xSegs, glyphRatio)
    case Failure(e) => Failure(e)
    case Success(L) =>
      RoundedCovers(width, height, L);
      Success(L.(paddedHeight := Round(Pos(L.rows, L.yStep))))
  }

  lemma RoundedCovers(width: nat, height: nat, L: Layout)
    requires Covers(width, height, L)
    ensures Round(Pos(L.rows, L.yStep)) >= height
    ensures Covers(width, height, L.(paddedHeight := Round(Pos(L.rows, L.yStep))))
  {
    RoundInt(height);
    RoundMonotone(height as real, Pos(L.rows, L.yStep));
    RoundedBottom(L.(paddedHeight := Round(Pos(L.rows, L.yStep))));
  }

  /** Padding to the rounded total height also ends the last row at the
      padded bottom. */
  lemma RoundedBottom(L: Layout)
    requires L.paddedHeight == Round(Pos(L.rows, L.yStep))
    ensures L.rows > 0 ==> RowBottom(L, L.rows - 1) == L.paddedHeight
  {
    if L.rows > 0 {
      var p := Pos(L.rows, L.yStep);
      RoundInt(L.paddedHeight);
      assert Min(p, L.paddedHeight as real) == p || Min(p, L.paddedHeight as real) == L.paddedHeight as real;
    }
  }

  lemma StepsAtLeastOne(width: nat, xSegs: nat, glyphRatio: real)
    requires 1 <= xSegs <= width && width as real * glyphRatio >= xSegs as real
    ensures width as real / xSegs as real >= 1.0
    ensures (width as real / xSegs as real) * glyphRatio >= 1.0
  {
    var x := width as real / xSegs as real;
    assert x * xSegs as real == width as real;
    assert x * glyphRatio * xSegs as real == width as real * glyphRatio;
    MulMono(1.0, x * glyphRatio, xSegs as real);
  }

  /** Multiples of 1 are whole numbers. */
  lemma {:induction false} PosOfOne(i: nat)
    ensures Pos(i, 1.0) == i as real
  {
    if i > 0 {
      PosOfOne(i - 1);
    }
  }

  /** Consecutive multiples of a step of at least one round apart. */
  lemma StepRoundsApart(i: nat, step: real)
    requires step >= 1.0
    ensures Round(Pos(i, step)) < Round(Pos(i + 1, step))
  {
    if step == 1.0 {
      PosOfOne(i);
    }
    RoundSeparates(Pos(i, step), step);
  }

  /** With the rounded padding, when there are no more columns than pixels
      across and a cell is at least a pixel tall, every cell, the last row's
      included, is at least one pixel wide and one pixel tall. */
  lemma RoundedPaddingKeepsCellsNonEmpty(width: nat, height: nat, xSegs: nat, glyphRatio: real)
    requires glyphRatio >= 0.0 && 1 <= xSegs <= width && width as real * glyphRatio >= xSegs as real
    ensures PlanRounded(width, height, xSegs, glyphRatio).Success?
    ensures var L := PlanRounded(width, height, xSegs, glyphRatio).value;
      forall xi, yi :: 0 <= xi < L.cols && 0 <= yi < L.rows ==>
        ColumnLeft(L, xi) < ColumnRight(width, L, xi) && RowTop(L, yi) < RowBottom(L, yi)
  {
    StepsAtLeastOne(width, xSegs, glyphRatio);
    var L := PlanRounded(width, height, xSegs, glyphRatio).value;
    assert L.xStep >= 1.0 && L.yStep >= 1.0;
    ColumnsTile(width, height, L);
    forall xi | 0 <= xi < L.cols
      ensures ColumnLeft(L, xi) < ColumnRight(width, L, xi)
    {
      PosMono(xi + 1, L.cols, L.xStep);
      assert Min(Pos(xi + 1, L.xStep), width as real) == Pos(xi + 1, L.xStep);
      StepRoundsApart(xi, L.xStep);
    }
    if L.rows > 0 {
      RowsTile(width, height, L);
      forall yi | 0 <= yi < L.rows
        ensures RowTop(L, yi) < RowBottom(L, yi)
      {
        StepRoundsApart(yi, L.yStep);
        if yi + 1 < L.rows {
          assert RowBottom(L, yi) == RowTop(L, yi + 1);
        }
      }
    }
  }
}

/** The pixel-difference matcher: each segment becomes the glyph whose bitmap
    differs least from it, pixel by pixel. */
module PixelDiff {
  import opened Errors
  import opened Bitmaps
  import opened ArgMin

  function AbsDiff(x: int, y: int): nat
  {
    if x < y then y - x else x - y
  }

  /** The smaller of two image sizes, the extent of the overlap
      `ImageChops.difference` covers. It is kept apart from `PyMath.Min`,
      the `min` on reals of the crop edges, because sizes are lengths of
      sequences and must stay `nat` to index them. */
  function MinNat(x: nat, y: nat): nat
  {
    if x < y then x else y
  }

  /** `ImageChops.difference`: the absolute difference of two images over
      their common top-left region, as tall and as wide as the smaller of
      each. */
  function Difference(a: Bitmap, b: Bitmap): (d: Bitmap)
    requires Rectangular(a) && Rectangular(b)
    ensures Rectangular(d)
    ensures |d| == MinNat(|a|, |b|)
    ensures |d| > 0 ==> Width(d) == MinNat(Width(a), Width(b))
    ensures forall i, j :: 0 <= i < |d| && 0 <= j < |d[i]| ==>
      j < Width(a) && j < Width(b) && d[i][j] == AbsDiff(a[i][j], b[i][j])
  {
    var w := MinNat(Width(a), Width(b));
    seq(MinNat(|a|, |b|), i requires 0 <= i < MinNat(|a|, |b|) =>
      seq(w, j requires 0 <= j < w => AbsDiff(a[i][j], b[i][j])))
  }

  /** The two images share at least one pixel position. */
  predicate Overlaps(a: Bitmap, b: Bitmap)
  {
    |a| > 0 && |b| > 0 && Width(a) > 0 && Width(b) > 0
  }

  /** The two images agree wherever both have a pixel. */
  ghost predicate AgreeOnOverlap(a: Bitmap, b: Bitmap)
  {
    forall i, j :: 0 <= i < |a| && i < |b| && 0 <= j < |a[i]| && j < |b[i]| ==>
      a[i][j] == b[i][j]
  }

  /** The mean of the difference image. Pillow divides by the pixel count of
      that image, so images that share no pixel raise. */
  function MeanDiff(a: Bitmap, b: Bitmap): (r: Result<real>)
    requires Rectangular(a) && Rectangular(b)
    ensures r.Failure? <==> !Overlaps(a, b)
    ensures r.Failure? ==> r.error == ZeroDivisionError
    ensures r.Success? ==> r.value >= 0.0
    ensures r.Success? ==> (r.value == 0.0 <==> AgreeOnOverlap(a, b))
  {
    var px := Pixels(Difference(a, b));
    NoPixels(Difference(a, b));
    if |px| == 0 then Failure(ZeroDivisionError)
    else
      DifferenceZero(a, b);
      Success(Sum(px) as real / |px| as real)
  }

  /** The difference image sums to zero exactly where the images agree. */
  lemma DifferenceZero(a: Bitmap, b: Bitmap)
    requires Rectangular(a) && Rectangular(b)
    ensures 0 <= Sum(Pixels(Difference(a, b)))
    ensures Sum(Pixels(Difference(a, b))) == 0 <==> AgreeOnOverlap(a, b)
  {
    var d := Difference(a, b);
    PixelsMembers(d);
    SumZero(Pixels(d));
    PixelsAll(d, 0);
    if AllPixels(d, 0) {
      forall i, j | 0 <= i < |a| && i < |b| && 0 <= j < |a[i]| && j < |b[i]|
        ensures a[i][j] == b[i][j]
      {
        assert d[i][j] == 0;
      }
    }
  }

  /** Images of one size agree on their overlap exactly when they are equal. */
  lemma AgreeSameSize(a: Bitmap, b: Bitmap)
    requires Rectangular(a) && Rectangular(b)
    requires |a| == |b| && Width(a) == Width(b)
    ensures AgreeOnOverlap(a, b) <==> a == b
  {
    if AgreeOnOverlap(a, b) {
      forall i | 0 <= i < |a| ensures a[i] == b[i] {
        assert forall j :: 0 <= j < |a[i]| ==> a[i][j] == b[i][j];
      }
    }
  }

  /** Every image involved is rectangular, as Pillow images are. */
  ghost predicate WellFormed(glyphs: seq<Glyph>, cell: Bitmap)
  {
    Rectangular(cell) && forall i :: 0 <= i < |glyphs| ==> Rectangular(glyphs[i].bitmap)
  }

  /** The difference of the segment from each glyph, in palette order. */
  function Diffs(glyphs: seq<Glyph>, cell: Bitmap): (d: seq<real>)
    requires WellFormed(glyphs, cell)
    requires forall i :: 0 <= i < |glyphs| ==> Overlaps(cell, glyphs[i].bitmap)
    ensures |d| == |glyphs|
    ensures forall i :: 0 <= i < |glyphs| ==> MeanDiff(cell, glyphs[i].bitmap) == Success(d[i])
  {
    seq(|glyphs|, i requires 0 <= i < |glyphs| => MeanDiff(cell, glyphs[i].bitmap).value)
  }

  /** `compare_to_char` as a value: no glyphs leave the empty string; a glyph
      sharing no pixel with the segment raises; otherwise the character of
      the first glyph with the least difference. */
  function BestGlyph(glyphs: seq<Glyph>, cell: Bitmap): (r: Result<string>)
    requires WellFormed(glyphs, cell)
    ensures |glyphs| == 0 ==> r == Success("")
    ensures r.Failure? <==> exists i :: 0 <= i < |glyphs| && !Overlaps(cell, glyphs[i].bitmap)
    ensures r.Failure? ==> r.error == ZeroDivisionError
    ensures r.Success? && |glyphs| > 0 ==> exists k ::
      IsFirstArgMin(Diffs(glyphs, cell), k) && r.value == [glyphs[k].ch]
  {
    if |glyphs| == 0 then Success("")
    else if exists i :: 0 <= i < |glyphs| && !Overlaps(cell, glyphs[i].bitmap) then
      Failure(ZeroDivisionError)
    else
      var k := FirstArgMin(Diffs(glyphs, cell));
      Success([glyphs[k].ch])
  }

  /** `compare_to_char`: a running minimum over the palette, replaced only on
      a strictly smaller difference, starting from the sentinel -1. */
  method CompareToChar(glyphs: seq<Glyph>, cell: Bitmap) returns (r: Result<string>)
    requires WellFormed(glyphs, cell)
    ensures r == BestGlyph(glyphs, cell)
  {
    var bestChar := "";
    var bestDiff := -1.0;
    ghost var ds: seq<real> := [];
    var n := 0;
    while n < |glyphs|
      invariant 0 <= n <= |glyphs| && |ds| == n
      invariant forall i :: 0 <= i < n ==> MeanDiff(cell, glyphs[i].bitmap) == Success(ds[i])
      invariant n == 0 ==> bestChar == "" && bestDiff == -1.0
      invariant n > 0 ==> bestDiff >= 0.0
      invariant n > 0 ==> bestDiff == ds[FirstArgMin(ds)] && bestChar == [glyphs[FirstArgMin(ds)].ch]
    {
      var diff := MeanDiff(cell, glyphs[n].bitmap);
      if diff.Failure? {
        return Failure(diff.error);
      }
      assert (ds + [diff.value])[..n] == ds;
      if bestDiff == -1.0 || diff.value < bestDiff {
        bestDiff := diff.value;
        bestChar := [glyphs[n].ch];
      }
      forall i | 0 <= i < n + 1
        ensures MeanDiff(cell, glyphs[i].bitmap) == Success((ds + [diff.value])[i])
      {
        if i < n {
          assert (ds + [diff.value])[i] == ds[i];
        }
      }
      ds := ds + [diff.value];
      n := n + 1;
    }
    if n > 0 {
      assert ds == Diffs(glyphs, cell);
    }
    return Success(bestChar);
  }

  /** A segment identical to a glyph's bitmap is drawn with the first such
      glyph when every glyph has the segment's size. */
  lemma ExactMatchWins(glyphs: seq<Glyph>, cell: Bitmap, j: int)
    requires WellFormed(glyphs, cell) && |cell| > 0 && Width(cell) > 0
    requires forall i :: 0 <= i < |glyphs| ==>
      |glyphs[i].bitmap| == |cell| && Width(glyphs[i].bitmap) == Width(cell)
    requires 0 <= j < |glyphs| && glyphs[j].bitmap == cell
    requires forall i :: 0 <= i < j ==> glyphs[i].bitmap != cell
    ensures BestGlyph(glyphs, cell) == Success([glyphs[j].ch])
  {
    var d := Diffs(glyphs, cell);
    forall i | 0 <= i < |glyphs| ensures (d[i] == 0.0 <==> glyphs[i].bitmap == cell) {
      AgreeSameSize(cell, glyphs[i].bitmap);
    }
    assert IsFirstArgMin(d, j);
    FirstArgMinUnique(d, j, FirstArgMin(d));
  }
}

/** Greyscale bitmaps and the glyphs rendered into them. */
module Bitmaps {

  /** A greyscale (mode "L") image as its rows of grey values. */
  type Bitmap = seq<seq<int>>

  /** The width of the first row; every row has it in a rectangular image. */
  function Width(img: Bitmap): nat
  {
    if |img| == 0 then 0 else |img[0]|
  }

  ghost predicate Rectangular(img: Bitmap)
  {
    forall i :: 0 <= i < |img| ==> |img[i]| == Width(img)
  }

  /** Every pixel is an 8-bit grey value. */
  ghost predicate IsGrey(img: Bitmap)
  {
    forall i, j :: 0 <= i < |img| && 0 <= j < |img[i]| ==> 0 <= img[i][j] <= 255
  }

  /** Every pixel of the image has grey value `v`. */
  ghost predicate AllPixels(img: Bitmap, v: int)
  {
    forall i, j :: 0 <= i < |img| && 0 <= j < |img[i]| ==> img[i][j] == v
  }

  /** The pixels of an image, row after row, the first row's pixels first. */
  function Pixels(img: Bitmap): (px: seq<int>)
    ensures |img| > 0 ==> img[0] <= px
  {
    if |img| == 0 then [] else img[0] + Pixels(img[1..])
  }

  /** A value is a pixel of the flattened image exactly when it sits at some
      row and column of the image. */
  lemma {:induction false} PixelsMembers(img: Bitmap)
    ensures forall x :: x in Pixels(img) <==>
      exists i, j :: 0 <= i < |img| && 0 <= j < |img[i]| && img[i][j] == x
  {
    if |img| > 0 {
      PixelsMembers(img[1..]);
      forall x | x in Pixels(img)
        ensures exists i, j :: 0 <= i < |img| && 0 <= j < |img[i]| && img[i][j] == x
      {
        if x in img[0] {
          var j :| 0 <= j < |img[0]| && img[0][j] == x;
          assert img[0][j] == x;
        } else {
          assert x in Pixels(img[1..]);
          var i, j :| 0 <= i < |img[1..]| && 0 <= j < |img[1..][i]| && img[1..][i][j] == x;
          assert img[i + 1][j] == x;
        }
      }
      forall x | exists i, j :: 0 <= i < |img| && 0 <= j < |img[i]| && img[i][j] == x
        ensures x in Pixels(img)
      {
        var i, j :| 0 <= i < |img| && 0 <= j < |img[i]| && img[i][j] == x;
        if i == 0 {
          assert img[0][j] in img[0];
        } else {
          assert img[1..][i - 1][j] == x;
        }
      }
    }
  }

  /** The flattened pixels are all grey when the image is. */
  lemma GreyPixels(img: Bitmap)
    requires IsGrey(img)
    ensures forall x :: x in Pixels(img) ==> 0 <= x <= 255
  {
    PixelsMembers(img);
  }

  /** The flattened pixels are all `v` exactly when the image's are. */
  lemma PixelsAll(img: Bitmap, v: int)
    ensures AllPixels(img, v) ==> forall x :: x in Pixels(img) ==> x == v
    ensures (forall x :: x in Pixels(img) ==> x == v) ==> AllPixels(img, v)
  {
    PixelsMembers(img);
    if AllPixels(img, v) {
      forall x | x in Pixels(img) ensures x == v {
        var i, j :| 0 <= i < |img| && 0 <= j < |img[i]| && img[i][j] == x;
      }
    }
    if forall x :: x in Pixels(img) ==> x == v {
      forall i, j | 0 <= i < |img| && 0 <= j < |img[i]| ensures img[i][j] == v {
        assert exists i', j' :: 0 <= i' < |img| && 0 <= j' < |img[i']| && img[i'][j'] == img[i][j];
        assert img[i][j] in Pixels(img);
      }
    }
  }

  /** A rectangular image has height times width pixels. */
  lemma {:induction false} PixelCount(img: Bitmap)
    requires Rectangular(img)
    ensures |Pixels(img)| == |img| * Width(img)
  {
    if |img| > 0 {
      assert Rectangular(img[1..]) by {
        assert |img| == 1 || Width(img[1..]) == Width(img);
      }
      if |img| == 1 {
        assert Pixels(img[1..]) == [];
      } else {
        PixelCount(img[1..]);
        assert Width(img[1..]) == Width(img);
      }
    }
  }

  /** A rectangular image has no pixels exactly when it has no rows or no
      columns. */
  lemma NoPixels(img: Bitmap)
    ensures Rectangular(img) ==> (|Pixels(img)| == 0 <==> |img| == 0 || Width(img) == 0)
  {
    if Rectangular(img) {
      PixelCount(img);
    }
  }

  /** A palette character with its rendered bitmap, one entry of
      `char_image_dict`. */
  datatype Glyph = Glyph(ch: char, bitmap: Bitmap)

  /** The pixel sum `ImageStat` takes (SumZero and SumWhite bound it). */
  function Sum(px: seq<int>): int
  {
    if |px| == 0 then 0 else px[0] + Sum(px[1..])
  }

  /** A sum of non-negative values is non-negative, and zero only when every
      value is. */
  lemma {:induction false} SumZero(px: seq<int>)
    requires forall x :: x in px ==> 0 <= x
    ensures 0 <= Sum(px)
    ensures Sum(px) == 0 <==> forall x :: x in px ==> x == 0
  {
    if |px| > 0 {
      assert px[0] in px && forall x :: x in px[1..] ==> x in px;
      SumZero(px[1..]);
      assert px == [px[0]] + px[1..];
    }
  }

  /** A sum of grey values is at most 255 per value, and reaches that only
      when every value is white. */
  lemma {:induction false} SumWhite(px: seq<int>)
    requires forall x :: x in px ==> x <= 255
    ensures Sum(px) <= 255 * |px|
    ensures Sum(px) == 255 * |px| <==> forall x :: x in px ==> x == 255
  {
    if |px| > 0 {
      assert px[0] in px && forall x :: x in px[1..] ==> x in px;
      SumWhite(px[1..]);
      assert px == [px[0]] + px[1..];
    }
  }
}

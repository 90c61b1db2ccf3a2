/** The two converters: a grid of segments in, one line of characters per
    row of segments out. */
module Converters {
  import opened Errors
  import opened Bitmaps
  import opened Grid
  import opened Brightness
  import opened PixelDiff
  import opened ArgMin

  /** Segments, as `divide_image` lays them out: rows of cells. */
  type Segments = seq<seq<Bitmap>>

  /** Some segment of the grid has no pixels. */
  ghost predicate HasEmptySegment(segs: Segments)
  {
    exists i, j :: 0 <= i < |segs| && 0 <= j < |segs[i]| && |Pixels(segs[i][j])| == 0
  }

  /** The grid holds at least one segment. */
  ghost predicate HasSegment(segs: Segments)
  {
    exists i :: 0 <= i < |segs| && |segs[i]| > 0
  }

  /** What the brightness converter draws: for every segment, the first
      table character whose level is nearest to the segment's brightness. */
  ghost function BrightnessArt(segs: Segments, table: seq<Entry>): (rows: seq<string>)
    requires !HasEmptySegment(segs) && (|table| > 0 || !HasSegment(segs))
    ensures SameShape(rows, segs)
  {
    seq(|segs|, i requires 0 <= i < |segs| =>
      seq(|segs[i]|, j requires 0 <= j < |segs[i]| =>
        table[Nearest(table, Level(segs[i][j]).value)].ch))
  }

  /** `round_to_char` on every brightness of the grid. */
  function CharGrid(table: seq<Entry>, levels: seq<seq<real>>): (g: seq<seq<Result<char>>>)
    ensures SameShape(g, levels)
    ensures forall i, j :: 0 <= i < |levels| && 0 <= j < |levels[i]| ==>
      g[i][j] == RoundToChar(table, levels[i][j])
  {
    Map2D((x: real) => RoundToChar(table, x), levels)
  }

  /** `brightness_converter`: the brightness of every segment, then the
      nearest table character for each, rows joined with newlines. Every
      brightness is taken before any character is looked up, so an empty
      segment raises before an empty table does. */
  function BrightnessConverter(segs: Segments, table: seq<Entry>): (r: Result<string>)
    ensures r.Failure? <==> HasEmptySegment(segs) || (|table| == 0 && HasSegment(segs))
    ensures HasEmptySegment(segs) ==> r == Failure(ZeroDivisionError)
    ensures !HasEmptySegment(segs) && r.Failure? ==> r.error == ValueError
    ensures r.Success? ==> r.value == JoinLines(BrightnessArt(segs, table))
  {
    match Collect2D(Map2D(Level, segs))
    case Failure(e) =>
      LevelsFail(segs, e);
      Failure(e)
    case Success(levels) =>
      LevelsOk(segs, levels);
      match Collect2D(CharGrid(table, levels))
      case Failure(e) =>
        CharsFail(table, levels, e);
        Failure(e)
      case Success(rows) =>
        CharsOk(segs, table, levels, rows);
        Success(JoinLines(rows))
  }

  lemma LevelsFail(segs: Segments, e: Error)
    requires Collect2D(Map2D(Level, segs)) == Failure(e)
    ensures HasEmptySegment(segs) && e == ZeroDivisionError
  {
    var i, j :| 0 <= i < |segs| && 0 <= j < |segs[i]| && Map2D(Level, segs)[i][j] == Failure(e);
    assert Level(segs[i][j]) == Failure(e);
  }

  lemma LevelsOk(segs: Segments, levels: seq<seq<real>>)
    requires Collect2D(Map2D(Level, segs)) == Success(levels)
    ensures !HasEmptySegment(segs)
    ensures SameShape(levels, segs)
    ensures forall i, j :: 0 <= i < |segs| && 0 <= j < |segs[i]| ==>
      Level(segs[i][j]) == Success(levels[i][j])
  {
    forall i, j | 0 <= i < |segs| && 0 <= j < |segs[i]|
      ensures Level(segs[i][j]) == Success(levels[i][j])
    {
      assert Map2D(Level, segs)[i][j] == Level(segs[i][j]);
    }
  }

  lemma CharsFail(table: seq<Entry>, levels: seq<seq<real>>, e: Error)
    requires Collect2D(CharGrid(table, levels)) == Failure(e)
    ensures |table| == 0 && e == ValueError
    ensures exists i :: 0 <= i < |levels| && |levels[i]| > 0
  {
    var i, j :| 0 <= i < |levels| && 0 <= j < |levels[i]| && CharGrid(table, levels)[i][j] == Failure(e);
  }

  lemma CharsOk(segs: Segments, table: seq<Entry>, levels: seq<seq<real>>, rows: seq<seq<char>>)
    requires Collect2D(Map2D(Level, segs)) == Success(levels)
    requires Collect2D(CharGrid(table, levels)) == Success(rows)
    ensures |table| > 0 || !HasSegment(segs)
    ensures !HasEmptySegment(segs)
    ensures rows == BrightnessArt(segs, table)
  {
    LevelsOk(segs, levels);
    if HasSegment(segs) {
      var i :| 0 <= i < |segs| && |segs[i]| > 0;
      assert CharGrid(table, levels)[i][0] == RoundToChar(table, levels[i][0]);
    }
    CharsArt(segs, table, levels, rows);
  }

  lemma CharsArt(segs: Segments, table: seq<Entry>, levels: seq<seq<real>>, rows: seq<seq<char>>)
    requires !HasEmptySegment(segs) && (|table| > 0 || !HasSegment(segs))
    requires SameShape(levels, segs)
    requires forall i, j :: 0 <= i < |segs| && 0 <= j < |segs[i]| ==> Level(segs[i][j]) == Success(levels[i][j])
    requires Collect2D(CharGrid(table, levels)) == Success(rows)
    ensures rows == BrightnessArt(segs, table)
  {
    var art := BrightnessArt(segs, table);
    forall i | 0 <= i < |rows| ensures rows[i] == art[i] {
      forall j | 0 <= j < |rows[i]| ensures rows[i][j] == art[i][j] {
        assert CharGrid(table, levels)[i][j] == RoundToChar(table, levels[i][j]);
        CellOk(table, segs[i][j], levels[i][j], rows[i][j]);
      }
    }
  }

  lemma CellOk(table: seq<Entry>, seg: Bitmap, level: real, c: char)
    requires Level(seg) == Success(level) && RoundToChar(table, level) == Success(c)
    ensures |table| > 0 && c == table[Nearest(table, Level(seg).value)].ch
  {
  }

  /** `"".join(row)` for a row of strings: joining one-character strings
      gives the string of those characters. */
  function Concat(row: seq<string>): (r: string)
    ensures (forall k :: 0 <= k < |row| ==> |row[k]| == 1) ==>
      |r| == |row| && forall k :: 0 <= k < |row| ==> r[k] == row[k][0]
  {
    if |row| == 0 then ""
    else
      assert forall k :: 1 <= k < |row| ==> row[1..][k - 1] == row[k];
      row[0] + Concat(row[1..])
  }

  /** Every segment and glyph is a rectangular image. */
  ghost predicate AllWellFormed(segs: Segments, glyphs: seq<Glyph>)
  {
    forall i, j :: 0 <= i < |segs| && 0 <= j < |segs[i]| ==> WellFormed(glyphs, segs[i][j])
  }

  /** Some segment shares no pixel with some glyph. */
  ghost predicate HasMismatch(segs: Segments, glyphs: seq<Glyph>)
  {
    exists i, j, k :: 0 <= i < |segs| && 0 <= j < |segs[i]| && 0 <= k < |glyphs| &&
      !Overlaps(segs[i][j], glyphs[k].bitmap)
  }

  /** The character of the first glyph that differs least from `cell`. */
  ghost function BestChar(glyphs: seq<Glyph>, cell: Bitmap): (c: char)
    requires |glyphs| > 0 && WellFormed(glyphs, cell)
    requires forall k :: 0 <= k < |glyphs| ==> Overlaps(cell, glyphs[k].bitmap)
    ensures c in GlyphChars(glyphs)
  {
    var g := glyphs[FirstArgMin(Diffs(glyphs, cell))];
    assert g in glyphs;
    g.ch
  }

  /** One line of the pixel-difference drawing: a character per segment, or
      nothing when there are no glyphs. */
  ghost function RowArt(glyphs: seq<Glyph>, row: seq<Bitmap>): (line: string)
    requires forall j :: 0 <= j < |row| ==> WellFormed(glyphs, row[j])
    requires forall j, k :: 0 <= j < |row| && 0 <= k < |glyphs| ==> Overlaps(row[j], glyphs[k].bitmap)
    ensures |glyphs| > 0 ==> |line| == |row|
    ensures |glyphs| == 0 ==> line == ""
  {
    if |glyphs| == 0 || |row| == 0 then ""
    else [BestChar(glyphs, row[0])] + RowArt(glyphs, row[1..])
  }

  /** What the pixel-difference converter draws, line by line. */
  ghost function PxDiffArt(segs: Segments, glyphs: seq<Glyph>): (rows: seq<string>)
    requires AllWellFormed(segs, glyphs) && !HasMismatch(segs, glyphs)
    ensures |rows| == |segs|
    ensures forall i :: 0 <= i < |segs| ==> rows[i] == RowArt(glyphs, segs[i])
  {
    seq(|segs|, i requires 0 <= i < |segs| => RowArt(glyphs, segs[i]))
  }

  /** `compare_to_char` on every segment of the grid. */
  function GlyphGrid(glyphs: seq<Glyph>, segs: Segments): (g: seq<seq<Result<string>>>)
    requires AllWellFormed(segs, glyphs)
    ensures SameShape(g, segs)
    ensures forall i, j :: 0 <= i < |segs| && 0 <= j < |segs[i]| ==>
      g[i][j] == BestGlyph(glyphs, segs[i][j])
  {
    Map2D((seg: Bitmap) requires WellFormed(glyphs, seg) => BestGlyph(glyphs, seg), segs)
  }

  /** `px_diff_converter`: `compare_to_char` on every segment, each row's
      strings concatenated, rows joined with newlines. */
  function PxDiffConverter(segs: Segments, glyphs: seq<Glyph>): (r: Result<string>)
    requires AllWellFormed(segs, glyphs)
    ensures r.Failure? <==> HasMismatch(segs, glyphs)
    ensures r.Failure? ==> r.error == ZeroDivisionError
    ensures r.Success? ==> r.value == JoinLines(PxDiffArt(segs, glyphs))
  {
    match Collect2D(GlyphGrid(glyphs, segs))
    case Failure(e) =>
      GlyphsFail(segs, glyphs, e);
      Failure(e)
    case Success(strs) =>
      GlyphsOk(segs, glyphs, strs);
      Success(JoinLines(MapRow(Concat, strs)))
  }

  lemma GlyphsFail(segs: Segments, glyphs: seq<Glyph>, e: Error)
    requires AllWellFormed(segs, glyphs)
    requires Collect2D(GlyphGrid(glyphs, segs)) == Failure(e)
    ensures HasMismatch(segs, glyphs) && e == ZeroDivisionError
  {
    var i, j :| 0 <= i < |segs| && 0 <= j < |segs[i]| && GlyphGrid(glyphs, segs)[i][j] == Failure(e);
    assert BestGlyph(glyphs, segs[i][j]).Failure?;
  }

  lemma GlyphsOk(segs: Segments, glyphs: seq<Glyph>, strs: seq<seq<string>>)
    requires AllWellFormed(segs, glyphs)
    requires Collect2D(GlyphGrid(glyphs, segs)) == Success(strs)
    ensures !HasMismatch(segs, glyphs)
    ensures MapRow(Concat, strs) == PxDiffArt(segs, glyphs)
  {
    var g: seq<seq<Result<string>>> := GlyphGrid(glyphs, segs);
    forall i, j, k | 0 <= i < |segs| && 0 <= j < |segs[i]| && 0 <= k < |glyphs|
      ensures Overlaps(segs[i][j], glyphs[k].bitmap)
    {
      assert g[i][j].Success?;
    }
    var art := PxDiffArt(segs, glyphs);
    forall i | 0 <= i < |segs| ensures Concat(strs[i]) == art[i] {
      forall j | 0 <= j < |segs[i]|
        ensures |glyphs| == 0 ==> strs[i][j] == ""
        ensures |glyphs| > 0 ==> strs[i][j] == [BestChar(glyphs, segs[i][j])]
      {
        assert g[i][j] == BestGlyph(glyphs, segs[i][j]);
        if |glyphs| > 0 {
          var d := Diffs(glyphs, segs[i][j]);
          var k :| IsFirstArgMin(d, k) && strs[i][j] == [glyphs[k].ch];
          FirstArgMinUnique(d, k, FirstArgMin(d));
        }
      }
      RowOfBest(glyphs, segs[i], strs[i]);
    }
  }

  /** Concatenating the per-segment strings of a row gives its line. */
  lemma {:induction false} RowOfBest(glyphs: seq<Glyph>, row: seq<Bitmap>, strs: seq<string>)
    requires forall j :: 0 <= j < |row| ==> WellFormed(glyphs, row[j])
    requires forall j, k :: 0 <= j < |row| && 0 <= k < |glyphs| ==> Overlaps(row[j], glyphs[k].bitmap)
    requires |strs| == |row|
    requires |glyphs| == 0 ==> forall j :: 0 <= j < |row| ==> strs[j] == ""
    requires |glyphs| > 0 ==> forall j :: 0 <= j < |row| ==> strs[j] == [BestChar(glyphs, row[j])]
    ensures Concat(strs) == RowArt(glyphs, row)
  {
    if |row| > 0 {
      RowOfBest(glyphs, row[1..], strs[1..]);
    }
  }

  /** Every character of a pixel-difference line is a palette character. */
  lemma {:induction false} RowArtChars(glyphs: seq<Glyph>, row: seq<Bitmap>)
    requires forall j :: 0 <= j < |row| ==> WellFormed(glyphs, row[j])
    requires forall j, k :: 0 <= j < |row| && 0 <= k < |glyphs| ==> Overlaps(row[j], glyphs[k].bitmap)
    ensures forall c :: c in RowArt(glyphs, row) ==> c in GlyphChars(glyphs)
  {
    if |glyphs| > 0 && |row| > 0 {
      RowArtChars(glyphs, row[1..]);
    }
  }

  /** Reading the brightness drawing back with `str.splitlines` gives its
      rows again, when no table character is a line break and the last row
      of segments is not empty. */
  lemma BrightnessReadBack(segs: Segments, table: seq<Entry>)
    requires BrightnessConverter(segs, table).Success?
    requires forall e :: e in table ==> !IsBreak(e.ch)
    requires |segs| == 0 || |segs[|segs| - 1]| > 0
    ensures SplitLines(BrightnessConverter(segs, table).value) == BrightnessArt(segs, table)
  {
    BrightnessArtReadBack(segs, table);
  }

  /** The same, stated on the rows the converter joins. */
  lemma BrightnessArtReadBack(segs: Segments, table: seq<Entry>)
    requires !HasEmptySegment(segs) && (|table| > 0 || !HasSegment(segs))
    requires forall e :: e in table ==> !IsBreak(e.ch)
    requires |segs| == 0 || |segs[|segs| - 1]| > 0
    ensures SplitLines(JoinLines(BrightnessArt(segs, table))) == BrightnessArt(segs, table)
  {
    BrightnessArtNoBreaks(segs, table);
    SplitLinesJoinLines(BrightnessArt(segs, table));
  }

  /** No line of the brightness drawing holds a line break when no table
      character is one, and its last line is as long as the last row of
      segments. */
  lemma BrightnessArtNoBreaks(segs: Segments, table: seq<Entry>)
    requires !HasEmptySegment(segs) && (|table| > 0 || !HasSegment(segs))
    requires forall e :: e in table ==> !IsBreak(e.ch)
    ensures NoBreaks(BrightnessArt(segs, table))
    ensures |segs| > 0 ==> |BrightnessArt(segs, table)[|segs| - 1]| == |segs[|segs| - 1]|
  {
    var art := BrightnessArt(segs, table);
    forall i, c | 0 <= i < |art| && c in art[i] ensures !IsBreak(c) {
      var j :| 0 <= j < |art[i]| && art[i][j] == c;
      assert table[Nearest(table, Level(segs[i][j]).value)] in table;
    }
  }

  /** The same for the pixel-difference drawing, given at least one glyph. */
  lemma PxDiffReadBack(segs: Segments, glyphs: seq<Glyph>)
    requires AllWellFormed(segs, glyphs) && PxDiffConverter(segs, glyphs).Success?
    requires |glyphs| > 0 && forall g :: g in glyphs ==> !IsBreak(g.ch)
    requires |segs| == 0 || |segs[|segs| - 1]| > 0
    ensures SplitLines(PxDiffConverter(segs, glyphs).value) == PxDiffArt(segs, glyphs)
  {
    var art := PxDiffArt(segs, glyphs);
    forall i, c | 0 <= i < |art| && c in art[i] ensures !IsBreak(c) {
      RowArtChars(glyphs, segs[i]);
      var g :| g in glyphs && g.ch == c;
    }
    SplitLinesJoinLines(art);
  }
}

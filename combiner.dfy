/** The combination of the two drawings: the pixel-difference character
    where the drawing has a blank on a diagonal or lies on its border, the
    brightness character elsewhere. */
module Combiner {
  import opened Errors
  import opened Grid
  import opened Bitmaps
  import opened PixelDiff
  import opened Converters

  /** One diagonal test of `combine_bstr_diffstr` for the cell (i, j) of the
      difference lines `d`: a position above or below the grid, or left or
      right of row i, counts as blank. The column bound is that of row i,
      so a shorter row i + di raises on the lookup. */
  function DiagonalBlank(d: seq<string>, i: nat, j: nat, di: int, dj: int): (r: Result<bool>)
    requires i < |d|
    ensures r.Failure? ==> r.error == IndexError
  {
    var row, col := i + di, j + dj;
    if row < 0 || row > |d| - 1 || col < 0 || col > |d[i]| - 1 then Success(true)
    else if col >= |d[row]| then Failure(IndexError)
    else Success(d[row][col] == ' ')
  }

  /** The cell (i, j) of the difference lines is exposed: it is blank, it
      lies in the first or last line or at either end of its line, or one
      of its four diagonal neighbours is blank. */
  ghost predicate Exposed(d: seq<string>, i: nat, j: nat)
    requires i < |d| && j < |d[i]|
  {
    d[i][j] == ' ' || i == 0 || i == |d| - 1 || j == 0 || j == |d[i]| - 1
    || (j - 1 < |d[i - 1]| && d[i - 1][j - 1] == ' ')
    || (j + 1 < |d[i - 1]| && d[i - 1][j + 1] == ' ')
    || (j - 1 < |d[i + 1]| && d[i + 1][j - 1] == ' ')
    || (j + 1 < |d[i + 1]| && d[i + 1][j + 1] == ' ')
  }

  /** The cell (i, j) is not blank and one of its diagonal neighbours lies
      inside the grid and inside the bounds of line i, but beyond the end
      of its own, shorter line. */
  ghost predicate Ragged(d: seq<string>, i: nat, j: nat)
    requires i < |d| && j < |d[i]|
  {
    d[i][j] != ' ' &&
    ((0 < i && 0 < j && j - 1 >= |d[i - 1]|)
     || (0 < i && j + 1 < |d[i]| && j + 1 >= |d[i - 1]|)
     || (i + 1 < |d| && 0 < j && j - 1 >= |d[i + 1]|)
     || (i + 1 < |d| && j + 1 < |d[i]| && j + 1 >= |d[i + 1]|))
  }

  /** Whether the cell keeps its pixel-difference character: it is blank, or
      one of its four diagonals counts as blank. The four diagonal tests are
      all evaluated, in order, before `any` looks at them. */
  function KeepsDiff(d: seq<string>, i: nat, j: nat): (r: Result<bool>)
    requires i < |d| && j < |d[i]|
    ensures r.Failure? ==> r.error == IndexError
  {
    if d[i][j] == ' ' then Success(true)
    else
      var t1, t2 := DiagonalBlank(d, i, j, -1, -1), DiagonalBlank(d, i, j, -1, 1);
      var t3, t4 := DiagonalBlank(d, i, j, 1, -1), DiagonalBlank(d, i, j, 1, 1);
      if t1.Failure? then t1
      else if t2.Failure? then t2
      else if t3.Failure? then t3
      else if t4.Failure? then t4
      else Success(t1.value || t2.value || t3.value || t4.value)
  }

  /** The diagonal test in plain terms: it raises exactly at a ragged cell,
      and otherwise keeps the difference character exactly where the cell
      is exposed. */
  lemma KeepsDiffRule(d: seq<string>, i: nat, j: nat)
    requires i < |d| && j < |d[i]|
    ensures KeepsDiff(d, i, j).Failure? <==> Ragged(d, i, j)
    ensures KeepsDiff(d, i, j).Success? ==> (KeepsDiff(d, i, j).value <==> Exposed(d, i, j))
  {
  }

  /** The character the combination puts at (i, j). */
  function MergeCell(b: seq<string>, d: seq<string>, i: nat, j: nat): (r: Result<char>)
    requires i < |b| && i < |d| && j < |b[i]| && j < |d[i]|
    ensures r.Failure? ==> r.error == IndexError
  {
    match KeepsDiff(d, i, j)
    case Failure(e) => Failure(e)
    case Success(keep) => Success(if keep then d[i][j] else b[i][j])
  }

  /** Every cell the two `zip`s visit: as many rows as the shorter drawing,
      and in each row as many cells as the shorter line. */
  function Merged(b: seq<string>, d: seq<string>): (m: seq<seq<Result<char>>>)
    ensures |m| == MinNat(|b|, |d|)
    ensures forall i :: 0 <= i < |m| ==>
      |m[i]| == MinNat(|b[i]|, |d[i]|) && forall j :: 0 <= j < |m[i]| ==> m[i][j] == MergeCell(b, d, i, j)
  {
    seq(MinNat(|b|, |d|), i requires 0 <= i < MinNat(|b|, |d|) =>
      seq(MinNat(|b[i]|, |d[i]|), j requires 0 <= j < MinNat(|b[i]|, |d[i]|) => MergeCell(b, d, i, j)))
  }

  /** The combined lines, or the error of the first cell that raises. */
  function MergeRows(b: seq<string>, d: seq<string>): Result<seq<string>>
  {
    Collect2D(Merged(b, d))
  }

  /** The cell rule: the merge raises IndexError exactly when some visited
      cell meets a shorter neighbouring line; otherwise it has as many lines
      as the shorter drawing, each as long as the shorter of its two lines,
      holding the difference character where the difference drawing is
      exposed and the brightness character elsewhere. */
  lemma MergeRule(b: seq<string>, d: seq<string>)
    ensures var r := MergeRows(b, d);
      && (r.Failure? <==> exists i, j :: 0 <= i < |b| && i < |d| && 0 <= j < |b[i]| && j < |d[i]| && Ragged(d, i, j))
      && (r.Failure? ==> r.error == IndexError)
      && (r.Success? ==> |r.value| == MinNat(|b|, |d|))
      && (r.Success? ==> forall i :: 0 <= i < |r.value| ==>
        |r.value[i]| == MinNat(|b[i]|, |d[i]|) &&
        forall j :: 0 <= j < |r.value[i]| ==> r.value[i][j] == if Exposed(d, i, j) then d[i][j] else b[i][j])
  {
    var m := Merged(b, d);
    var r := Collect2D(m);
    if r.Failure? {
      var i, j :| 0 <= i < |m| && 0 <= j < |m[i]| && m[i][j] == Failure(r.error);
      assert MergeCell(b, d, i, j).Failure?;
      KeepsDiffRule(d, i, j);
    } else {
      forall i, j | 0 <= i < |b| && i < |d| && 0 <= j < |b[i]| && j < |d[i]| ensures !Ragged(d, i, j) {
        assert m[i][j].Success?;
        KeepsDiffRule(d, i, j);
      }
      forall i, j | 0 <= i < |m| && 0 <= j < |m[i]| ensures r.value[i][j] == if Exposed(d, i, j) then d[i][j] else b[i][j] {
        KeepsDiffRule(d, i, j);
      }
    }
  }

  /** `combine_bstr_diffstr` as a value: both texts split into lines, the
      lines merged, every line followed by a newline. */
  function Combination(bstr: string, diffstr: string): (r: Result<string>)
    ensures r.Failure? ==> r.error == IndexError
  {
    match MergeRows(SplitLines(bstr), SplitLines(diffstr))
    case Failure(e) =>
      assert e == IndexError by {
        var b, d := SplitLines(bstr), SplitLines(diffstr);
        var i, j :| 0 <= i < |Merged(b, d)| && 0 <= j < |Merged(b, d)[i]| && Merged(b, d)[i][j] == Failure(e);
      }
      Failure(e)
    case Success(rows) => Success(Terminated(rows))
  }

  lemma {:induction false} TerminatedSnoc(rows: seq<string>, row: string)
    ensures Terminated(rows + [row]) == Terminated(rows) + row + "\n"
    decreases |rows|
  {
    if |rows| == 0 {
      assert Terminated([row]) == row + "\n" + Terminated([]);
    } else {
      assert (rows + [row])[1..] == rows[1..] + [row];
      TerminatedSnoc(rows[1..], row);
    }
  }

  /** `combine_bstr_diffstr`: walks the lines of both drawings, appending
      each merged line and a newline; the first cell that raises ends it. */
  method Combine(bstr: string, diffstr: string) returns (r: Result<string>)
    ensures r == Combination(bstr, diffstr)
  {
    var bmap := SplitLines(bstr);
    var diffmap := SplitLines(diffstr);
    ghost var m := Merged(bmap, diffmap);
    var combination := "";
    ghost var done: seq<string> := [];
    var i := 0;
    while i < |bmap| && i < |diffmap|
      invariant 0 <= i <= |m| && |done| == i
      invariant forall k :: 0 <= k < i ==> CollectRow(m[k]) == Success(done[k])
      invariant combination == Terminated(done)
    {
      var line := CombineLine(bmap, diffmap, i);
      if line.Failure? {
        RowFails(m, i);
        return Failure(line.error);
      }
      TerminatedSnoc(done, line.value);
      combination := combination + line.value + "\n";
      done := done + [line.value];
      i := i + 1;
    }
    AllRowsCollect(m, done);
    return Success(combination);
  }

  /** The inner loop of `combine_bstr_diffstr`: the cells of line i of both
      drawings, left to right, each replaced by the character chosen. */
  method CombineLine(bmap: seq<string>, diffmap: seq<string>, i: nat) returns (r: Result<string>)
    requires i < |bmap| && i < |diffmap|
    ensures r == CollectRow(Merged(bmap, diffmap)[i])
  {
    ghost var row := Merged(bmap, diffmap)[i];
    var brow, diffrow := bmap[i], diffmap[i];
    var line := "";
    var j := 0;
    while j < |brow| && j < |diffrow|
      invariant 0 <= j <= |row| && |line| == j
      invariant forall k :: 0 <= k < j ==> row[k] == Success(line[k])
    {
      var keep := KeepsDiff(diffmap, i, j);
      if keep.Failure? {
        CellFails(row, j);
        return Failure(keep.error);
      }
      var c := if keep.value then diffrow[j] else brow[j];
      line := line + [c];
      j := j + 1;
    }
    RowCollects(row, line);
    return Success(line);
  }

  lemma CellFails(row: seq<Result<char>>, j: int)
    requires 0 <= j < |row| && row[j].Failure? && row[j].error == IndexError
    requires forall k :: 0 <= k < |row| && row[k].Failure? ==> row[k].error == IndexError
    ensures CollectRow(row) == Failure(IndexError)
  {
    var r := CollectRow(row);
    assert !row[j].Success?;
    var k :| 0 <= k < |row| && row[k] == Failure(r.error);
  }

  lemma {:induction false} RowCollects(row: seq<Result<char>>, line: string)
    requires |row| == |line| && forall k :: 0 <= k < |row| ==> row[k] == Success(line[k])
    ensures CollectRow(row) == Success(line)
  {
    var r := CollectRow(row);
    assert r.Success?;
    assert r.value == line;
  }

  lemma AllRowsCollect(m: seq<seq<Result<char>>>, done: seq<string>)
    requires |done| == |m| && forall k :: 0 <= k < |m| ==> CollectRow(m[k]) == Success(done[k])
    ensures Collect2D(m) == Success(done)
  {
    forall k, j | 0 <= k < |m| && 0 <= j < |m[k]| ensures m[k][j].Success? {
      assert CollectRow(m[k]).Success?;
    }
    var r := Collect2D(m);
    forall k | 0 <= k < |m| ensures r.value[k] == done[k] {
      assert |r.value[k]| == |m[k]| == |done[k]|;
      forall j | 0 <= j < |m[k]| ensures r.value[k][j] == done[k][j] {
        assert r.value[k][j] == m[k][j].value;
      }
    }
    assert r.value == done;
  }

  lemma RowFails(m: seq<seq<Result<char>>>, i: int)
    requires 0 <= i < |m| && CollectRow(m[i]).Failure?
    requires forall k, l :: 0 <= k < |m| && 0 <= l < |m[k]| && m[k][l].Failure? ==> m[k][l].error == IndexError
    ensures Collect2D(m) == Failure(IndexError)
  {
    var j :| 0 <= j < |m[i]| && m[i][j] == Failure(CollectRow(m[i]).error);
    var r := Collect2D(m);
    assert !m[i][j].Success?;
    var k, l :| 0 <= k < |m| && 0 <= l < |m[k]| && m[k][l] == Failure(r.error);
  }

  /** All lines of the difference drawing have one length. */
  ghost predicate Uniform(d: seq<string>)
  {
    forall i, k :: 0 <= i < |d| && 0 <= k < |d| ==> |d[i]| == |d[k]|
  }

  /** Over a difference drawing whose lines have one length no lookup
      raises. */
  lemma UniformNeverRaises(b: seq<string>, d: seq<string>)
    requires Uniform(d)
    ensures MergeRows(b, d).Success?
  {
    MergeRule(b, d);
    forall i, j | 0 <= i < |b| && i < |d| && 0 <= j < |b[i]| && j < |d[i]| ensures !Ragged(d, i, j) {
      NotRagged(d, i, j);
    }
  }

  lemma NotRagged(d: seq<string>, i: nat, j: nat)
    requires i < |d| && j < |d[i]|
    requires 0 < i ==> |d[i - 1]| == |d[i]|
    requires i + 1 < |d| ==> |d[i + 1]| == |d[i]|
    ensures !Ragged(d, i, j)
  {
  }

  /** Combining a drawing with itself gives its lines back, each followed
      by a newline. */
  lemma SelfCombination(s: string)
    requires Uniform(SplitLines(s))
    ensures Combination(s, s) == Success(Terminated(SplitLines(s)))
  {
    MergeRule(SplitLines(s), SplitLines(s));
    var d := SplitLines(s);
    UniformNeverRaises(d, d);
    var rows := MergeRows(d, d).value;
    forall i | 0 <= i < |d| ensures rows[i] == d[i] {
      assert |rows[i]| == |d[i]|;
      forall j | 0 <= j < |d[i]| ensures rows[i][j] == d[i][j] {
      }
    }
    assert rows == d;
  }

  /** A drawing of at most two lines, or of lines at most two characters
      long, whose lines have one length, is all border: the combination is the difference drawing cut
      to the brightness drawing's size. */
  lemma ThinDrawingKeepsDiff(b: seq<string>, d: seq<string>)
    requires Uniform(d)
    requires |d| <= 2 || forall i :: 0 <= i < |d| ==> |d[i]| <= 2
    ensures MergeRows(b, d).Success?
    ensures forall i :: 0 <= i < |MergeRows(b, d).value| ==>
      MergeRows(b, d).value[i] == d[i][..|MergeRows(b, d).value[i]|]
  {
    MergeRule(b, d);
    var r := MergeRows(b, d);
    forall i, j | 0 <= i < |b| && i < |d| && 0 <= j < |b[i]| && j < |d[i]| ensures !Ragged(d, i, j) && Exposed(d, i, j) {
      NotRagged(d, i, j);
      ThinCell(d, i, j);
    }
    forall i | 0 <= i < |r.value| ensures r.value[i] == d[i][..|r.value[i]|] {
      var n := |r.value[i]|;
      assert n <= |d[i]|;
      forall j | 0 <= j < n ensures r.value[i][j] == d[i][..n][j] {
        assert Exposed(d, i, j);
      }
    }
  }

  lemma ThinCell(d: seq<string>, i: nat, j: nat)
    requires i < |d| && j < |d[i]|
    requires |d| <= 2 || |d[i]| <= 2
    ensures Exposed(d, i, j)
  {
  }

  /** `str.splitlines` reads the combined lines back from the text the
      combiner returns. */
  lemma CombinationReadBack(bstr: string, diffstr: string)
    requires Combination(bstr, diffstr).Success?
    ensures SplitLines(Combination(bstr, diffstr).value) == MergeRows(SplitLines(bstr), SplitLines(diffstr)).value
  {
    MergeRule(SplitLines(bstr), SplitLines(diffstr));
    var b, d := SplitLines(bstr), SplitLines(diffstr);
    var rows := MergeRows(b, d).value;
    SplitLinesNoBreaks(bstr);
    SplitLinesNoBreaks(diffstr);
    forall i, c | 0 <= i < |rows| && c in rows[i] ensures !IsBreak(c) {
      var j :| 0 <= j < |rows[i]| && rows[i][j] == c;
      assert b[i][j] in b[i] && d[i][j] in d[i];
    }
    SplitLinesTerminated(rows);
  }

  /** On a grid of segments with one count per row, as the image is cut,
      the combination over the pixel-difference drawing never raises. */
  lemma PxDiffDrawingCombines(bstr: string, segs: Segments, glyphs: seq<Glyph>)
    requires AllWellFormed(segs, glyphs) && PxDiffConverter(segs, glyphs).Success?
    requires |glyphs| > 0 && forall g :: g in glyphs ==> !IsBreak(g.ch)
    requires |segs| == 0 || |segs[|segs| - 1]| > 0
    requires forall i, k :: 0 <= i < |segs| && 0 <= k < |segs| ==> |segs[i]| == |segs[k]|
    ensures Combination(bstr, PxDiffConverter(segs, glyphs).value).Success?
  {
    PxDiffReadBack(segs, glyphs);
    PxDiffArtUniform(segs, glyphs);
    UniformNeverRaises(SplitLines(bstr), PxDiffArt(segs, glyphs));
  }

  lemma PxDiffArtUniform(segs: Segments, glyphs: seq<Glyph>)
    requires AllWellFormed(segs, glyphs) && !HasMismatch(segs, glyphs) && |glyphs| > 0
    requires forall i, k :: 0 <= i < |segs| && 0 <= k < |segs| ==> |segs[i]| == |segs[k]|
    ensures Uniform(PxDiffArt(segs, glyphs))
  {
    var d := PxDiffArt(segs, glyphs);
    assert forall i :: 0 <= i < |d| ==> |d[i]| == |segs[i]|;
  }

  /** A difference line shorter than the line below it makes the lookup of
      a diagonal neighbour raise: the `x` at (1, 0) looks up position 1 of
      the line `a`. */
  lemma ShortLineRaises()
    ensures MergeRows(["ab", "abc"], ["a", "xyz", "abc"]) == Failure(IndexError)
  {
    MergeRule(["ab", "abc"], ["a", "xyz", "abc"]);
    var d := ["a", "xyz", "abc"];
    assert Ragged(d, 1, 0);
  }

  /** The choice at (i, j) does not depend on the cells directly above,
      below, left or right of it: rewriting one of them changes nothing. */
  lemma OrthogonalNeighbourIrrelevant(d: seq<string>, i: nat, j: nat, di: int, dj: int, c: char)
    requires i < |d| && j < |d[i]|
    requires (di == 0 && (dj == -1 || dj == 1)) || (dj == 0 && (di == -1 || di == 1))
    requires 0 <= i + di < |d| && 0 <= j + dj < |d[i + di]|
    ensures KeepsDiff(d[i + di := d[i + di][j + dj := c]], i, j) == KeepsDiff(d, i, j)
  {
    var e := d[i + di := d[i + di][j + dj := c]];
    assert forall r :: 0 <= r < |d| ==> |e[r]| == |d[r]|;
    assert e[i][j] == d[i][j];
    forall r, col | 0 <= r < |d| && 0 <= col < |d[r]| && (r == i - 1 || r == i + 1) && (col == j - 1 || col == j + 1)
      ensures e[r][col] == d[r][col]
    {
    }
    assert DiagonalBlank(e, i, j, -1, -1) == DiagonalBlank(d, i, j, -1, -1);
    assert DiagonalBlank(e, i, j, -1, 1) == DiagonalBlank(d, i, j, -1, 1);
    assert DiagonalBlank(e, i, j, 1, -1) == DiagonalBlank(d, i, j, 1, -1);
    assert DiagonalBlank(e, i, j, 1, 1) == DiagonalBlank(d, i, j, 1, 1);
  }
}

/** Two-dimensional grids as the converter builds them: `map2d`, the
    exception that escapes a comprehension, and the row joining done with
    `"\n".join` and read back with `str.splitlines`. */
module Grid {
  import opened Errors

  /** Same number of rows, and row by row the same number of cells. */
  ghost predicate SameShape<T, U>(a: seq<seq<T>>, b: seq<seq<U>>)
  {
    |a| == |b| && forall i :: 0 <= i < |a| ==> |a[i]| == |b[i]|
  }

  /** `[func(value) for value in row]`. */
  function MapRow<T, U>(f: T --> U, row: seq<T>): (r: seq<U>)
    requires forall j :: 0 <= j < |row| ==> f.requires(row[j])
    ensures |r| == |row|
    ensures forall j :: 0 <= j < |row| ==> r[j] == f(row[j])
  {
    if |row| == 0 then [] else [f(row[0])] + MapRow(f, row[1..])
  }

  /** `map2d(func, grid)` on its comprehension branch: a new grid of the
      same shape holding `func` of every cell. */
  function Map2D<T, U>(f: T --> U, grid: seq<seq<T>>): (r: seq<seq<U>>)
    requires forall i, j :: 0 <= i < |grid| && 0 <= j < |grid[i]| ==> f.requires(grid[i][j])
    ensures SameShape(r, grid)
    ensures forall i, j :: 0 <= i < |grid| && 0 <= j < |grid[i]| ==> r[i][j] == f(grid[i][j])
  {
    if |grid| == 0 then []
    else
      assert forall i :: 1 <= i < |grid| ==> grid[1..][i - 1] == grid[i];
      [MapRow(f, grid[0])] + Map2D(f, grid[1..])
  }

  /** A comprehension whose element function may raise: it raises the
      error of the first failing element, and otherwise yields the values. */
  function CollectRow<U>(row: seq<Result<U>>): (r: Result<seq<U>>)
    ensures r.Success? <==> forall j :: 0 <= j < |row| ==> row[j].Success?
    ensures r.Success? ==> |r.value| == |row| && forall j :: 0 <= j < |row| ==> r.value[j] == row[j].value
    ensures r.Failure? ==> exists j :: 0 <= j < |row| && row[j] == Failure(r.error) && forall k :: 0 <= k < j ==> row[k].Success?
  {
    if |row| == 0 then Success([])
    else if row[0].Failure? then Failure(row[0].error)
    else
      match CollectRow(row[1..])
      case Failure(e) => Failure(e)
      case Success(rest) => Success([row[0].value] + rest)
  }

  /** The same for a nested comprehension: the first failure in row-major
      order escapes. */
  function Collect2D<U>(grid: seq<seq<Result<U>>>): (r: Result<seq<seq<U>>>)
    ensures r.Success? <==> forall i, j :: 0 <= i < |grid| && 0 <= j < |grid[i]| ==> grid[i][j].Success?
    ensures r.Success? ==> SameShape(r.value, grid)
    ensures r.Success? ==> forall i, j :: 0 <= i < |grid| && 0 <= j < |grid[i]| ==> r.value[i][j] == grid[i][j].value
    ensures r.Failure? ==> exists i :: 0 <= i < |grid| && CollectRow(grid[i]) == Failure(r.error) && forall k :: 0 <= k < i ==> CollectRow(grid[k]).Success?
    ensures r.Failure? ==> exists i, j :: 0 <= i < |grid| && 0 <= j < |grid[i]| && grid[i][j] == Failure(r.error)
  {
    if |grid| == 0 then Success([])
    else
      match CollectRow(grid[0])
      case Failure(e) => Failure(e)
      case Success(row) =>
        match Collect2D(grid[1..])
        case Failure(e) =>
          assert forall k :: 1 <= k < |grid| ==> grid[k] == grid[1..][k - 1];
          Failure(e)
        case Success(rest) =>
          assert forall k :: 1 <= k < |grid| ==> grid[k] == grid[1..][k - 1];
          Success([row] + rest)
  }

  /** The cells of a grid of mutable rows. */
  ghost function Contents<T>(grid: seq<array<T>>): (r: seq<seq<T>>)
    reads set a | a in grid
    ensures |r| == |grid| && forall i :: 0 <= i < |grid| ==> r[i] == grid[i][..]
  {
    if |grid| == 0 then [] else [grid[0][..]] + Contents(grid[1..])
  }

  /** `map2d(func, grid, do_print=True)`: overwrites every cell with `func`
      of it, row by row (the printing is left out). */
  method Map2DInPlace<T>(f: T -> T, grid: seq<array<T>>)
    requires forall i, k :: 0 <= i < k < |grid| ==> grid[i] != grid[k]
    modifies set a | a in grid
    ensures Contents(grid) == Map2D(f, old(Contents(grid)))
  {
    var i := 0;
    while i < |grid|
      invariant 0 <= i <= |grid|
      invariant forall k :: 0 <= k < i ==> grid[k][..] == MapRow(f, old(grid[k][..]))
      invariant forall k :: i <= k < |grid| ==> grid[k][..] == old(grid[k][..])
    {
      var row := grid[i];
      var j := 0;
      while j < row.Length
        invariant 0 <= j <= row.Length
        invariant forall m :: 0 <= m < j ==> row[m] == f(old(row[m]))
        invariant forall m :: j <= m < row.Length ==> row[m] == old(row[m])
        invariant forall k :: 0 <= k < i ==> grid[k][..] == MapRow(f, old(grid[k][..]))
        invariant forall k :: i < k < |grid| ==> grid[k][..] == old(grid[k][..])
      {
        row[j] := f(row[j]);
        j := j + 1;
      }
      assert row[..] == MapRow(f, old(row[..]));
      i := i + 1;
    }
    ghost var before := old(Contents(grid));
    ghost var after := Contents(grid);
    assert forall k :: 0 <= k < |grid| ==> after[k] == Map2D(f, before)[k];
  }

  /** `"\n".join(rows)`: rows separated by newlines, no newline at the end. */
  function JoinLines(rows: seq<string>): string
  {
    if |rows| == 0 then ""
    else if |rows| == 1 then rows[0]
    else rows[0] + "\n" + JoinLines(rows[1..])
  }

  /** Every row followed by its own newline, as the combiner emits them. */
  function Terminated(rows: seq<string>): (r: string)
    ensures |r| >= |rows|
  {
    if |rows| == 0 then "" else rows[0] + "\n" + Terminated(rows[1..])
  }

  /** Rows without line breaks join with one newline fewer than rows. */
  lemma {:induction false} JoinLinesNewlines(rows: seq<string>)
    requires |rows| > 0 && NoBreaks(rows)
    ensures multiset(JoinLines(rows))['\n'] == |rows| - 1
    decreases |rows|
  {
    assert IsBreak('\n');
    if |rows| > 1 {
      assert NoBreaks(rows[1..]) by {
        assert forall i :: 1 <= i < |rows| ==> rows[1..][i - 1] == rows[i];
      }
      JoinLinesNewlines(rows[1..]);
    }
  }

  /** Terminated rows end in a newline, and rows without line breaks give
      exactly one newline each. */
  lemma {:induction false} TerminatedNewlines(rows: seq<string>)
    requires NoBreaks(rows)
    ensures |rows| > 0 ==> Terminated(rows)[|Terminated(rows)| - 1] == '\n'
    ensures multiset(Terminated(rows))['\n'] == |rows|
    decreases |rows|
  {
    assert IsBreak('\n');
    if |rows| > 0 {
      assert NoBreaks(rows[1..]) by {
        assert forall i :: 1 <= i < |rows| ==> rows[1..][i - 1] == rows[i];
      }
      TerminatedNewlines(rows[1..]);
    }
  }

  /** The characters `str.splitlines` breaks lines at. */
  predicate IsBreak(c: char)
  {
    c in {'\n', '\r', '\U{000B}', '\U{000C}', '\U{001C}', '\U{001D}', '\U{001E}',
          '\U{0085}', '\U{2028}', '\U{2029}'}
  }

  /** The pieces of `s` between line breaks, a carriage return directly
      followed by a newline counting as one break; never empty. */
  function Split(s: string): (r: seq<string>)
    ensures |r| >= 1
  {
    if |s| == 0 then [""]
    else if IsBreak(s[0]) then
      var k := if s[0] == '\r' && |s| > 1 && s[1] == '\n' then 2 else 1;
      [""] + Split(s[k..])
    else
      var rest := Split(s[1..]);
      [[s[0]] + rest[0]] + rest[1..]
  }

  /** `s.splitlines()`: an empty text has no lines, and a final line break
      does not open another line. */
  function SplitLines(s: string): (r: seq<string>)
    ensures |r| == 0 <==> |s| == 0
  {
    if |s| == 0 then []
    else if IsBreak(s[|s| - 1]) then
      var k := if s[|s| - 1] == '\n' && |s| > 1 && s[|s| - 2] == '\r' then 2 else 1;
      Split(s[..|s| - k])
    else Split(s)
  }

  /** No row holds a line break. */
  ghost predicate NoBreaks(rows: seq<string>)
  {
    forall i, c :: 0 <= i < |rows| && c in rows[i] ==> !IsBreak(c)
  }

  lemma {:induction false} SplitPlain(r: string)
    requires forall c :: c in r ==> !IsBreak(c)
    ensures Split(r) == [r]
    decreases |r|
  {
    if |r| > 0 {
      assert r[0] in r;
      SplitPlain(r[1..]);
      assert [r[0]] + r[1..] == r;
    }
  }

  /** A row without line breaks, a newline and the rest split into that row
      followed by the pieces of the rest. */
  lemma {:induction false} SplitRow(r: string, t: string)
    requires forall c :: c in r ==> !IsBreak(c)
    ensures Split(r + "\n" + t) == [r] + Split(t)
    decreases |r|
  {
    if |r| == 0 {
      assert r + "\n" + t == "\n" + t;
      assert ("\n" + t)[1..] == t;
    } else {
      assert r[0] in r;
      assert (r + "\n" + t)[1..] == r[1..] + "\n" + t;
      SplitRow(r[1..], t);
      assert [r[0]] + r[1..] == r;
    }
  }

  /** Splitting undoes joining. */
  lemma {:induction false} SplitJoin(rows: seq<string>)
    requires |rows| > 0 && NoBreaks(rows)
    ensures Split(JoinLines(rows)) == rows
    decreases |rows|
  {
    if |rows| == 1 {
      SplitPlain(rows[0]);
    } else {
      SplitRow(rows[0], JoinLines(rows[1..]));
      SplitJoin(rows[1..]);
    }
  }

  lemma {:induction false} JoinLinesLast(rows: seq<string>)
    requires |rows| > 0
    ensures |JoinLines(rows)| >= |rows[|rows| - 1]|
    ensures rows[|rows| - 1] != "" ==> JoinLines(rows)[|JoinLines(rows)| - 1] == rows[|rows| - 1][|rows[|rows| - 1]| - 1]
    decreases |rows|
  {
    if |rows| > 1 {
      JoinLinesLast(rows[1..]);
    }
  }

  /** `str.splitlines` reads back the rows joined by `"\n".join`, provided
      the last row is not empty (a final empty row leaves no trace). */
  lemma SplitLinesJoinLines(rows: seq<string>)
    requires NoBreaks(rows)
    requires |rows| == 0 || rows[|rows| - 1] != ""
    ensures SplitLines(JoinLines(rows)) == rows
  {
    if |rows| > 0 {
      JoinLinesLast(rows);
      var last := rows[|rows| - 1];
      assert last[|last| - 1] in last;
      SplitJoin(rows);
    }
  }

  lemma {:induction false} TerminatedJoin(rows: seq<string>)
    requires |rows| > 0
    ensures Terminated(rows) == JoinLines(rows) + "\n"
    decreases |rows|
  {
    if |rows| > 1 {
      TerminatedJoin(rows[1..]);
    }
  }

  /** `str.splitlines` reads back rows that were each terminated by a
      newline, empty rows included. */
  lemma SplitLinesTerminated(rows: seq<string>)
    requires NoBreaks(rows)
    ensures SplitLines(Terminated(rows)) == rows
  {
    if |rows| > 0 {
      TerminatedJoin(rows);
      var s := Terminated(rows);
      var j := JoinLines(rows);
      assert s == j + "\n" && s[..|s| - 1] == j;
      if |j| > 0 {
        JoinLinesEnd(rows);
        assert s[|s| - 2] == j[|j| - 1];
      }
      SplitJoin(rows);
    }
  }

  /** Rows without line breaks do not join into a text ending in a carriage
      return. */
  lemma {:induction false} JoinLinesEnd(rows: seq<string>)
    requires |rows| > 0 && NoBreaks(rows) && |JoinLines(rows)| > 0
    ensures JoinLines(rows)[|JoinLines(rows)| - 1] != '\r'
    decreases |rows|
  {
    var last := rows[|rows| - 1];
    JoinLinesLast(rows);
    if last != "" {
      assert last[|last| - 1] in last;
      assert !IsBreak(last[|last| - 1]);
    } else if |rows| > 1 {
      assert JoinLines(rows) == rows[0] + "\n" + JoinLines(rows[1..]);
      if |JoinLines(rows[1..])| > 0 {
        JoinLinesEnd(rows[1..]);
      }
    }
  }

  /** No piece of a split holds a line break. */
  lemma {:induction false} SplitNoBreaks(s: string)
    ensures NoBreaks(Split(s))
    decreases |s|
  {
    if |s| > 0 {
      if IsBreak(s[0]) {
        var k := if s[0] == '\r' && |s| > 1 && s[1] == '\n' then 2 else 1;
        SplitNoBreaks(s[k..]);
        var rows := [""] + Split(s[k..]);
        assert forall i :: 1 <= i < |rows| ==> rows[i] == Split(s[k..])[i - 1];
      } else {
        var rest := Split(s[1..]);
        SplitNoBreaks(s[1..]);
        var rows := [[s[0]] + rest[0]] + rest[1..];
        assert forall i :: 1 <= i < |rows| ==> rows[i] == rest[i];
        forall c | c in rows[0] ensures !IsBreak(c) {
          if c != s[0] {
            assert c in rest[0];
          }
        }
      }
    }
  }

  /** No line `str.splitlines` yields holds a line break. */
  lemma SplitLinesNoBreaks(s: string)
    ensures NoBreaks(SplitLines(s))
  {
    if |s| > 0 {
      if IsBreak(s[|s| - 1]) {
        var k := if s[|s| - 1] == '\n' && |s| > 1 && s[|s| - 2] == '\r' then 2 else 1;
        SplitNoBreaks(s[..|s| - k]);
      } else {
        SplitNoBreaks(s);
      }
    }
  }
}

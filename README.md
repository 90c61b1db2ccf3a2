# image-to-ascii, the matching and merging core, in Dafny

`main.py` of image-to-ascii turns a picture into text. The picture is cut into
a grid of cells whose shape follows the glyphs of a monospaced font. Then each
cell gets one character, chosen in one of three ways:

- **brightness**: the character whose glyph brightness, normalized to [0, 1],
  is nearest the cell's mean brightness;
- **px_diff**: the character whose glyph bitmap differs least, in mean
  absolute pixel difference, from the cell;
- **combo**: both drawings merged. The pixel-difference character is kept
  where it is blank, lies on the border of the difference drawing, or has a
  blank diagonal neighbour; the brightness character is used everywhere
  else.

This project models that logic over integer pixel grids and real numbers, and
proves what each step promises.

- `errors.dfy` (`Errors`): `Result` and the three Python exceptions the core
  can raise: `ZeroDivisionError`, `IndexError` and `ValueError`.
- `pymath.dfy` (`PyMath`): `math.ceil`, `int()` (truncation), `round()`
  (half to even) and `min` on reals.
- `argmin.dfy` (`ArgMin`): the first position of a least value. Python's
  `min` with a key and a running minimum replaced on a strict `<` both select
  it.
- `grid.dfy` (`Grid`):
  - `map2d`, in both its branches;
  - a comprehension whose elements may raise;
  - `"\n".join`;
  - `str.splitlines`, with its full set of line breaks.
- `segmenter.dfy` (`Segmenter`): the box geometry of `divide_image`.
- `bitmaps.dfy` (`Bitmaps`): single-band images as rows of integer pixels,
  and their flattening and sums.
- `brightness.dfy` (`Brightness`):
  - `get_brightness`, the stable sort and `normalize_brightnesses`;
  - `get_char_brightness_dict`;
  - `round_to_char`.
- `pixeldiff.dfy` (`PixelDiff`): `ImageChops.difference`, its mean, and
  `compare_to_char` as a loop.
- `converters.dfy` (`Converters`): `brightness_converter` and
  `px_diff_converter`.
- `combiner.dfy` (`Combiner`): `combine_bstr_diffstr` as nested loops, its
  cell rule, and its behaviour on the converters' output.

Python exceptions are values. Each operation returns `Failure(e)` exactly
when the Python code would raise `e`, and its contract says when that happens.

The combiner follows the code, not a clamped reading of it:

- A diagonal neighbour outside the grid counts as blank, so every border cell
  keeps its pixel-difference character.
- The column bound for every neighbour is the length of the cell's own line,
  so a neighbouring line that is shorter raises `IndexError`.
  `Combiner.ShortLineRaises` exhibits this.
- `Combiner.PxDiffDrawingCombines` shows that this cannot happen on the
  drawing `px_diff_converter` makes from a grid with the same number of cells
  in every row.

## Model

| member | source | states |
|---|---|---|
| PyMath.Ceil | main.py:13 | `ceil(x)` is the integer in [x, x + 1) |
| PyMath.Trunc | main.py:18 | `int(x)` lies within 1 of `x`, toward zero, on both signs |
| PyMath.Round | main.py:29-32 | `round(x)` lies within 1/2 of `x` |
| PyMath.RoundTiesToEven | main.py:29-32 | when `x` is halfway between two integers, `round` picks the even one |
| PyMath.RoundMonotone | main.py:29-32 | `round` never reverses the order of two reals |
| PyMath.RoundBetween | main.py:29-32 | a real between two integers rounds to an integer between them |
| PyMath.RoundSeparates | main.py:29-32 | two reals more than 1 apart (or 1 apart from an integer) round to different integers |
| PyMath.Min | main.py:31-32 | `min(a, b)` is one of the two and not above either |
| ArgMin.FirstArgMin | main.py:101-105 | the position found holds a least value and every earlier position holds a larger one (what `min` with a key returns) |
| ArgMin.FirstArgMinUnique | main.py:101-105 | that position is unique, so `min` and the strict-`<` loop agree |
| Segmenter.Plan | main.py:11-18 | fails with ZeroDivisionError exactly when `x_segs`, the width or the glyph ratio is 0. Otherwise `x_step` is the width over `x_segs` and `y_step` is `x_step` times the glyph ratio; there are `x_segs` columns, the columns span the width exactly, there are as few rows as reach the full height, the padded height is at least the height, and it is the truncated `y_step * y_segs` |
| Segmenter.PosIsProduct | main.py:29-32 | the edge `i * step` built by repeated addition is the product |
| Segmenter.PosMono | main.py:29-32 | edges further along the grid are further along the image |
| Segmenter.CeilReaches | main.py:13 | `ceil(H / y_step)` rows of height `y_step` reach the height H |
| Segmenter.CeilMinimal | main.py:13 | one row fewer would not reach it |
| Segmenter.PlanCovers | main.py:11-18 | the derived layout spans the image and its last row ends at the padded bottom |
| Segmenter.LastRowAtBottom | main.py:18 | the last row's rounded, clamped bottom edge is the padded height |
| Segmenter.DivideImage | main.py:10-38 | as written: a zero divisor raises ZeroDivisionError; otherwise `y_segs` rows of `x_segs` boxes of the `Plan` layout, with its truncated padding, each being the box of its own position |
| Segmenter.DivideImageRounded | main.py:10-38 | the same over the corrected, rounded padding of `PlanRounded` (see Findings) |
| Segmenter.CutBoxes | main.py:22-36 | the nested loops build one row per layout row and one box per column, the box at row `yi`, column `xi` being that position's crop box |
| Segmenter.CellBox | main.py:27-33 | a crop box's right and bottom edges never pass the padded image, and with non-negative steps its left and top edges are not negative |
| Segmenter.ColumnLeft | main.py:29 | the left edge `round(xi * x_step)` is not negative for a non-negative step |
| Segmenter.RowTop | main.py:30 | the top edge `round(yi * y_step)` is not negative for a non-negative step |
| Segmenter.ColumnRight | main.py:31 | the right edge, clamped by `min` to the width, never passes the width |
| Segmenter.RowBottom | main.py:32 | the bottom edge, clamped by `min` to the padded height, never passes it |
| Segmenter.EdgeNonNegative | main.py:29-30 | a rounded multiple of a non-negative step is not negative |
| Segmenter.EdgeClamped | main.py:31-32 | a value clamped to an integer bound by `min` rounds to at most that bound |
| Segmenter.ColumnsTile | main.py:29-31 | the first column starts at 0, each column ends where the next starts, and the last ends at the image width |
| Segmenter.RowsTile | main.py:30-32 | the first row starts at 0, each row ends where the next starts, and the last ends at the padded height |
| Segmenter.CellInsideImage | main.py:27-33 | every crop box lies inside the padded image, with left <= right and top <= bottom |
| Segmenter.TruncatedPaddingEmptiesLastRow | main.py:18 | a 10 by 3 image in 10 columns with glyph ratio 1.3 is padded to 3 pixels, so its last row spans [3, 3) |
| Segmenter.PlanRounded | main.py:11-18 | the corrected layout: the same steps, columns, rows and failures as `Plan`, with the padded height `round(y_step * y_segs)`, rounded like the crop edges |
| Segmenter.RoundedCovers | main.py:18 | the rounded padding still covers the image |
| Segmenter.RoundedBottom | main.py:18 | with the rounded padding, the last row ends at the padded bottom |
| Segmenter.StepsAtLeastOne | main.py:11-12 | no more columns than pixels, and glyphs tall enough, give cells at least a pixel wide and tall |
| Segmenter.PosOfOne | main.py:29-32 | with unit steps the edges are the integers |
| Segmenter.StepRoundsApart | main.py:29-32 | consecutive edges at least a pixel apart round to different pixels |
| Segmenter.RoundedPaddingKeepsCellsNonEmpty | main.py:27-33 | with the rounded padding every cell, the last row's included, is at least one pixel wide and tall |
| Grid.MapRow | main.py:82 | the list comprehension over a row keeps its length and applies the function to each element |
| Grid.Map2D | main.py:82 | `map2d` keeps the grid's shape and applies the function to every cell |
| Grid.Map2DInPlace | main.py:75-81 | the `do_print` branch leaves every row equal to the function applied to its old contents |
| Grid.CollectRow | main.py:82 | a comprehension whose element raises raises the first such error; otherwise it yields every value |
| Grid.Collect2D | main.py:82 | the same for the nested comprehension, in row-major order |
| Grid.JoinLines | main.py:112 | `"\n".join`: the lines with one newline between each two (SplitJoin reads them back, JoinLinesNewlines counts the newlines) |
| Grid.JoinLinesNewlines | main.py:112 | joining lines that hold no line break puts exactly one newline fewer than there are lines |
| Grid.JoinLinesLast | main.py:112 | the joined text is at least as long as its last line |
| Grid.Terminated | main.py:162 | every line followed by a newline: the text has at least one character per line |
| Grid.TerminatedNewlines | main.py:162 | lines without breaks, each followed by a newline, give a text ending in a newline with exactly one newline per line |
| Grid.SplitLines | main.py:135-136 | `str.splitlines` returns no lines exactly when the text is empty; SplitLinesJoinLines and SplitLinesTerminated prove it the inverse of the two ways of joining |
| Grid.SplitPlain | main.py:135-136 | text without line breaks is one piece |
| Grid.Split | main.py:135-136 | the pieces of a text between line breaks, `\r\n` counting as one: there is always at least one (SplitJoin proves it undoes joining) |
| Grid.SplitRow | main.py:135-136 | a line without breaks, a newline and the rest split into that line followed by the pieces of the rest |
| Grid.SplitJoin | main.py:112 | splitting at line breaks undoes `"\n".join` of lines that hold no break |
| Grid.SplitLinesJoinLines | main.py:112 | `splitlines` reads back the joined lines when the last line is not empty |
| Grid.TerminatedJoin | main.py:162 | lines each followed by a newline are the joined lines plus one newline |
| Grid.SplitLinesTerminated | main.py:135-136 | `splitlines` reads back lines that were each followed by a newline, empty lines included |
| Grid.JoinLinesEnd | main.py:112 | joined lines without breaks never end in a carriage return |
| Grid.SplitNoBreaks | main.py:135-136 | no piece between line breaks holds a break |
| Grid.SplitLinesNoBreaks | main.py:135-136 | no line `splitlines` returns holds a break |
| Bitmaps.PixelsMembers | main.py:56 | a value is among the pixels ImageStat counts iff some cell of the image holds it |
| Bitmaps.Pixels | main.py:56 | the pixels ImageStat reads, row after row, beginning with the whole first row |
| Bitmaps.Sum | main.py:56 | the pixel sum the mean divides; SumZero and SumWhite bound it |
| Bitmaps.GreyPixels | main.py:56 | the pixels of a single-band image lie in 0..255 |
| Bitmaps.PixelsAll | main.py:56 | every pixel equals v iff every cell equals v |
| Bitmaps.PixelCount | main.py:56 | a rectangular image has height times width pixels |
| Bitmaps.NoPixels | main.py:56 | a rectangular image has no pixels iff it has no rows or no columns |
| Bitmaps.SumZero | main.py:56 | the sum of non-negative pixels is not negative, and it is 0 iff every pixel is 0 |
| Bitmaps.SumWhite | main.py:56 | the sum of pixels at most 255 is at most 255 per pixel, with equality iff every pixel is 255 |
| Brightness.Level | main.py:55-56 | the brightness raises ZeroDivisionError iff the image has no pixels; otherwise it lies in [0, 1], is 0 iff the image is all black and is 1 iff it is all white |
| Brightness.MeanIsLevel | main.py:56 | the mean over 255 of n pixels summing to s lies in [0, 1], with its ends at sums 0 and 255 n |
| Brightness.Insert | main.py:60-62 | inserting an entry adds exactly that entry |
| Brightness.InsertSorted | main.py:60-62 | inserting into a sorted table keeps it sorted |
| Brightness.SortByValue | main.py:60-62 | `sorted` by value yields a sorted permutation of the entries |
| Brightness.InsertStable | main.py:60-62 | insertion places the new entry before all entries of equal value |
| Brightness.SortIsStable | main.py:60-62 | entries of equal value keep their input order (stability) |
| Brightness.WithValue | main.py:60-62 | the entries of one value, in table order, all holding that value (SortIsStable compares them before and after the sort) |
| Brightness.Values | main.py:63 | `list(d.values())`: one value per entry, entry i's value at position i |
| Brightness.Normalize | main.py:59-71 | an empty table raises IndexError, and a table with every value equal raises ZeroDivisionError. Otherwise the result has the same keys, ordered by value, with ties in input order; the first value is 0, the last 1, every value is in [0, 1], the values compare as the sorted input's do, and entry i is the sorted entry i's value minus the least, over the greatest minus the least |
| Brightness.RescaleIsRescaled | main.py:63-70 | subtracting the first value and dividing by the last minus the first gives, entry by entry, `(v - least) / (greatest - least)` with the key kept |
| Brightness.RescaledAt | main.py:63-70 | the rescaled entry at a position is that position's key with its value in proportion to the extremes |
| Brightness.RescaleNormalizes | main.py:63-70 | subtracting the least value and dividing by the new greatest maps a sorted table onto [0, 1] from 0 to 1 |
| Brightness.Rescale | main.py:64-70 | the two dict comprehensions fused: every entry keeps its key, and its value `v` becomes `(v - lo) / hi` |
| Brightness.RescaleOrder | main.py:64-70 | the rescaling keeps every comparison between values |
| Brightness.RescaleBounds | main.py:63-70 | the rescaled values lie in [0, 1], first 0, last 1 |
| Brightness.RescaleKeepsKeys | main.py:64-70 | the rescaled table has the input's set of keys |
| Brightness.InPermutation | main.py:60-62 | every entry of a permutation occurs in the other table |
| Brightness.SpreadIsZero | main.py:67-69 | the divisor is zero iff every value of the table is equal |
| Brightness.Scale | main.py:68-70 | division by a positive divisor keeps order and the bounds 0 and 1 |
| Brightness.RawTable | main.py:87 | the brightness of each glyph, in order, or ZeroDivisionError iff some glyph has no pixels |
| Brightness.CharTable | main.py:85-90 | no glyphs raises IndexError; a glyph without pixels, or all glyphs equally bright, raises ZeroDivisionError. Otherwise the table is normalized, has one entry per glyph, its keys are the glyph characters, and it lists them in the order of the stable sort of the raw brightnesses, equally bright glyphs in palette order; CharTableScales gives each entry's value |
| Brightness.CharTableKeepsTies | main.py:60-62 | of two equally bright glyphs, the earlier in the palette comes earlier in the table, which is the entry `round_to_char` prefers on a tie |
| Brightness.WithValueHas | main.py:60-62 | every entry of a given value is among the entries of that value |
| Brightness.WithValueOrder | main.py:60-62 | two entries of one value keep their order among the entries of that value |
| Brightness.WithValueFrom | main.py:60-62 | two entries of one value come from the table in the same order |
| Brightness.WithValueFromOne | main.py:60-62 | every entry of a given value comes from the table |
| Brightness.CharTableScales | main.py:85-90 | with `a` a darkest and `b` a brightest glyph, the two differ in brightness and the table holds, for every glyph, its character with the value (its brightness minus `a`'s) over (`b`'s minus `a`'s) |
| Brightness.ScaledEntry | main.py:59-71 | every entry of the unsorted table appears in the normalized table with its value rescaled by the least and greatest values |
| Brightness.SortedEnds | main.py:60-67 | the sorted table's first value is the least and its last the greatest of the input |
| Brightness.RawTableFacts | main.py:86-88 | the raw table's keys are the glyph characters, and its values are all equal iff every glyph is equally bright |
| Brightness.IndexOf | main.py:99-100 | `list.index` returns the first position holding the value |
| Brightness.Distances | main.py:103 | the `min` key: one distance per entry, entry i's `abs(value - brightness)` at position i |
| Brightness.Nearest | main.py:101-104 | the entry chosen is nearest the brightness, and every earlier entry is strictly farther |
| Brightness.RoundToChar | main.py:98-106 | an empty table raises ValueError; otherwise the character of the nearest entry, the first among equals |
| Brightness.IndexFindsNearest | main.py:99-105 | looking the minimal value up with `index` finds the nearest entry itself |
| Brightness.TieGoesToDarker | main.py:98-106 | in a sorted table, of two equally near entries the darker one wins |
| Brightness.ExactLevelMatches | main.py:98-106 | a brightness that some entry has exactly selects an entry with that value |
| Brightness.NearestMonotone | main.py:98-106 | a brighter cell never gets a darker character |
| PixelDiff.Difference | main.py:121 | `ImageChops.difference` is the absolute difference over the top-left overlap of the two images |
| PixelDiff.MeanDiff | main.py:120-122 | the mean difference raises ZeroDivisionError iff the images do not overlap; otherwise it is not negative, and it is 0 iff the images agree on the overlap |
| PixelDiff.DifferenceZero | main.py:120-122 | the summed difference is 0 iff the images agree on the overlap |
| PixelDiff.AgreeSameSize | main.py:120-122 | for images of one size, agreeing on the overlap is equality |
| PixelDiff.Diffs | main.py:119-122 | the mean difference of the cell to every glyph, in dict order |
| PixelDiff.BestGlyph | main.py:116-126 | no glyphs gives `""`; a glyph that does not overlap the cell raises ZeroDivisionError; otherwise the character of the first glyph of least difference |
| PixelDiff.CompareToChar | main.py:116-126 | the loop with `best_diff = -1` and the strict `<` returns exactly that |
| PixelDiff.ExactMatchWins | main.py:116-126 | among glyphs of the cell's size, the first glyph equal to the cell is chosen |
| Converters.CharGrid | main.py:110 | `round_to_char` applied to every brightness, keeping the grid's shape |
| Converters.Concat | main.py:129 | `"".join` of one-character strings is the string of those characters, in order |
| Converters.BrightnessConverter | main.py:93-112 | raises ZeroDivisionError iff some segment has no pixels. Otherwise it raises ValueError iff the table is empty and some row has a segment. Otherwise the text is the lines of nearest-entry characters, one per segment, joined by newlines |
| Converters.LevelsFail | main.py:96 | the brightness grid raises only with ZeroDivisionError, on a segment without pixels |
| Converters.LevelsOk | main.py:96 | a computed brightness grid has the segments' shape and their brightnesses |
| Converters.CharsFail | main.py:110 | the character grid raises only with ValueError, on an empty table and a non-empty row |
| Converters.CharsOk | main.py:108-111 | a computed character grid means the table was not empty (or no row had a segment), no segment was empty, and the lines are the nearest-entry characters of the segments |
| Converters.CharsArt | main.py:108-111 | the character grid over the segments' brightnesses is the nearest-entry characters of the segments |
| Converters.CellOk | main.py:98-106 | the character chosen for a segment is that of the table entry nearest its brightness |
| Converters.BestChar | main.py:116-126 | the character `compare_to_char` picks is a glyph's character |
| Converters.RowArt | main.py:129 | one character per segment when there are glyphs, an empty line otherwise |
| Converters.PxDiffArt | main.py:128-130 | the line drawn for every row of segments |
| Converters.GlyphGrid | main.py:129 | `compare_to_char` applied to every segment, keeping the grid's shape |
| Converters.PxDiffConverter | main.py:115-131 | raises ZeroDivisionError iff some segment does not overlap some glyph; otherwise the text is the best-glyph lines joined by newlines |
| Converters.GlyphsFail | main.py:129 | the glyph grid raises only with ZeroDivisionError, on a mismatch |
| Converters.GlyphsOk | main.py:128-130 | the computed cells, concatenated per row, are the best-glyph lines |
| Converters.RowOfBest | main.py:128-130 | `"".join` of a row of best characters is that row's line |
| Converters.RowArtChars | main.py:128-130 | every character drawn is a glyph's character |
| Converters.BrightnessReadBack | main.py:108-112 | `splitlines` of the brightness text gives back one line per row of segments, when no character is a line break and the last row is not empty |
| Converters.BrightnessArtReadBack | main.py:108-112 | the same stated on the lines the converter joins |
| Converters.BrightnessArtNoBreaks | main.py:108-111 | no line of the brightness drawing holds a break when no table character is one, and its last line has one character per segment of the last row |
| Converters.PxDiffReadBack | main.py:128-131 | the same for the pixel-difference text |
| Combiner.KeepsDiffRule | main.py:140-154 | the diagonal test raises IndexError iff the cell is not blank and a diagonal neighbour within the grid and within its own line's bounds lies past the end of a shorter line. Otherwise it holds iff the cell is blank, lies on the border, or has a blank diagonal neighbour |
| Combiner.DiagonalBlank | main.py:144-148 | one diagonal test of the `or` chain raises nothing but IndexError (KeepsDiffRule says when it raises and when it holds) |
| Combiner.KeepsDiff | main.py:140-154 | the condition of line 140, with all four diagonal tests built before `any` looks at them, raises nothing but IndexError (KeepsDiffRule says when it raises and when it holds) |
| Combiner.MergeCell | main.py:140-161 | a cell raises nothing but IndexError |
| Combiner.Merged | main.py:138-139 | every cell both `zip`s visit: the shorter drawing's line count, and the shorter line's length in each line |
| Combiner.MergeRows | main.py:138-162 | the lines the nested loops build, the first IndexError in visiting order otherwise (MergeRule describes both) |
| Combiner.MergeRule | main.py:138-162 | raises IndexError iff some visited cell meets a shorter neighbouring line. Otherwise min(line counts) lines of min(line lengths) characters: the difference character where the difference drawing is exposed (blank, border or blank diagonal), the brightness character elsewhere |
| Combiner.TerminatedSnoc | main.py:162 | appending a line and a newline extends the terminated text |
| Combiner.Combine | main.py:134-165 | the outer loop returns the merged lines, each followed by a newline, or raises the IndexError of the first failing cell |
| Combiner.Combination | main.py:134-165 | `combine_bstr_diffstr` on the two texts raises nothing but IndexError (CombinationReadBack reads its lines back, MergeRule gives them) |
| Combiner.CombineLine | main.py:139-161 | the inner loop returns line i of the merge, or raises the IndexError of its first failing cell |
| Combiner.CellFails | main.py:140-154 | one failing cell makes its line raise IndexError |
| Combiner.RowCollects | main.py:139-161 | a row whose cells all succeed collects to the line built so far |
| Combiner.AllRowsCollect | main.py:138-162 | rows that all succeed collect to the lines built |
| Combiner.RowFails | main.py:138-154 | one failing line makes the whole merge raise IndexError |
| Combiner.UniformNeverRaises | main.py:140-154 | over a difference drawing whose lines all have one length, nothing raises |
| Combiner.NotRagged | main.py:144-148 | a cell whose neighbouring lines are as long as its own never raises |
| Combiner.SelfCombination | main.py:134-165 | combining a uniform drawing with itself gives its lines back, each followed by a newline |
| Combiner.ThinDrawingKeepsDiff | main.py:144-147 | a uniform drawing at most two lines high or two characters wide is all border, so the result is the difference drawing, cut to the brightness drawing's size |
| Combiner.ThinCell | main.py:144-147 | every cell of such a drawing is exposed |
| Combiner.CombinationReadBack | main.py:134-165 | `splitlines` of the combined text gives back the merged lines |
| Combiner.PxDiffDrawingCombines | main.py:134-165 | the combination over a pixel-difference drawing of a grid with one cell count per row never raises |
| Combiner.PxDiffArtUniform | main.py:128-130 | the pixel-difference drawing of such a grid has lines of one length |
| Combiner.ShortLineRaises | main.py:144-148 | brightness lines `ab`, `abc` with difference lines `a`, `xyz`, `abc` raise IndexError: the first cell that raises is the `x` at (1, 0), whose (-1, +1) test looks up `diffmap[0][1]` in the line `a` |
| Combiner.OrthogonalNeighbourIrrelevant | main.py:140-154 | rewriting the cell above, below, left or right of a cell never changes its test |


## Left out

- The Pillow operations are not modelled: `convert`, the RGBA `paste` onto
  white, the pixels `crop` copies, `resize`, and fonts. `divide_image` is
  modelled by its crop boxes (`Segmenter`). The converters take the cells and
  glyphs as given single-band integer grids.
- ImageStat is modelled as sum over count on one band, so an image without
  pixels raises ZeroDivisionError. Multi-band means, averaged by `fmean`, are
  not modelled.
- Segment sizes: `main` resizes every glyph to the first segment's size, and
  other segments may differ by a pixel. `PixelDiff.Difference` therefore
  models ImageChops over the top-left overlap instead of requiring equal
  sizes.
- `gen_char_images` is not modelled. It rasterizes with `font.getbbox` and
  `draw.text`. The glyphs are a parameter: a sequence of (character, bitmap)
  pairs in dict order, whose characters are taken to be distinct, as dict
  keys are.
- The command line is not modelled: `main`, the `Algorithm` enum, typer
  arguments, and loading the image and font.
- Printing in the `do_print`/`serial` branches is left out; it does not
  change the returned strings.
- Floating point: widths, steps, brightnesses and mean differences are exact
  reals. IEEE rounding, such as `(xi + 1) * x_step` landing just past the
  width, is not modelled.
- Segmenter.DivideImage: a negative width, height or column count is
  excluded by the types (`nat`). A negative glyph ratio is excluded by
  `requires`, because with one Python would compute a negative row count.
- Grid.Map2DInPlace: the in-place branch is modelled for functions from a
  type to itself, over distinct row arrays. A function that raises part-way,
  leaving the grid partly rewritten, is not modelled.
- Grid.SplitLines models `str.splitlines` on the code points listed in
  `IsBreak`, with `\r\n` as one break. Case folding and other Unicode
  processing are irrelevant here and are left out.
- Combiner.Combine: the inner loop is the method `CombineLine`, which
  returns each line to the outer loop. Python appends character by
  character to one string; the returned text is the same.
- Combiner.Combine: the combined text is returned; the lines printed along
  the way in serial mode are not modelled.

## Findings

| source | as written | input that shows it | evidently intended | confidence | as-written member | corrected member |
|---|---|---|---|---|---|---|
| main.py:18 | the padded height is `int(y_step * y_segs)`, truncated, while the crop edges are rounded | a 10 by 3 image, `x_segs` 10, glyph ratio 1.3: 3 rows, padded to 3 pixels instead of 3.9, so the last row is [3, 3), an empty crop whose mean raises ZeroDivisionError in the brightness converter | pad to the rounded height, so that whenever cells are at least a pixel tall the last row is not empty | not executed | Segmenter.TruncatedPaddingEmptiesLastRow | Segmenter.RoundedPaddingKeepsCellsNonEmpty |

/** The brightness matcher: each glyph's brightness, the palette table
    normalized onto [0, 1], and the character nearest to a segment's
    brightness. */
module Brightness {
  import opened Errors
  import opened Bitmaps
  import opened ArgMin
  import opened Grid

  /** `get_brightness`: the mean grey level over 255. Pillow divides the pixel
      sum by the pixel count, so an image without pixels raises. */
  function Level(img: Bitmap): (r: Result<real>)
    ensures r.Failure? <==> |Pixels(img)| == 0
    ensures Rectangular(img) ==> (r.Failure? <==> |img| == 0 || Width(img) == 0)
    ensures r.Failure? ==> r.error == ZeroDivisionError
    ensures r.Success? && IsGrey(img) ==> 0.0 <= r.value <= 1.0
    ensures r.Success? && IsGrey(img) ==> (r.value == 0.0 <==> AllPixels(img, 0))
    ensures r.Success? && IsGrey(img) ==> (r.value == 1.0 <==> AllPixels(img, 255))
  {
    var px := Pixels(img);
    NoPixels(img);
    if |px| == 0 then Failure(ZeroDivisionError)
    else
      GreyMean(img);
      Success(Sum(px) as real / |px| as real / 255.0)
  }

  /** What the pixel bounds say about the mean level of a grey image. */
  lemma GreyMean(img: Bitmap)
    requires |Pixels(img)| > 0
    ensures var px := Pixels(img);
      IsGrey(img) ==>
        && 0.0 <= Sum(px) as real / |px| as real / 255.0 <= 1.0
        && (Sum(px) as real / |px| as real / 255.0 == 0.0 <==> AllPixels(img, 0))
        && (Sum(px) as real / |px| as real / 255.0 == 1.0 <==> AllPixels(img, 255))
  {
    var px := Pixels(img);
    if IsGrey(img) {
      GreyPixels(img);
      SumZero(px);
      SumWhite(px);
      MeanIsLevel(Sum(px) as real, |px| as real);
      PixelsAll(img, 0);
      PixelsAll(img, 255);
    }
  }

  lemma MeanIsLevel(s: real, n: real)
    requires n > 0.0 && 0.0 <= s <= 255.0 * n
    ensures 0.0 <= s / n / 255.0 <= 1.0
    ensures s / n / 255.0 == 0.0 <==> s == 0.0
    ensures s / n / 255.0 == 1.0 <==> s == 255.0 * n
  {
    var m := s / n;
    assert m * n == s;
    assert (255.0 - m) * n == 255.0 * n - s;
  }

  /** One entry of the character–brightness table. Python's dict keeps
      insertion order, so the table is a sequence. */
  datatype Entry = Entry(ch: char, value: real)

  function Values(t: seq<Entry>): (r: seq<real>)
    ensures |r| == |t| && forall i :: 0 <= i < |t| ==> r[i] == t[i].value
  {
    if |t| == 0 then [] else [t[0].value] + Values(t[1..])
  }

  ghost predicate Sorted(t: seq<Entry>)
  {
    forall i, j :: 0 <= i < j < |t| ==> t[i].value <= t[j].value
  }

  /** Puts `e` in front of the first element not darker than it. */
  function Insert(e: Entry, s: seq<Entry>): (r: seq<Entry>)
    ensures |r| == |s| + 1
    ensures r[0] == e || (|s| > 0 && r[0] == s[0])
    ensures multiset(r) == multiset(s) + multiset{e}
  {
    if |s| == 0 || e.value <= s[0].value then
      [e] + s
    else
      assert s == [s[0]] + s[1..];
      [s[0]] + Insert(e, s[1..])
  }

  lemma {:induction false} InsertSorted(e: Entry, s: seq<Entry>)
    requires Sorted(s)
    ensures Sorted(Insert(e, s))
  {
    if |s| > 0 && s[0].value < e.value {
      var rest := Insert(e, s[1..]);
      InsertSorted(e, s[1..]);
      assert s[0].value <= rest[0].value;
      assert Insert(e, s) == [s[0]] + rest;
    }
  }

  /** `sorted(..., key=lambda item: item[1])`, a stable sort on the values. */
  function SortByValue(t: seq<Entry>): (r: seq<Entry>)
    ensures Sorted(r)
    ensures |r| == |t|
    ensures multiset(r) == multiset(t)
  {
    if |t| == 0 then []
    else
      assert t == [t[0]] + t[1..];
      InsertSorted(t[0], SortByValue(t[1..]));
      Insert(t[0], SortByValue(t[1..]))
  }

  /** The entries of `t` whose value is `v`, in their order in `t`. */
  function WithValue(t: seq<Entry>, v: real): (r: seq<Entry>)
    ensures forall i :: 0 <= i < |r| ==> r[i].value == v
  {
    if |t| == 0 then []
    else (if t[0].value == v then [t[0]] else []) + WithValue(t[1..], v)
  }

  lemma {:induction false} InsertStable(e: Entry, s: seq<Entry>, v: real)
    ensures WithValue(Insert(e, s), v)
         == (if e.value == v then [e] else []) + WithValue(s, v)
  {
    if |s| == 0 || e.value <= s[0].value {
      assert ([e] + s)[1..] == s;
    } else {
      var rest := Insert(e, s[1..]);
      assert ([s[0]] + rest)[1..] == rest;
      InsertStable(e, s[1..], v);
      calc {
        WithValue(Insert(e, s), v);
        (if s[0].value == v then [s[0]] else []) + WithValue(rest, v);
        (if s[0].value == v then [s[0]] else [])
          + ((if e.value == v then [e] else []) + WithValue(s[1..], v));
        { assert s[0].value < e.value; }
        (if e.value == v then [e] else [])
          + ((if s[0].value == v then [s[0]] else []) + WithValue(s[1..], v));
      }
    }
  }

  /** The sort is stable: entries of equal value keep their order. */
  lemma {:induction false} SortIsStable(t: seq<Entry>, v: real)
    ensures WithValue(SortByValue(t), v) == WithValue(t, v)
  {
    if |t| > 0 {
      InsertStable(t[0], SortByValue(t[1..]), v);
      SortIsStable(t[1..], v);
    }
  }

  ghost predicate AllEqual(t: seq<Entry>)
  {
    forall i, j :: 0 <= i < |t| && 0 <= j < |t| ==> t[i].value == t[j].value
  }

  /** A table that `round_to_char` can rely on: ordered from darkest to
      lightest, running from exactly 0 to exactly 1. */
  ghost predicate IsNormalized(n: seq<Entry>)
  {
    && |n| > 0
    && n[0].value == 0.0
    && n[|n| - 1].value == 1.0
    && Sorted(n)
    && forall i :: 0 <= i < |n| ==> 0.0 <= n[i].value <= 1.0
  }

  /** `n` relabels `s` without reordering it: same keys in the same places,
      and the values compare as the originals do. */
  ghost predicate SameOrder(n: seq<Entry>, s: seq<Entry>)
  {
    && |n| == |s|
    && (forall i :: 0 <= i < |n| ==> n[i].ch == s[i].ch)
    && forall i, j :: 0 <= i < |n| && 0 <= j < |n| ==>
         (n[i].value <= n[j].value <==> s[i].value <= s[j].value)
  }

  /** The characters a table maps. */
  function KeySet(t: seq<Entry>): set<char>
  {
    set e | e in t :: e.ch
  }

  /** `n` has as many entries as `t` and maps the same characters; since a
      dict's keys are distinct, `n` lists `t`'s keys in some order. */
  ghost predicate SameKeys(n: seq<Entry>, t: seq<Entry>)
  {
    |n| == |t| && KeySet(n) == KeySet(t)
  }

  /** `normalize_brightnesses`: sort by brightness, subtract the darkest
      value, divide by the lightest one. An empty table has no first value;
      a table whose values are all equal divides by zero. */
  function Normalize(t: seq<Entry>): (r: Result<seq<Entry>>)
    ensures |t| == 0 ==> r == Failure(IndexError)
    ensures |t| > 0 ==> (r.Failure? <==> AllEqual(t))
    ensures |t| > 0 && r.Failure? ==> r.error == ZeroDivisionError
    ensures r.Success? ==> IsNormalized(r.value) && SameOrder(r.value, SortByValue(t))
    ensures r.Success? ==> SameKeys(r.value, t)
    ensures r.Success? ==> Rescaled(r.value, SortByValue(t))
  {
    if |t| == 0 then Failure(IndexError)
    else
      var s := SortByValue(t);
      var lo := s[0].value;
      var hi := s[|s| - 1].value - lo;
      SpreadIsZero(t, s);
      if hi == 0.0 then Failure(ZeroDivisionError)
      else
        var n := Rescale(s, lo, hi);
        RescaleNormalizes(s);
        RescaleKeepsKeys(n, s, t);
        RescaleIsRescaled(s);
        Success(n)
  }

  /** Where `v` lies on the way from `lo` to `hi`, as a fraction of the
      span: 0 at `lo`, 1 at `hi`. */
  function Proportion(v: real, lo: real, hi: real): real
    requires lo != hi
  {
    (v - lo) / (hi - lo)
  }

  /** `n` is `s` with each value `v` replaced by its proportion between the
      first and the last value of `s`, which differ. */
  ghost predicate Rescaled(n: seq<Entry>, s: seq<Entry>)
  {
    && |n| == |s| > 0
    && s[|s| - 1].value != s[0].value
    && forall i :: 0 <= i < |s| ==>
         n[i] == Entry(s[i].ch, Proportion(s[i].value, s[0].value, s[|s| - 1].value))
  }

  /** Shifting by the first value and dividing by the spread rescales. */
  lemma RescaleIsRescaled(s: seq<Entry>)
    requires |s| > 0 && s[|s| - 1].value != s[0].value
    ensures Rescaled(Rescale(s, s[0].value, s[|s| - 1].value - s[0].value), s)
  {
  }

  lemma RescaledAt(n: seq<Entry>, s: seq<Entry>, k: int)
    requires Rescaled(n, s) && 0 <= k < |s|
    ensures n[k] == Entry(s[k].ch, Proportion(s[k].value, s[0].value, s[|s| - 1].value))
  {
  }

  /** Every value shifted by `lo` and divided by `hi`. */
  function Rescale(s: seq<Entry>, lo: real, hi: real): (n: seq<Entry>)
    requires hi != 0.0
    ensures |n| == |s|
    ensures forall i :: 0 <= i < |s| ==> n[i] == Entry(s[i].ch, (s[i].value - lo) / hi)
  {
    seq(|s|, i requires 0 <= i < |s| => Entry(s[i].ch, (s[i].value - lo) / hi))
  }

  /** Rescaling a sorted table of positive spread by its own extremes. */
  lemma RescaleNormalizes(s: seq<Entry>)
    requires |s| > 0 && Sorted(s) && s[|s| - 1].value - s[0].value != 0.0
    ensures IsNormalized(Rescale(s, s[0].value, s[|s| - 1].value - s[0].value))
    ensures SameOrder(Rescale(s, s[0].value, s[|s| - 1].value - s[0].value), s)
  {
    RescaleOrder(s, s[0].value, s[|s| - 1].value - s[0].value);
    RescaleBounds(s, s[0].value, s[|s| - 1].value - s[0].value);
  }

  lemma RescaleOrder(s: seq<Entry>, lo: real, hi: real)
    requires hi > 0.0
    ensures SameOrder(Rescale(s, lo, hi), s)
  {
    var n := Rescale(s, lo, hi);
    forall i, j | 0 <= i < |n| && 0 <= j < |n|
      ensures n[i].value <= n[j].value <==> s[i].value <= s[j].value
    {
      Scale(s[i].value - lo, s[j].value - lo, hi);
    }
  }

  lemma RescaleBounds(s: seq<Entry>, lo: real, hi: real)
    requires |s| > 0 && Sorted(s) && lo == s[0].value && hi == s[|s| - 1].value - lo && hi > 0.0
    ensures forall i :: 0 <= i < |s| ==> 0.0 <= Rescale(s, lo, hi)[i].value <= 1.0
    ensures Rescale(s, lo, hi)[0].value == 0.0
    ensures Rescale(s, lo, hi)[|s| - 1].value == 1.0
  {
    var n := Rescale(s, lo, hi);
    forall i | 0 <= i < |n|
      ensures 0.0 <= n[i].value <= 1.0
    {
      Scale(s[i].value - lo, hi, hi);
    }
  }

  /** Relabelling a permutation of `t` position by position keeps `t`'s keys. */
  lemma RescaleKeepsKeys(n: seq<Entry>, s: seq<Entry>, t: seq<Entry>)
    requires |n| == |s| == |t| && multiset(s) == multiset(t)
    requires forall i :: 0 <= i < |s| ==> n[i].ch == s[i].ch
    ensures SameKeys(n, t)
  {
    forall e | e in s ensures e in t {
      assert e in multiset(s);
    }
    forall e | e in t ensures e in s {
      assert e in multiset(t);
    }
    assert KeySet(s) == KeySet(t);
    forall c | c in KeySet(n) ensures c in KeySet(s) {
      var e :| e in n && e.ch == c;
      var i :| 0 <= i < |n| && n[i] == e;
      assert s[i] in s;
    }
    forall c | c in KeySet(s) ensures c in KeySet(n) {
      var e :| e in s && e.ch == c;
      var i :| 0 <= i < |s| && s[i] == e;
      assert n[i] in n;
    }
  }

  /** Every element of a permutation of `t` occurs in `t`. */
  lemma InPermutation(s: seq<Entry>, t: seq<Entry>, j: int)
    requires multiset(s) == multiset(t) && 0 <= j < |s|
    ensures exists i :: 0 <= i < |t| && t[i] == s[j]
  {
    assert s[j] in multiset(s);
    assert s[j] in multiset(t);
  }

  /** A sorted permutation spans no range exactly when all values agree. */
  lemma SpreadIsZero(t: seq<Entry>, s: seq<Entry>)
    requires |t| > 0 && |s| == |t| && Sorted(s) && multiset(s) == multiset(t)
    ensures s[0].value == s[|s| - 1].value <==> AllEqual(t)
  {
    if s[0].value == s[|s| - 1].value {
      forall i | 0 <= i < |t|
        ensures t[i].value == s[0].value
      {
        InPermutation(t, s, i);
      }
    }
    InPermutation(s, t, 0);
    InPermutation(s, t, |s| - 1);
  }

  /** Dividing by a positive span keeps order and maps [0, h] onto [0, 1]. */
  lemma Scale(a: real, b: real, h: real)
    requires h > 0.0
    ensures a <= b <==> a / h <= b / h
    ensures 0.0 <= a ==> 0.0 <= a / h
    ensures a <= h ==> a / h <= 1.0
  {
    assert (a / h) * h == a && (b / h) * h == b;
    if a / h <= b / h {
      assert (a / h) * h <= (b / h) * h;
    }
  }

  /** The characters of a palette. */
  function GlyphChars(glyphs: seq<Glyph>): set<char>
  {
    set g | g in glyphs :: g.ch
  }

  /** Every glyph of the palette is equally bright. */
  ghost predicate AllSameLevel(glyphs: seq<Glyph>)
  {
    forall i, j :: 0 <= i < |glyphs| && 0 <= j < |glyphs| ==>
      Level(glyphs[i].bitmap) == Level(glyphs[j].bitmap)
  }

  /** The dict comprehension of `get_char_brightness_dict`: each glyph's
      brightness, raising on the first glyph that has no pixels. */
  function RawTable(glyphs: seq<Glyph>): (r: Result<seq<Entry>>)
    ensures r.Failure? <==> exists i :: 0 <= i < |glyphs| && |Pixels(glyphs[i].bitmap)| == 0
    ensures r.Failure? ==> r.error == ZeroDivisionError
    ensures r.Success? ==> |r.value| == |glyphs|
    ensures r.Success? ==> forall i :: 0 <= i < |glyphs| ==>
      Level(glyphs[i].bitmap) == Success(r.value[i].value) && r.value[i].ch == glyphs[i].ch
  {
    if |glyphs| == 0 then Success([])
    else
      match Level(glyphs[0].bitmap)
      case Failure(e) => Failure(e)
      case Success(v) =>
        match RawTable(glyphs[1..])
        case Failure(e) => Failure(e)
        case Success(rest) => Success([Entry(glyphs[0].ch, v)] + rest)
  }

  /** Every glyph has pixels, so that its brightness is defined. */
  ghost predicate AllLit(glyphs: seq<Glyph>)
  {
    forall i :: 0 <= i < |glyphs| ==> Level(glyphs[i].bitmap).Success?
  }

  /** `get_char_brightness_dict`: the normalized brightness of every glyph.
      The table lists the glyphs from darkest to brightest, and each glyph's
      entry is its brightness moved and scaled so that the darkest glyph
      gets 0 and the brightest 1 (see CharTableScales). */
  function CharTable(glyphs: seq<Glyph>): (r: Result<seq<Entry>>)
    ensures |glyphs| == 0 ==> r == Failure(IndexError)
    ensures (exists i :: 0 <= i < |glyphs| && |Pixels(glyphs[i].bitmap)| == 0) ==> r == Failure(ZeroDivisionError)
    ensures |glyphs| > 0 && (forall i :: 0 <= i < |glyphs| ==> |Pixels(glyphs[i].bitmap)| > 0) ==>
      (r.Failure? <==> AllSameLevel(glyphs))
    ensures |glyphs| > 0 && r.Failure? ==> r.error == ZeroDivisionError
    ensures r.Success? ==> IsNormalized(r.value) && |r.value| == |glyphs|
    ensures r.Success? ==> KeySet(r.value) == GlyphChars(glyphs)
    ensures r.Success? ==> RawTable(glyphs).Success? && SameOrder(r.value, SortByValue(RawTable(glyphs).value))
  {
    match RawTable(glyphs)
    case Failure(e) => Failure(e)
    case Success(raw) =>
      RawTableFacts(glyphs, raw);
      Normalize(raw)
  }

  /** Equally bright glyphs keep their palette order in the table: the
      stable sort never swaps them, so `round_to_char`, which takes the
      first of equally near entries, prefers the earlier glyph. */
  lemma CharTableKeepsTies(glyphs: seq<Glyph>, i: int, j: int)
    requires CharTable(glyphs).Success?
    requires 0 <= i < j < |glyphs| && Level(glyphs[i].bitmap) == Level(glyphs[j].bitmap)
    ensures exists p, q :: (0 <= p < q < |CharTable(glyphs).value| &&
      CharTable(glyphs).value[p].ch == glyphs[i].ch && CharTable(glyphs).value[q].ch == glyphs[j].ch)
  {
    var raw := RawTable(glyphs).value;
    var t := CharTable(glyphs).value;
    var s := SortByValue(raw);
    var v := raw[i].value;
    assert raw[j].value == v;
    WithValueOrder(raw, v, i, j);
    SortIsStable(raw, v);
    var p', q' :| 0 <= p' < q' < |WithValue(s, v)| && WithValue(s, v)[p'] == raw[i] && WithValue(s, v)[q'] == raw[j];
    WithValueFrom(s, v, p', q');
    var p, q :| 0 <= p < q < |s| && s[p] == raw[i] && s[q] == raw[j];
    assert SameOrder(t, s);
    assert t[p].ch == glyphs[i].ch && t[q].ch == glyphs[j].ch;
  }

  /** An entry of value `v` is among the entries `WithValue` keeps. */
  lemma {:induction false} WithValueHas(t: seq<Entry>, v: real, j: int)
    requires 0 <= j < |t| && t[j].value == v
    ensures exists q :: 0 <= q < |WithValue(t, v)| && WithValue(t, v)[q] == t[j]
  {
    var h := if t[0].value == v then [t[0]] else [];
    if j == 0 {
      assert WithValue(t, v)[0] == t[0];
    } else {
      WithValueHas(t[1..], v, j - 1);
      var q :| 0 <= q < |WithValue(t[1..], v)| && WithValue(t[1..], v)[q] == t[j];
      assert WithValue(t, v)[|h| + q] == t[j];
    }
  }

  /** `WithValue` keeps two entries of value `v` in their order. */
  lemma {:induction false} WithValueOrder(t: seq<Entry>, v: real, i: int, j: int)
    requires 0 <= i < j < |t| && t[i].value == v && t[j].value == v
    ensures exists p, q :: 0 <= p < q < |WithValue(t, v)| && WithValue(t, v)[p] == t[i] && WithValue(t, v)[q] == t[j]
  {
    var w := WithValue(t, v);
    var h := if t[0].value == v then [t[0]] else [];
    if i == 0 {
      WithValueHas(t[1..], v, j - 1);
      var q :| 0 <= q < |WithValue(t[1..], v)| && WithValue(t[1..], v)[q] == t[j];
      assert w[0] == t[0] && w[1 + q] == t[j];
    } else {
      WithValueOrder(t[1..], v, i - 1, j - 1);
      var p, q :| 0 <= p < q < |WithValue(t[1..], v)| && WithValue(t[1..], v)[p] == t[i] && WithValue(t[1..], v)[q] == t[j];
      assert w[|h| + p] == t[i] && w[|h| + q] == t[j];
    }
  }

  /** Every entry `WithValue` keeps comes from `t`. */
  lemma {:induction false} WithValueFromOne(t: seq<Entry>, v: real, q: int)
    requires 0 <= q < |WithValue(t, v)|
    ensures exists j :: 0 <= j < |t| && t[j] == WithValue(t, v)[q]
  {
    var h := if t[0].value == v then [t[0]] else [];
    if q < |h| {
      assert WithValue(t, v)[q] == t[0];
    } else {
      WithValueFromOne(t[1..], v, q - |h|);
      var j :| 0 <= j < |t[1..]| && t[1..][j] == WithValue(t[1..], v)[q - |h|];
      assert t[j + 1] == WithValue(t, v)[q];
    }
  }

  /** Two entries `WithValue` keeps come from `t` in the same order. */
  lemma {:induction false} WithValueFrom(t: seq<Entry>, v: real, p: int, q: int)
    requires 0 <= p < q < |WithValue(t, v)|
    ensures exists i, j :: 0 <= i < j < |t| && t[i] == WithValue(t, v)[p] && t[j] == WithValue(t, v)[q]
  {
    var w := WithValue(t, v);
    var h := if t[0].value == v then [t[0]] else [];
    if p < |h| {
      WithValueFromOne(t[1..], v, q - 1);
      var j :| 0 <= j < |t[1..]| && t[1..][j] == WithValue(t[1..], v)[q - 1];
      assert t[0] == w[p] && t[j + 1] == w[q];
    } else {
      WithValueFrom(t[1..], v, p - |h|, q - |h|);
      var i, j :| 0 <= i < j < |t[1..]| && t[1..][i] == WithValue(t[1..], v)[p - |h|] && t[1..][j] == WithValue(t[1..], v)[q - |h|];
      assert t[i + 1] == w[p] && t[j + 1] == w[q];
    }
  }

  /** With `a` a darkest and `b` a brightest glyph, each glyph's entry in
      the table is its brightness minus `a`'s, divided by the span from `a`'s
      to `b`'s: `a` maps to 0, `b` to 1, and the others in proportion. */
  lemma CharTableScales(glyphs: seq<Glyph>, i: int, a: int, b: int)
    requires CharTable(glyphs).Success? && AllLit(glyphs)
    requires 0 <= i < |glyphs| && 0 <= a < |glyphs| && 0 <= b < |glyphs|
    requires forall j :: 0 <= j < |glyphs| ==>
      Level(glyphs[a].bitmap).value <= Level(glyphs[j].bitmap).value <= Level(glyphs[b].bitmap).value
    ensures Level(glyphs[a].bitmap).value < Level(glyphs[b].bitmap).value
    ensures exists k :: (0 <= k < |CharTable(glyphs).value| && CharTable(glyphs).value[k] ==
      Entry(glyphs[i].ch, Proportion(Level(glyphs[i].bitmap).value, Level(glyphs[a].bitmap).value, Level(glyphs[b].bitmap).value)))
  {
    var raw := RawTable(glyphs).value;
    var t := CharTable(glyphs).value;
    assert Normalize(raw) == Success(t);
    var s := SortByValue(raw);
    assert Rescaled(t, s);
    forall j | 0 <= j < |raw|
      ensures raw[a].value <= raw[j].value <= raw[b].value
    {
      assert Level(glyphs[j].bitmap) == Success(raw[j].value);
    }
    ScaledEntry(raw, s, t, i, a, b);
    assert raw[i] == Entry(glyphs[i].ch, Level(glyphs[i].bitmap).value);
    assert raw[a].value == Level(glyphs[a].bitmap).value && raw[b].value == Level(glyphs[b].bitmap).value;
  }

  /** The same for a table `t` rescaled from `s`, a sorted permutation of
      `raw`: entry `i` of `raw` appears in `t` with its value rescaled by
      the extremes `a` and `b`. */
  lemma ScaledEntry(raw: seq<Entry>, s: seq<Entry>, t: seq<Entry>, i: int, a: int, b: int)
    requires |s| == |raw| && Sorted(s) && multiset(s) == multiset(raw) && Rescaled(t, s)
    requires 0 <= i < |raw| && 0 <= a < |raw| && 0 <= b < |raw|
    requires forall j :: 0 <= j < |raw| ==> raw[a].value <= raw[j].value <= raw[b].value
    ensures raw[a].value < raw[b].value
    ensures exists k :: 0 <= k < |t| && t[k] == Entry(raw[i].ch, Proportion(raw[i].value, raw[a].value, raw[b].value))
  {
    SortedEnds(raw, s, a, b);
    InPermutation(raw, s, i);
    var k :| 0 <= k < |s| && s[k] == raw[i];
    RescaledAt(t, s, k);
  }

  /** The first and last entries of the sorted table hold its least and its
      greatest value, those of entries `a` and `b`. */
  lemma SortedEnds(raw: seq<Entry>, s: seq<Entry>, a: int, b: int)
    requires |s| == |raw| && Sorted(s) && multiset(s) == multiset(raw) && 0 <= a < |raw| && 0 <= b < |raw|
    requires forall j :: 0 <= j < |raw| ==> raw[a].value <= raw[j].value <= raw[b].value
    ensures s[0].value == raw[a].value && s[|s| - 1].value == raw[b].value
  {
    InPermutation(raw, s, a);
    var qa :| 0 <= qa < |s| && s[qa] == raw[a];
    InPermutation(raw, s, b);
    var qb :| 0 <= qb < |s| && s[qb] == raw[b];
    InPermutation(s, raw, 0);
    var p0 :| 0 <= p0 < |raw| && raw[p0] == s[0];
    InPermutation(s, raw, |s| - 1);
    var p1 :| 0 <= p1 < |raw| && raw[p1] == s[|s| - 1];
    assert s[0].value <= s[qa].value && s[qb].value <= s[|s| - 1].value;
  }

  lemma RawTableFacts(glyphs: seq<Glyph>, raw: seq<Entry>)
    requires RawTable(glyphs) == Success(raw)
    ensures KeySet(raw) == GlyphChars(glyphs)
    ensures AllEqual(raw) <==> AllSameLevel(glyphs)
  {
    forall c | c in KeySet(raw) ensures c in GlyphChars(glyphs) {
      var e :| e in raw && e.ch == c;
      var i :| 0 <= i < |raw| && raw[i] == e;
      assert glyphs[i] in glyphs;
    }
    forall c | c in GlyphChars(glyphs) ensures c in KeySet(raw) {
      var g :| g in glyphs && g.ch == c;
      var i :| 0 <= i < |glyphs| && glyphs[i] == g;
      assert raw[i] in raw;
    }
  }

  function Abs(x: real): real
  {
    if x < 0.0 then -x else x
  }

  /** How far each table value lies from the brightness `b`, the key of the
      `min` call in `round_to_char`. */
  function Distances(t: seq<Entry>, b: real): (d: seq<real>)
    ensures |d| == |t| && forall i :: 0 <= i < |t| ==> d[i] == Abs(t[i].value - b)
  {
    if |t| == 0 then [] else [Abs(t[0].value - b)] + Distances(t[1..], b)
  }

  /** `list.index`: the first position holding `x`. */
  function IndexOf(xs: seq<real>, x: real): (i: nat)
    requires x in xs
    ensures i < |xs| && xs[i] == x
    ensures forall j :: 0 <= j < i ==> xs[j] != x
  {
    if xs[0] == x then 0 else 1 + IndexOf(xs[1..], x)
  }

  /** Entry `k` is nearest to `b`, and strictly nearer than every earlier
      entry. */
  ghost predicate IsNearest(t: seq<Entry>, b: real, k: int)
  {
    IsFirstArgMin(Distances(t, b), k)
  }

  /** The first entry nearest to `b`: the element `min(values, key=...)`
      returns. */
  function Nearest(t: seq<Entry>, b: real): (k: nat)
    requires |t| > 0
    ensures IsNearest(t, b, k)
  {
    FirstArgMin(Distances(t, b))
  }

  /** `round_to_char`: `min` picks the first value nearest to `b`, `index`
      finds where that value first occurs, and the key there is returned.
      On an empty table `min` raises. The value found by `index` may only
      repeat at a later position, so the key is that of the nearest entry
      itself. */
  function RoundToChar(t: seq<Entry>, b: real): (r: Result<char>)
    ensures |t| == 0 <==> r == Failure(ValueError)
    ensures |t| > 0 ==> r == Success(t[Nearest(t, b)].ch)
  {
    if |t| == 0 then Failure(ValueError)
    else
      var values := Values(t);
      var i := IndexOf(values, values[Nearest(t, b)]);
      IndexFindsNearest(t, b);
      Success(t[i].ch)
  }

  /** No position before the nearest entry holds its value, since that
      position would be just as near. */
  lemma IndexFindsNearest(t: seq<Entry>, b: real)
    requires |t| > 0
    ensures IndexOf(Values(t), Values(t)[Nearest(t, b)]) == Nearest(t, b)
  {
    var k := Nearest(t, b);
    var i := IndexOf(Values(t), Values(t)[k]);
    assert t[i].value == t[k].value;
    assert Distances(t, b)[i] == Distances(t, b)[k];
  }

  /** In a sorted table a tie between a darker and a lighter level goes to the
      darker one. */
  lemma TieGoesToDarker(t: seq<Entry>, b: real, j: int)
    requires Sorted(t) && 0 <= j < |t|
    requires Abs(t[j].value - b) == Abs(t[Nearest(t, b)].value - b)
    ensures t[Nearest(t, b)].value <= t[j].value
  {
    var k := Nearest(t, b);
    assert !(Distances(t, b)[k] < Distances(t, b)[j]);
  }

  /** A brightness that is itself a table level gets a character at that
      level. */
  lemma ExactLevelMatches(t: seq<Entry>, b: real, j: int)
    requires 0 <= j < |t| && t[j].value == b
    ensures t[Nearest(t, b)].value == b
  {
    assert Distances(t, b)[Nearest(t, b)] <= Distances(t, b)[j];
  }

  /** On a sorted table a brighter segment never gets a darker character. */
  lemma NearestMonotone(t: seq<Entry>, b1: real, b2: real)
    requires |t| > 0 && Sorted(t) && b1 <= b2
    ensures t[Nearest(t, b1)].value <= t[Nearest(t, b2)].value
  {
    var k1, k2 := Nearest(t, b1), Nearest(t, b2);
    if b1 < b2 {
      assert Distances(t, b1)[k1] <= Distances(t, b1)[k2];
      assert Distances(t, b2)[k2] <= Distances(t, b2)[k1];
    }
  }
}

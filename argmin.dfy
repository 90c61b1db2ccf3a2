/** The selection rule both matchers share: the first position holding the
    least value, which is what Python's `min` and a running minimum updated
    only on a strict `<` both return. */
module ArgMin {

  /** `k` holds a least element of `xs` and every earlier element is larger. */
  ghost predicate IsFirstArgMin(xs: seq<real>, k: int)
  {
    && 0 <= k < |xs|
    && (forall j :: 0 <= j < |xs| ==> xs[k] <= xs[j])
    && (forall j :: 0 <= j < k ==> xs[k] < xs[j])
  }

  /** The running minimum of `xs`, scanned left to right, replaced only by a
      strictly smaller element. */
  function FirstArgMin(xs: seq<real>): (k: nat)
    requires |xs| > 0
    ensures IsFirstArgMin(xs, k)
    decreases |xs|
  {
    if |xs| == 1 then 0
    else
      var k := FirstArgMin(xs[..|xs| - 1]);
      if xs[|xs| - 1] < xs[k] then |xs| - 1 else k
  }

  /** At most one position is the first argmin. */
  lemma FirstArgMinUnique(xs: seq<real>, k: int, m: int)
    requires IsFirstArgMin(xs, k) && IsFirstArgMin(xs, m)
    ensures k == m
  {
    assert xs[k] <= xs[m] && xs[m] <= xs[k];
  }
}

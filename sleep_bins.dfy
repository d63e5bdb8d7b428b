/**
 * `pd.cut(hours, bins=[0, 4, 6, 8, 12], labels=[...])` with pandas' defaults
 * (`right=True`, `include_lowest=False`): the bins are (0,4], (4,6], (6,8] and
 * (8,12]; 0 and every value outside (0,12] get no category.
 */
module SleepBins {
  import opened Wrappers

  const Edges: seq<real> := [0.0, 4.0, 6.0, 8.0, 12.0]
  const Labels: seq<string> := ["Very Low", "Low", "Medium", "High"]

  predicate Increasing(edges: seq<real>) {
    forall i, j :: 0 <= i < j < |edges| ==> edges[i] < edges[j]
  }

  /**
   * How many edges lie strictly below `x`: numpy's `searchsorted(x, side="left")`.
   * On increasing edges it is the split point with every edge before it below
   * `x` and every edge from it on at least `x`.
   */
  function EdgesBelow(edges: seq<real>, x: real): (n: nat)
    requires Increasing(edges)
    ensures n <= |edges|
    ensures forall k :: 0 <= k < n ==> edges[k] < x
    ensures forall k :: n <= k < |edges| ==> x <= edges[k]
  {
    if edges == [] then 0 else (if edges[0] < x then 1 else 0) + EdgesBelow(edges[1..], x)
  }

  /**
   * The bin pandas assigns, as a label index: the edge position found by the
   * search, minus one, and no bin when the search lands before the first or
   * after the last edge. A bin k holds exactly the hours in (Edges[k], Edges[k+1]].
   */
  function Bin(h: real): (b: Option<nat>)
    ensures b.Some? <==> Edges[0] < h <= Edges[4]
    ensures b.Some? ==> b.value < |Labels| && Edges[b.value] < h <= Edges[b.value + 1]
  {
    assert Increasing(Edges);
    var n := EdgesBelow(Edges, h);
    if n == 0 || n == |Edges| then None else Some(n - 1)
  }

  /** The label of the bin, or `None` for the missing category. */
  function Category(h: real): (r: Option<string>)
    ensures 0.0 < h <= 4.0 ==> r == Some("Very Low")
    ensures 4.0 < h <= 6.0 ==> r == Some("Low")
    ensures 6.0 < h <= 8.0 ==> r == Some("Medium")
    ensures 8.0 < h <= 12.0 ==> r == Some("High")
    ensures r.None? <==> !(0.0 < h <= 12.0)
  {
    match Bin(h)
    case None => None
    case Some(k) => Some(Labels[k])
  }

  /** The boundary cases of the binning. */
  lemma CategoryExamples()
    ensures Category(4.0) == Some("Very Low")
    ensures Category(4.01) == Some("Low")
    ensures Category(8.0) == Some("Medium")
    ensures Category(9.0) == Some("High")
    ensures Category(12.0) == Some("High")
    ensures Category(0.0) == None
    ensures forall h :: h < 0.0 || h > 12.0 ==> Category(h) == None
  {
    assert Bin(4.0) == Some(0);
    assert Bin(4.01) == Some(1);
    assert Bin(8.0) == Some(2);
    assert Bin(9.0) == Some(3);
    assert Bin(12.0) == Some(3);
  }

  /** More sleep never gets a lower category. */
  lemma BinMonotone(h1: real, h2: real)
    requires h1 <= h2
    requires Bin(h1).Some? && Bin(h2).Some?
    ensures Bin(h1).value <= Bin(h2).value
  {
  }
}

/**
 * The column statistics the cleaner imputes with: the arithmetic mean and the
 * median of the present values, over exact reals.
 */
module Stats {

  function Sum(xs: seq<real>): real {
    if xs == [] then 0.0 else xs[0] + Sum(xs[1..])
  }

  /** The smallest value. */
  function Min(xs: seq<real>): (m: real)
    requires |xs| > 0
    ensures m in xs
    ensures forall i :: 0 <= i < |xs| ==> m <= xs[i]
  {
    if |xs| == 1 then xs[0]
    else
      var m := Min(xs[1..]);
      if xs[0] <= m then xs[0] else m
  }

  /** The largest value. */
  function Max(xs: seq<real>): (m: real)
    requires |xs| > 0
    ensures m in xs
    ensures forall i :: 0 <= i < |xs| ==> xs[i] <= m
  {
    if |xs| == 1 then xs[0]
    else
      var m := Max(xs[1..]);
      if xs[0] >= m then xs[0] else m
  }

  lemma {:induction false} SumAtLeast(xs: seq<real>, lo: real)
    requires forall i :: 0 <= i < |xs| ==> lo <= xs[i]
    ensures (|xs| as real) * lo <= Sum(xs)
  {
    if xs != [] {
      SumAtLeast(xs[1..], lo);
      assert (|xs| as real) * lo == ((|xs| - 1) as real) * lo + lo;
    }
  }

  lemma {:induction false} SumAtMost(xs: seq<real>, hi: real)
    requires forall i :: 0 <= i < |xs| ==> xs[i] <= hi
    ensures Sum(xs) <= (|xs| as real) * hi
  {
    if xs != [] {
      SumAtMost(xs[1..], hi);
      assert (|xs| as real) * hi == ((|xs| - 1) as real) * hi + hi;
    }
  }

  /** Dividing by a positive count keeps a quotient between the bounds its numerator has. */
  lemma DivideBetween(s: real, n: real, lo: real, hi: real)
    requires n > 0.0
    requires n * lo <= s <= n * hi
    ensures lo <= s / n <= hi
  {
    assert (s / n) * n == s;
  }

  /** The average of values that lie between two bounds lies between them too. */
  lemma AverageBetween(xs: seq<real>, lo: real, hi: real)
    requires |xs| > 0
    requires forall i :: 0 <= i < |xs| ==> lo <= xs[i] <= hi
    ensures lo <= Sum(xs) / (|xs| as real) <= hi
  {
    SumAtLeast(xs, lo);
    SumAtMost(xs, hi);
    DivideBetween(Sum(xs), |xs| as real, lo, hi);
  }

  /** pandas' `Series.mean()` over the present values: it lies between their minimum and maximum. */
  function Mean(xs: seq<real>): (m: real)
    requires |xs| > 0
    ensures Min(xs) <= m <= Max(xs)
  {
    AverageBetween(xs, Min(xs), Max(xs));
    Sum(xs) / (|xs| as real)
  }

  // ---------------------------------------------------------------- sorting

  predicate Sorted(s: seq<real>) {
    forall i, j :: 0 <= i < j < |s| ==> s[i] <= s[j]
  }

  /** `x` placed before the first value of `s` that is not smaller than it. */
  function Insert(x: real, s: seq<real>): (r: seq<real>)
    requires Sorted(s)
    ensures Sorted(r)
    ensures |r| == |s| + 1
    ensures forall k :: 0 <= k < |r| ==> x <= r[k] || (|s| > 0 && s[0] <= r[k])
  {
    if s == [] || x <= s[0] then
      assert forall j :: 0 <= j < |s| ==> x <= s[j];
      [x] + s
    else
      var t := Insert(x, s[1..]);
      assert forall k :: 0 <= k < |t| ==> s[0] <= t[k];
      [s[0]] + t
  }

  /** Inserting adds `x` and loses nothing. */
  lemma {:induction false} InsertPermutes(x: real, s: seq<real>)
    requires Sorted(s)
    ensures multiset(Insert(x, s)) == multiset(s) + multiset{x}
  {
    if s != [] && x > s[0] {
      InsertPermutes(x, s[1..]);
      assert s == [s[0]] + s[1..];
    }
  }

  /** The values in ascending order: a sorted permutation of the input. */
  function Sort(xs: seq<real>): (r: seq<real>)
    ensures Sorted(r)
    ensures |r| == |xs|
    ensures multiset(r) == multiset(xs)
  {
    if xs == [] then []
    else
      assert xs == [xs[0]] + xs[1..];
      InsertPermutes(xs[0], Sort(xs[1..]));
      Insert(xs[0], Sort(xs[1..]))
  }

  /** How many of the values are at most `m`. */
  function CountAtMost(xs: seq<real>, m: real): nat {
    if xs == [] then 0 else (if xs[0] <= m then 1 else 0) + CountAtMost(xs[1..], m)
  }

  /** How many of the values are at least `m`. */
  function CountAtLeast(xs: seq<real>, m: real): nat {
    if xs == [] then 0 else (if xs[0] >= m then 1 else 0) + CountAtLeast(xs[1..], m)
  }

  lemma {:induction false} InsertCounts(x: real, s: seq<real>, m: real)
    requires Sorted(s)
    ensures CountAtMost(Insert(x, s), m) == CountAtMost(s, m) + (if x <= m then 1 else 0)
    ensures CountAtLeast(Insert(x, s), m) == CountAtLeast(s, m) + (if x >= m then 1 else 0)
  {
    if s == [] || x <= s[0] {
      assert ([x] + s)[1..] == s;
    } else {
      InsertCounts(x, s[1..], m);
      assert ([s[0]] + Insert(x, s[1..]))[1..] == Insert(x, s[1..]);
    }
  }

  /** Sorting does not change how many values lie on either side of a point. */
  lemma {:induction false} SortCounts(xs: seq<real>, m: real)
    ensures CountAtMost(Sort(xs), m) == CountAtMost(xs, m)
    ensures CountAtLeast(Sort(xs), m) == CountAtLeast(xs, m)
  {
    if xs != [] {
      SortCounts(xs[1..], m);
      InsertCounts(xs[0], Sort(xs[1..]), m);
    }
  }

  /** Every value of `s[lo..hi]` at most `m` means at least `hi - lo` values at most `m`. */
  lemma {:induction false} CountAtMostRange(s: seq<real>, m: real, lo: nat, hi: nat)
    requires lo <= hi <= |s|
    requires forall k :: lo <= k < hi ==> s[k] <= m
    ensures CountAtMost(s, m) >= hi - lo
  {
    if lo < hi {
      CountAtMostRange(s[1..], m, if lo == 0 then 0 else lo - 1, hi - 1);
    }
  }

  lemma {:induction false} CountAtLeastRange(s: seq<real>, m: real, lo: nat, hi: nat)
    requires lo <= hi <= |s|
    requires forall k :: lo <= k < hi ==> s[k] >= m
    ensures CountAtLeast(s, m) >= hi - lo
  {
    if lo < hi {
      CountAtLeastRange(s[1..], m, if lo == 0 then 0 else lo - 1, hi - 1);
    }
  }

  /** The middle value of a sorted sequence, or the average of its two middle values. */
  function Middle(s: seq<real>): real
    requires |s| > 0
  {
    var h := |s| / 2;
    if |s| % 2 == 1 then s[h] else (s[h - 1] + s[h]) / 2.0
  }

  lemma MiddleSplits(s: seq<real>)
    requires |s| > 0 && Sorted(s)
    ensures 2 * CountAtMost(s, Middle(s)) >= |s|
    ensures 2 * CountAtLeast(s, Middle(s)) >= |s|
    ensures s[0] <= Middle(s) <= s[|s| - 1]
  {
    var n, h, m := |s|, |s| / 2, Middle(s);
    if n % 2 == 1 {
      CountAtMostRange(s, m, 0, h + 1);
    } else {
      CountAtMostRange(s, m, 0, h);
    }
    CountAtLeastRange(s, m, h, n);
  }

  /**
   * pandas' `Series.median()` over the present values: the middle value in
   * sorted order, or the average of the two middle values when the count is
   * even. At least half of the values lie on each side of it, and it lies
   * between the minimum and the maximum.
   */
  function Median(xs: seq<real>): (m: real)
    requires |xs| > 0
    ensures 2 * CountAtMost(xs, m) >= |xs|
    ensures 2 * CountAtLeast(xs, m) >= |xs|
    ensures Min(xs) <= m <= Max(xs)
  {
    var s := Sort(xs);
    assert s[0] in multiset(xs) && s[|s| - 1] in multiset(xs);
    MiddleSplits(s);
    SortCounts(xs, Middle(s));
    Middle(s)
  }
}

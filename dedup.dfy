/**
 * `DataFrame.drop_duplicates()` with its defaults: rows equal in every column
 * are duplicates, and the first occurrence of each is kept where it stands.
 */
module Dedup {

  /** No two elements are equal. */
  predicate Distinct<T(==)>(s: seq<T>) {
    forall i, j :: 0 <= i < j < |s| ==> s[i] != s[j]
  }

  /** Position `i` holds the first occurrence of its element. */
  predicate IsFirst<T(==)>(s: seq<T>, i: nat)
    requires i < |s|
  {
    s[i] !in s[..i]
  }

  /** The rows with every repeat of an earlier row removed. */
  function DropDuplicates<T(==)>(s: seq<T>): (r: seq<T>)
    ensures forall i :: 0 <= i < |s| ==> s[i] in r
    ensures forall k :: 0 <= k < |r| ==> r[k] in s
    ensures Distinct(r)
    ensures |r| <= |s|
  {
    if s == [] then []
    else
      var p := DropDuplicates(s[..|s| - 1]);
      var x := s[|s| - 1];
      assert s == s[..|s| - 1] + [x];
      if x in p then p else p + [x]
  }

  /** The positions of first occurrences, in increasing order. */
  function FirstPositions<T(==)>(s: seq<T>): (ix: seq<nat>)
    ensures forall k :: 0 <= k < |ix| ==> ix[k] < |s| && IsFirst(s, ix[k])
    ensures forall k, l :: 0 <= k < l < |ix| ==> ix[k] < ix[l]
    ensures forall i :: 0 <= i < |s| && IsFirst(s, i) ==> i in ix
  {
    if s == [] then []
    else
      var n := |s| - 1;
      var p := FirstPositions(s[..n]);
      assert forall i :: 0 <= i < n ==> s[..n][..i] == s[..i];
      if s[n] in s[..n] then p else p + [n]
  }

  /**
   * What is kept is exactly the first occurrence of every row, in the input's
   * order: the k-th kept row is the row at the k-th first-occurrence position.
   */
  lemma {:induction false} KeepsFirstOccurrences<T>(s: seq<T>)
    ensures |DropDuplicates(s)| == |FirstPositions(s)|
    ensures forall k :: 0 <= k < |DropDuplicates(s)| ==>
      DropDuplicates(s)[k] == s[FirstPositions(s)[k]]
  {
    if s != [] {
      var n := |s| - 1;
      KeepsFirstOccurrences(s[..n]);
      var p := DropDuplicates(s[..n]);
      assert s[n] in p <==> s[n] in s[..n];
    }
  }

  /** A sequence without duplicates is left as it is. */
  lemma {:induction false} DistinctUnchanged<T>(s: seq<T>)
    requires Distinct(s)
    ensures DropDuplicates(s) == s
  {
    if s != [] {
      var n := |s| - 1;
      DistinctUnchanged(s[..n]);
      assert s[n] !in s[..n];
      assert s == s[..n] + [s[n]];
    }
  }

  /** Dropping duplicates twice is the same as dropping them once. */
  lemma DropDuplicatesIdempotent<T>(s: seq<T>)
    ensures DropDuplicates(DropDuplicates(s)) == DropDuplicates(s)
  {
    DistinctUnchanged(DropDuplicates(s));
  }
}

/** The loader's batching: `data[i:i + 100]` for `i` in `range(0, len(data), 100)`. */
module Batching {

  const BatchSize: nat := 100

  function Min(a: int, b: int): int {
    if a <= b then a else b
  }

  /**
   * The batches of `data`: each non-empty and at most `BatchSize` long, all
   * but the last exactly `BatchSize` long, ceil(n / BatchSize) of them.
   */
  function Batches<T>(data: seq<T>): (bs: seq<seq<T>>)
    ensures |bs| == (|data| + BatchSize - 1) / BatchSize
    ensures forall k :: 0 <= k < |bs| ==> 0 < |bs[k]| <= BatchSize
    ensures forall k :: 0 <= k < |bs| - 1 ==> |bs[k]| == BatchSize
    decreases |data|
  {
    if data == [] then []
    else
      var m := Min(|data|, BatchSize);
      var rest := Batches(data[m..]);
      assert m < BatchSize ==> rest == [];
      [data[..m]] + rest
  }

  /** The concatenation of a sequence of sequences. */
  function Flatten<T>(bs: seq<seq<T>>): seq<T> {
    if bs == [] then [] else bs[0] + Flatten(bs[1..])
  }

  lemma {:induction false} FlattenAppend<T>(bs: seq<seq<T>>, b: seq<T>)
    ensures Flatten(bs + [b]) == Flatten(bs) + b
  {
    if bs != [] {
      assert (bs + [b])[1..] == bs[1..] + [b];
      FlattenAppend(bs[1..], b);
    }
  }

  /** The batches, put back together, are the data in order. */
  lemma {:induction false} BatchesPartition<T>(data: seq<T>)
    ensures Flatten(Batches(data)) == data
    decreases |data|
  {
    if data != [] {
      var m := Min(|data|, BatchSize);
      BatchesPartition(data[m..]);
      assert Batches(data)[1..] == Batches(data[m..]);
      assert data == data[..m] + data[m..];
    }
  }

  /** Batch `k` is the slice the loop's `k`-th offset cuts: `data[100k : 100k + 100]`. */
  lemma {:induction false} BatchAt<T>(data: seq<T>, k: nat)
    requires k < |Batches(data)|
    ensures BatchSize * k < |data|
    ensures Batches(data)[k] == data[BatchSize * k..Min(BatchSize * k + BatchSize, |data|)]
    decreases |data|
  {
    var m := Min(|data|, BatchSize);
    if k > 0 {
      var rest := data[m..];
      assert Batches(data)[k] == Batches(rest)[k - 1];
      BatchAt(rest, k - 1);
      assert m == BatchSize;
      assert rest[BatchSize * (k - 1)..Min(BatchSize * (k - 1) + BatchSize, |rest|)]
          == data[BatchSize * k..Min(BatchSize * k + BatchSize, |data|)];
    }
  }
}

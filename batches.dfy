/** How `processInBatches` cuts its list into the chunks it submits. */
module Batches {

  /** Chunk size of the batch saver (NextDnsTaskRunner.BATCH_SIZE). */
  const BatchSize: nat := 50

  function Min(a: int, b: int): int
  {
    if a < b then a else b
  }

  /** The chunks `items[i..min(i + 50, n)]` for i = 0, 50, 100, ... */
  function Slices<T>(items: seq<T>): seq<seq<T>>
    decreases |items|
  {
    if items == [] then []
    else
      var n := Min(BatchSize, |items|);
      [items[..n]] + Slices(items[n..])
  }

  function Flatten<T>(chunks: seq<seq<T>>): seq<T>
  {
    if chunks == [] then [] else chunks[0] + Flatten(chunks[1..])
  }

  /** The chunks, concatenated in order, give back the input: nothing is lost, duplicated or
      reordered. */
  lemma {:induction false} SlicesFlatten<T>(items: seq<T>)
    ensures Flatten(Slices(items)) == items
    decreases |items|
  {
    if items != [] {
      var n := Min(BatchSize, |items|);
      SlicesFlatten(items[n..]);
      assert Slices(items)[1..] == Slices(items[n..]);
      assert items[..n] + items[n..] == items;
    }
  }

  /** Every chunk holds between 1 and 50 items. */
  lemma {:induction false} SlicesSizes<T>(items: seq<T>)
    ensures forall j :: 0 <= j < |Slices(items)| ==> 1 <= |Slices(items)[j]| <= BatchSize
    decreases |items|
  {
    if items != [] {
      var n := Min(BatchSize, |items|);
      SlicesSizes(items[n..]);
      assert Slices(items)[1..] == Slices(items[n..]);
    }
  }

  /** There are ceil(n / 50) chunks; in particular an empty list gives none, so the saver is
      never called. */
  lemma {:induction false} SlicesCount<T>(items: seq<T>)
    ensures |Slices(items)| == (|items| + BatchSize - 1) / BatchSize
    ensures items == [] <==> Slices(items) == []
    decreases |items|
  {
    if items != [] {
      var n := Min(BatchSize, |items|);
      SlicesCount(items[n..]);
    }
  }

  /** Chunk `k` exists exactly while the loop index 50 * k is still below the length. */
  lemma {:induction false} SlicesCountIff<T>(items: seq<T>, k: nat)
    ensures k < |Slices(items)| <==> BatchSize * k < |items|
    decreases |items|
  {
    if items != [] && k > 0 {
      var n := Min(BatchSize, |items|);
      SlicesCountIff(items[n..], k - 1);
    }
  }

  /** Chunk `k` is the slice `items[50 * k .. min(50 * k + 50, n)]`, which the loop cuts at
      index i = 50 * k. */
  lemma {:induction false} SliceAt<T>(items: seq<T>, k: nat)
    requires k < |Slices(items)|
    ensures BatchSize * k < |items|
    ensures Slices(items)[k] == items[BatchSize * k .. Min(BatchSize * k + BatchSize, |items|)]
    decreases |items|
  {
    var n := Min(BatchSize, |items|);
    if k > 0 {
      SliceAt(items[n..], k - 1);
      assert Slices(items)[k] == Slices(items[n..])[k - 1];
      assert items[n..][BatchSize * (k - 1) .. Min(BatchSize * (k - 1) + BatchSize, |items| - n)]
          == items[BatchSize * k .. Min(BatchSize * k + BatchSize, |items|)];
    }
  }
}

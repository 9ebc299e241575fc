/** Sequences of batches and the messages in them. */
module Batches {
  function Flat<T>(batches: seq<seq<T>>): seq<T> {
    if batches == [] then [] else Flat(batches[..|batches| - 1]) + batches[|batches| - 1]
  }

  lemma FlatAppend<T>(batches: seq<seq<T>>, b: seq<T>)
    ensures Flat(batches + [b]) == Flat(batches) + b
  {
    assert (batches + [b])[..|batches|] == batches;
  }

  lemma {:induction false} FlatPrefix<T>(batches: seq<seq<T>>, n: nat)
    requires n <= |batches|
    ensures Flat(batches[..n]) <= Flat(batches)
    decreases |batches| - n
  {
    if n == |batches| {
      assert batches[..n] == batches;
    } else {
      FlatPrefix(batches, n + 1);
      assert batches[..n + 1][..n] == batches[..n];
    }
  }

  lemma FlatNext<T>(batches: seq<seq<T>>, i: nat)
    requires i < |batches|
    ensures Flat(batches[..i + 1]) == Flat(batches[..i]) + batches[i]
  {
    assert batches[..i + 1][..i] == batches[..i];
  }
}

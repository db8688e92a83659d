/** Concatenating the images of a sequence's elements, as a comprehension
    over a list does. */
module Seqs {

  function FlatMap<A, B>(xs: seq<A>, f: A -> seq<B>): seq<B> {
    if xs == [] then [] else f(xs[0]) + FlatMap(xs[1..], f)
  }

  lemma {:induction false} FlatMapCover<A, B>(xs: seq<A>, f: A -> seq<B>, k: nat, y: B)
    requires k < |xs| && y in f(xs[k])
    ensures y in FlatMap(xs, f)
  {
    if k > 0 {
      assert xs[1..][k - 1] == xs[k];
      FlatMapCover(xs[1..], f, k - 1, y);
    }
  }

  lemma {:induction false} FlatMapFrom<A, B>(xs: seq<A>, f: A -> seq<B>, y: B) returns (k: nat)
    requires y in FlatMap(xs, f)
    ensures k < |xs| && y in f(xs[k])
  {
    if y in f(xs[0]) {
      k := 0;
    } else {
      var j := FlatMapFrom(xs[1..], f, y);
      assert xs[1..][j] == xs[j + 1];
      k := j + 1;
    }
  }
}

/** Applying a function to every element of a sequence, in order: the shape
    of every "for each item, append its result" loop in the scraper. */
module Sequences {

  /** `[f(x) for x in xs]`, built from the front: the images of all elements
      but the last, then the image of the last. */
  function Map<A, B>(f: A -> B, xs: seq<A>): (ys: seq<B>)
    ensures |ys| == |xs|
    decreases |xs|
  {
    if |xs| == 0 then [] else Map(f, xs[..|xs| - 1]) + [f(xs[|xs| - 1])]
  }

  /** Element `i` of the result is the image of element `i`. */
  lemma {:induction false} MapAt<A, B>(f: A -> B, xs: seq<A>, i: nat)
    requires i < |xs|
    ensures Map(f, xs)[i] == f(xs[i])
    decreases |xs|
  {
    var n := |xs| - 1;
    if i < n {
      MapAt(f, xs[..n], i);
    }
  }

  /** Mapping a concatenation maps the two parts and keeps their order. */
  lemma {:induction false} MapAppend<A, B>(f: A -> B, xs: seq<A>, ys: seq<A>)
    ensures Map(f, xs + ys) == Map(f, xs) + Map(f, ys)
    decreases |ys|
  {
    if |ys| == 0 {
      assert xs + ys == xs;
    } else {
      var n := |ys| - 1;
      assert (xs + ys)[..|xs + ys| - 1] == xs + ys[..n];
      MapAppend(f, xs, ys[..n]);
    }
  }

  /** Whatever the result holds is the image of some element. */
  lemma MapMembers<A, B>(f: A -> B, xs: seq<A>, y: B)
    requires y in Map(f, xs)
    ensures exists i :: 0 <= i < |xs| && y == f(xs[i])
  {
    var ys := Map(f, xs);
    var k :| 0 <= k < |ys| && ys[k] == y;
    MapAt(f, xs, k);
  }

  /** The loop itself: start empty and append the image of each element. */
  method MapInOrder<A, B>(xs: seq<A>, f: A -> B) returns (ys: seq<B>)
    ensures ys == Map(f, xs)
  {
    ys := [];
    for k := 0 to |xs|
      invariant ys == Map(f, xs[..k])
    {
      assert xs[..k + 1][..k] == xs[..k];
      ys := ys + [f(xs[k])];
    }
    assert xs[..|xs|] == xs;
  }
}

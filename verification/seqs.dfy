/** Sequence combinators shared by the service layer and the model listing. */
module Seqs {

  /** The list comprehension `[f(x) for x in xs if keep(x)]`: the images of the
      kept elements, in their original order. */
  function FilterMap<A, B>(xs: seq<A>, keep: A -> bool, f: A -> B): (r: seq<B>)
    ensures |r| <= |xs|
  {
    if |xs| == 0 then []
    else (if keep(xs[0]) then [f(xs[0])] else []) + FilterMap(xs[1..], keep, f)
  }

  /** The comprehension distributes over concatenation of its input. */
  lemma {:induction false} FilterMapAppend<A, B>(xs: seq<A>, ys: seq<A>, keep: A -> bool, f: A -> B)
    ensures FilterMap(xs + ys, keep, f) == FilterMap(xs, keep, f) + FilterMap(ys, keep, f)
  {
    if |xs| == 0 {
      assert xs + ys == ys;
    } else {
      var zs := xs + ys;
      assert zs[0] == xs[0];
      assert zs[1..] == xs[1..] + ys;
      FilterMapAppend(xs[1..], ys, keep, f);
      var head := if keep(xs[0]) then [f(xs[0])] else [];
      calc {
        FilterMap(zs, keep, f);
        head + FilterMap(zs[1..], keep, f);
        head + (FilterMap(xs[1..], keep, f) + FilterMap(ys, keep, f));
        (head + FilterMap(xs[1..], keep, f)) + FilterMap(ys, keep, f);
        FilterMap(xs, keep, f) + FilterMap(ys, keep, f);
      }
    }
  }

  /** The positions of `xs` that `keep` accepts, in increasing order: an index-based
      description of the comprehension, independent of `FilterMap`. */
  function KeptPositions<A>(xs: seq<A>, keep: A -> bool): (idx: seq<nat>)
    ensures forall k :: 0 <= k < |idx| ==> idx[k] < |xs| && keep(xs[idx[k]])
    ensures forall k, l :: 0 <= k < l < |idx| ==> idx[k] < idx[l]
    ensures forall i :: 0 <= i < |xs| && keep(xs[i]) ==> i in idx
  {
    if |xs| == 0 then []
    else
      var n := |xs| - 1;
      var front := KeptPositions(xs[..n], keep);
      assert forall k :: 0 <= k < |front| ==> xs[..n][front[k]] == xs[front[k]];
      assert forall i :: 0 <= i < n ==> xs[..n][i] == xs[i];
      front + (if keep(xs[n]) then [n] else [])
  }

  /** The comprehension is `f` applied at exactly the kept positions. */
  lemma {:induction false} FilterMapAtPositions<A, B>(xs: seq<A>, keep: A -> bool, f: A -> B)
    ensures |FilterMap(xs, keep, f)| == |KeptPositions(xs, keep)|
    ensures forall k :: 0 <= k < |KeptPositions(xs, keep)| ==>
              FilterMap(xs, keep, f)[k] == f(xs[KeptPositions(xs, keep)[k]])
  {
    if |xs| > 0 {
      var n := |xs| - 1;
      assert xs == xs[..n] + [xs[n]];
      FilterMapAppend(xs[..n], [xs[n]], keep, f);
      FilterMapAtPositions(xs[..n], keep, f);
      var front := KeptPositions(xs[..n], keep);
      forall k | 0 <= k < |front|
        ensures xs[..n][front[k]] == xs[front[k]]
      {
      }
    }
  }

  /** A sequence all of whose elements are kept and fixed by `f` passes through unchanged. */
  lemma {:induction false} FilterMapFixes<A>(xs: seq<A>, keep: A -> bool, f: A -> A)
    requires forall i :: 0 <= i < |xs| ==> keep(xs[i]) && f(xs[i]) == xs[i]
    ensures FilterMap(xs, keep, f) == xs
  {
    if |xs| > 0 {
      FilterMapFixes(xs[1..], keep, f);
      assert [xs[0]] + xs[1..] == xs;
    }
  }
}

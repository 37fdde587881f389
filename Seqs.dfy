/** Order-preserving subsequences, the relation between a list and a filtered copy of it. */
module Seqs {

  /** `xs` is obtained from `ys` by deleting elements, keeping the order of the rest. */
  ghost predicate IsSubsequence<T>(xs: seq<T>, ys: seq<T>)
    decreases |ys|
  {
    if xs == [] then true
    else if ys == [] then false
    else
      || (xs[|xs| - 1] == ys[|ys| - 1] && IsSubsequence(xs[..|xs| - 1], ys[..|ys| - 1]))
      || IsSubsequence(xs, ys[..|ys| - 1])
  }

  lemma SubsequenceExtend<T>(xs: seq<T>, ys: seq<T>, y: T, keep: bool)
    requires IsSubsequence(xs, ys)
    ensures IsSubsequence(xs + (if keep then [y] else []), ys + [y])
  {
    assert (ys + [y])[..|ys|] == ys;
    if keep {
      assert (xs + [y])[..|xs|] == xs;
    } else {
      assert xs + [] == xs;
    }
  }
}

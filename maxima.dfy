/*
 * The maximum of a non-empty integer sequence, found as both find_max (mba.c) and the column
 * loop of rescale_matrix (matrix.c) find it: the first element, then every larger one.
 */
module Maxima {

  /** The largest element of a non-empty sequence. */
  function Max(xs: seq<int>): int
    requires |xs| > 0
  {
    if |xs| == 1 then xs[0]
    else
      var m := Max(xs[..|xs| - 1]);
      if xs[|xs| - 1] > m then xs[|xs| - 1] else m
  }

  lemma {:induction false} MaxIsMax(xs: seq<int>)
    requires |xs| > 0
    ensures Max(xs) in xs
    ensures forall t :: 0 <= t < |xs| ==> xs[t] <= Max(xs)
  {
    if |xs| > 1 {
      var init := xs[..|xs| - 1];
      MaxIsMax(init);
      assert forall t :: 0 <= t < |xs| - 1 ==> xs[t] == init[t];
    }
  }
}

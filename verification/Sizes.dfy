/** Sizes of finite sets, and the smaller of two sizes. */
module Sizes {
  function Min(a: nat, b: nat): nat { if a < b then a else b }

  lemma SubsetSize<T>(x: set<T>, y: set<T>)
    requires x <= y
    ensures |x| <= |y| && (|x| == |y| ==> x == y)
  {
    assert y == x + (y - x);
  }
}

/** Sequences read off longer ones. */
module Sequences {

  /** small can be read off large by skipping entries. */
  predicate IsSubsequence<T(==)>(small: seq<T>, large: seq<T>) {
    small == []
    || (large != [] && (IsSubsequence(small, large[..|large| - 1])
                        || (small[|small| - 1] == large[|large| - 1]
                            && IsSubsequence(small[..|small| - 1], large[..|large| - 1]))))
  }

  lemma SubsequenceMore<T>(small: seq<T>, large: seq<T>, x: T)
    requires IsSubsequence(small, large)
    ensures IsSubsequence(small, large + [x]) && IsSubsequence(small + [x], large + [x])
  {
    assert (large + [x])[..|large + [x]| - 1] == large;
    assert (small + [x])[..|small + [x]| - 1] == small;
  }
}

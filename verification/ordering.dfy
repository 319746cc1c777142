/** Ordering facts about sequences of page numbers and panel indices. */
module Ordering {

  /** Every element is strictly smaller than every later one. */
  ghost predicate StrictlyIncreasing(s: seq<nat>) {
    forall i, j :: 0 <= i < j < |s| ==> s[i] < s[j]
  }

  /** Strictly increasing, with every element in `[lo, hi]`. */
  ghost predicate IncreasingWithin(s: seq<nat>, lo: int, hi: int) {
    && StrictlyIncreasing(s)
    && forall i :: 0 <= i < |s| ==> lo <= s[i] <= hi
  }

  /** Two increasing runs, the second starting above the end of the first,
      join into one increasing run. */
  lemma AppendWithin(x: seq<nat>, y: seq<nat>, lo: int, mid: int, hi: int)
    requires IncreasingWithin(x, lo, mid)
    requires IncreasingWithin(y, mid + 1, hi)
    requires lo <= mid + 1 && mid <= hi
    ensures IncreasingWithin(x + y, lo, hi)
  {
    var xy := x + y;
    forall i, j | 0 <= i < j < |xy|
      ensures xy[i] < xy[j]
    {
      if j < |x| {
        assert xy[i] == x[i] && xy[j] == x[j];
      } else if i < |x| {
        assert xy[i] == x[i] && xy[j] == y[j - |x|];
      } else {
        assert xy[i] == y[i - |x|] && xy[j] == y[j - |x|];
      }
    }
    forall i | 0 <= i < |xy|
      ensures lo <= xy[i] <= hi
    {
      if i < |x| {
        assert xy[i] == x[i];
      } else {
        assert xy[i] == y[i - |x|];
      }
    }
  }

  /** In a strictly increasing sequence a value occurs at most once. */
  lemma OccursOnce(s: seq<nat>, v: nat, i: nat, j: nat)
    requires StrictlyIncreasing(s)
    requires i < |s| && j < |s| && s[i] == v && s[j] == v
    ensures i == j
  {
  }
}

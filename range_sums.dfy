// Sums over ranges of a sequence of integers, shared by SegmentTree and
// BinaryIndexedTree of trees/trees.hpp.
module RangeSums {

  /** The sum of a[lo..hi], 0 when the range is empty. */
  function Sum(a: seq<int>, lo: int, hi: int): int
    requires 0 <= lo && hi <= |a|
    decreases hi - lo
  {
    if lo >= hi then 0 else Sum(a, lo, hi - 1) + a[hi - 1]
  }

  lemma {:induction false} SumSplit(a: seq<int>, lo: int, m: int, hi: int)
    requires 0 <= lo <= m <= hi <= |a|
    ensures Sum(a, lo, hi) == Sum(a, lo, m) + Sum(a, m, hi)
    decreases hi - m
  {
    if m < hi {
      SumSplit(a, lo, m, hi - 1);
    }
  }

  /** Cutting any range at any point `m` gives the parts on either side. */
  lemma SumClip(a: seq<int>, x: int, y: int, m: int)
    requires 0 <= x && y <= |a| && 0 <= m <= |a|
    ensures Sum(a, x, y) == Sum(a, x, if y < m then y else m) + Sum(a, if x < m then m else x, y)
  {
    if x < m < y {
      SumSplit(a, x, m, y);
    }
  }

  /** Sums over a range depend only on the values in it. */
  lemma {:induction false} SumSame(a: seq<int>, b: seq<int>, lo: int, hi: int)
    requires 0 <= lo && hi <= |a| && hi <= |b|
    requires forall k :: lo <= k < hi ==> a[k] == b[k]
    ensures Sum(a, lo, hi) == Sum(b, lo, hi)
    decreases hi - lo
  {
    if lo < hi {
      SumSame(a, b, lo, hi - 1);
    }
  }

  /** A sequence of zeros sums to zero over every range. */
  lemma {:induction false} SumZero(a: seq<int>, lo: int, hi: int)
    requires 0 <= lo && hi <= |a|
    requires forall k :: 0 <= k < |a| ==> a[k] == 0
    ensures Sum(a, lo, hi) == 0
    decreases hi - lo
  {
    if lo < hi {
      SumZero(a, lo, hi - 1);
    }
  }

  /** Adding `d` at one position adds `d` to every range holding it and
      nothing to the others. */
  lemma {:induction false} SumAdd(a: seq<int>, p: int, d: int, lo: int, hi: int)
    requires 0 <= p < |a| && 0 <= lo && hi <= |a|
    ensures Sum(a[p := a[p] + d], lo, hi) == Sum(a, lo, hi) + if lo <= p < hi then d else 0
    decreases hi - lo
  {
    if lo < hi {
      SumAdd(a, p, d, lo, hi - 1);
    }
  }
}

// BinaryIndexedTree of trees/trees.hpp. The model keeps, as the ghost
// `deltas`, the total added at each 0-based index; slot k of the 1-based
// array `tree` holds the sum of the LowBit(k) deltas ending at index k - 1.
module FenwickTrees {
  import opened RangeSums

  /** The lowest set bit of k (what idx & (-idx) computes for k >= 1). */
  function LowBit(k: int): (r: int)
    requires k >= 1
    ensures 1 <= r <= k
    decreases k
  {
    if k % 2 == 1 then 1 else 2 * LowBit(k / 2)
  }

  /** Below the lowest set bit of `i`, adding `j` to `i` does not disturb j's
      own lowest bit. */
  lemma {:induction false} LowBitBelow(i: int, j: int)
    requires i >= 1 && 0 < j < LowBit(i)
    ensures LowBit(i + j) == LowBit(j)
    decreases i
  {
    if j % 2 == 0 {
      assert i % 2 == 0;
      assert (i + j) / 2 == i / 2 + j / 2;
      LowBitBelow(i / 2, j / 2);
    }
  }

  /** Adding its lowest bit to `i` at least doubles the lowest bit. */
  lemma {:induction false} LowBitCarry(i: int)
    requires i >= 1
    ensures LowBit(i + LowBit(i)) >= 2 * LowBit(i)
    decreases i
  {
    if i % 2 == 0 {
      LowBitCarry(i / 2);
      assert (i + LowBit(i)) / 2 == i / 2 + LowBit(i / 2);
    } else {
      assert (i + 1) % 2 == 0;
      assert LowBit((i + 1) / 2) >= 1;
    }
  }

  /** Slot k covers the 0-based indices k - LowBit(k) .. k - 1. */
  predicate Covers(k: int, p: int)
    requires k >= 1
  {
    k - LowBit(k) <= p < k
  }

  /** The slots between i and i + LowBit(i) start at or after i, so they do
      not cover any index below i. */
  lemma Skipped(i: int, k: int, p: int)
    requires i >= 1 && i < k < i + LowBit(i) && 0 <= p < i
    ensures !Covers(k, p)
  {
    LowBitBelow(i, k - i);
  }

  /** The next slot update visits covers the index again. */
  lemma NextCovers(i: int, p: int)
    requires i >= 1 && Covers(i, p)
    ensures Covers(i + LowBit(i), p)
  {
    LowBitCarry(i);
  }

  /** The slots of `t` up to n: those below i hold sums of `d`, the rest
      sums of `b`. */
  ghost predicate Slots(t: seq<int>, n: int, d: seq<int>, b: seq<int>, i: int)
  {
    && |t| == n + 1 && |d| == n && |b| == n
    && forall k :: 1 <= k <= n ==> t[k] == Sum(if k < i then d else b, k - LowBit(k), k)
  }

  /** One step of update: adding delta to slot i, which covers idx, moves
      every slot up to the next one visited over to the new deltas. */
  lemma SlotStep(t: seq<int>, n: int, d: seq<int>, b: seq<int>, idx: int, delta: int, i: int)
    requires Slots(t, n, d, b, i) && 1 <= i <= n && Covers(i, idx)
    requires 0 <= idx < n && d == b[idx := b[idx] + delta]
    ensures Slots(t[i := t[i] + delta], n, d, b, i + LowBit(i))
  {
    var t' := t[i := t[i] + delta];
    var next := i + LowBit(i);
    forall k | 1 <= k <= n
      ensures t'[k] == Sum(if k < next then d else b, k - LowBit(k), k)
    {
      SlotAfterStep(t, n, d, b, idx, delta, i, k);
    }
  }

  /** What one step of update leaves in slot k. */
  lemma SlotAfterStep(t: seq<int>, n: int, d: seq<int>, b: seq<int>, idx: int, delta: int, i: int, k: int)
    requires Slots(t, n, d, b, i) && 1 <= i <= n && Covers(i, idx)
    requires 0 <= idx < n && d == b[idx := b[idx] + delta] && 1 <= k <= n
    ensures t[i := t[i] + delta][k] == Sum(if k < i + LowBit(i) then d else b, k - LowBit(k), k)
  {
    if k == i {
      assert t[k] == Sum(b, k - LowBit(k), k);
      SumAdd(b, idx, delta, i - LowBit(i), i);
    } else if i < k < i + LowBit(i) {
      assert t[k] == Sum(b, k - LowBit(k), k);
      SlotSkipped(n, d, b, idx, delta, i, k);
    } else if k < i {
      assert t[k] == Sum(d, k - LowBit(k), k);
    } else {
      assert t[k] == Sum(b, k - LowBit(k), k);
    }
  }

  lemma SlotSkipped(n: int, d: seq<int>, b: seq<int>, idx: int, delta: int, i: int, k: int)
    requires 1 <= i < k < i + LowBit(i) && k <= n && Covers(i, idx)
    requires 0 <= idx < n && |b| == n && d == b[idx := b[idx] + delta]
    ensures Sum(b, k - LowBit(k), k) == Sum(d, k - LowBit(k), k)
  {
    Skipped(i, k, idx);
    SumAdd(b, idx, delta, k - LowBit(k), k);
  }

  class BinaryIndexedTree {
    var tree: array<int>
    var n: int
    ghost var deltas: seq<int>

    ghost predicate Valid()
      reads this, tree
    {
      && n >= 0 && tree.Length == n + 1 && |deltas| == n
      && forall k :: 1 <= k <= n ==> tree[k] == Sum(deltas, k - LowBit(k), k)
    }

    /** The constructor: n + 1 zero slots, all deltas zero. */
    constructor(size: int)
      requires size >= 0
      ensures Valid() && n == size && deltas == seq(size, _ => 0)
    {
      n := size;
      deltas := seq(size, _ => 0);
      tree := new int[size + 1](_ => 0);
      new;
      forall k | 1 <= k <= n ensures tree[k] == Sum(deltas, k - LowBit(k), k) {
        SumZero(deltas, k - LowBit(k), k);
      }
    }

    /** update: add `delta` at `idx` by walking up the slots that cover it;
        an index at or past n changes nothing. */
    method Update(idx: int, delta: int)
      requires Valid() && idx >= 0
      modifies this, tree
      ensures Valid() && tree == old(tree) && n == old(n)
      ensures deltas == if idx < n then old(deltas)[idx := old(deltas)[idx] + delta] else old(deltas)
    {
      ghost var before := deltas;
      if idx < n {
        deltas := deltas[idx := deltas[idx] + delta];
        forall k | 1 <= k <= idx
          ensures Sum(before, k - LowBit(k), k) == Sum(deltas, k - LowBit(k), k)
        {
          SumAdd(before, idx, delta, k - LowBit(k), k);
        }
      }
      var i := idx + 1;
      while i <= n
        invariant tree == old(tree) && n == old(n) && i >= 1 && Covers(i, idx)
        invariant deltas == if idx < n then before[idx := before[idx] + delta] else before
        invariant Slots(tree[..], n, deltas, before, i)
        decreases n - i
      {
        SlotStep(tree[..], n, deltas, before, idx, delta, i);
        tree[i] := tree[i] + delta;
        NextCovers(i, idx);
        i := i + LowBit(i);
      }
    }

    /** query: the sum of the deltas at indices 0..idx, collected by
        walking down the slots; 0 for a negative index. */
    method Query(idx: int) returns (sum: int)
      requires Valid() && idx < n
      ensures sum == Sum(deltas, 0, idx + 1)
    {
      var i := idx + 1;
      sum := 0;
      if i <= 0 {
        return;
      }
      while i > 0
        invariant 0 <= i <= idx + 1 && sum == Sum(deltas, i, idx + 1)
      {
        SumSplit(deltas, i - LowBit(i), i, idx + 1);
        sum := sum + tree[i];
        i := i - LowBit(i);
      }
    }

    /** rangeQuery: query(R) less query(L - 1) when L > 0. */
    method RangeQuery(L: int, R: int) returns (r: int)
      requires Valid() && R < n && L <= n
      ensures L <= 0 ==> r == Sum(deltas, 0, R + 1)
      ensures 0 < L <= R + 1 ==> r == Sum(deltas, L, R + 1)
      ensures 0 <= R + 1 < L ==> r == -Sum(deltas, R + 1, L)
      ensures R + 1 < 0 < L ==> r == -Sum(deltas, 0, L)
    {
      var right := Query(R);
      var left := 0;
      if L > 0 {
        left := Query(L - 1);
        if L <= R + 1 {
          SumSplit(deltas, 0, L, R + 1);
        } else if R >= -1 {
          SumSplit(deltas, 0, R + 1, L);
        }
      }
      r := right - left;
    }
  }
}

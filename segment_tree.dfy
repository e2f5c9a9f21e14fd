// SegmentTree of trees/trees.hpp: a heap-numbered array of 4n partial sums
// (node 1 covers [0, n-1], node k's children are 2k and 2k+1) over the
// values the tree was built from, which the model keeps as the ghost `vals`.
module SegmentTrees {
  import opened RangeSums


  /** Node `i` lies in the subtree of node `k`. */
  predicate Below(i: int, k: int)
    decreases i
  {
    if i == k then true else if i < k || i < 1 then false else Below(i / 2, k)
  }

  lemma {:induction false} BelowChild(i: int, k: int)
    requires k >= 1 && (Below(i, 2 * k) || Below(i, 2 * k + 1))
    ensures Below(i, k)
    decreases i
  {
    if i != 2 * k && i != 2 * k + 1 {
      BelowChild(i / 2, k);
    }
  }

  lemma {:induction false} ChildrenApart(i: int, k: int)
    requires k >= 1
    ensures !(Below(i, 2 * k) && Below(i, 2 * k + 1))
    decreases i
  {
    if i > 2 * k + 1 {
      ChildrenApart(i / 2, k);
    }
  }

  lemma NotBelowChild(k: int)
    requires k >= 1
    ensures !Below(k, 2 * k) && !Below(k, 2 * k + 1)
  {
  }

  /** Node `node` covering [s, e] and every node below it hold the sums of
      their ranges of `vals`. */
  ghost predicate Good(t: seq<int>, vals: seq<int>, node: int, s: int, e: int)
    decreases e - s
  {
    && 0 <= s <= e < |vals| && 1 <= node < |t|
    && t[node] == Sum(vals, s, e + 1)
    && (s < e ==>
          var mid := (s + e) / 2;
          Good(t, vals, 2 * node, s, mid) && Good(t, vals, 2 * node + 1, mid + 1, e))
  }

  /** Changing the array outside the subtree keeps the subtree good. */
  lemma {:induction false} GoodFrame(t: seq<int>, t': seq<int>, vals: seq<int>, node: int, s: int, e: int)
    requires Good(t, vals, node, s, e) && |t'| == |t|
    requires forall i :: 0 <= i < |t| && Below(i, node) ==> t'[i] == t[i]
    ensures Good(t', vals, node, s, e)
    decreases e - s
  {
    if s < e {
      var mid := (s + e) / 2;
      forall i | 0 <= i < |t| && Below(i, 2 * node) ensures t'[i] == t[i] {
        BelowChild(i, node);
      }
      forall i | 0 <= i < |t| && Below(i, 2 * node + 1) ensures t'[i] == t[i] {
        BelowChild(i, node);
      }
      GoodFrame(t, t', vals, 2 * node, s, mid);
      GoodFrame(t, t', vals, 2 * node + 1, mid + 1, e);
    }
  }

  /** After updateHelper recursed into one child of `node`, the other child,
      whose range of values did not change, is still good. */
  lemma SiblingGood(t0: seq<int>, t1: seq<int>, ov: seq<int>, v: seq<int>, node: int, left: bool, s: int, e: int)
    requires node >= 1 && |t1| == |t0| && |v| == |ov|
    requires forall i :: 0 <= i < |t0| && !Below(i, if left then 2 * node else 2 * node + 1) ==> t1[i] == t0[i]
    requires Good(t0, ov, if left then 2 * node + 1 else 2 * node, s, e)
    requires forall k :: s <= k <= e ==> v[k] == ov[k]
    ensures Good(t1, v, if left then 2 * node + 1 else 2 * node, s, e)
  {
    var sib := if left then 2 * node + 1 else 2 * node;
    forall i | 0 <= i < |t0| && Below(i, sib) ensures t1[i] == t0[i] {
      ChildrenApart(i, node);
    }
    GoodFrame(t0, t1, ov, sib, s, e);
    GoodVals(t1, ov, v, sib, s, e);
  }

  /** Storing the sum of two good children makes their parent good. */
  lemma Recombined(t: seq<int>, t': seq<int>, v: seq<int>, node: int, s: int, e: int)
    requires node >= 1 && s < e && node < |t|
    requires Good(t, v, 2 * node, s, (s + e) / 2) && Good(t, v, 2 * node + 1, (s + e) / 2 + 1, e)
    requires t' == t[node := t[2 * node] + t[2 * node + 1]]
    ensures Good(t', v, node, s, e)
  {
    var mid := (s + e) / 2;
    NotBelowChild(node);
    GoodFrame(t, t', v, 2 * node, s, mid);
    GoodFrame(t, t', v, 2 * node + 1, mid + 1, e);
    SumSplit(v, s, mid + 1, e + 1);
  }

  /** Changing values outside the range keeps the subtree good. */
  lemma {:induction false} GoodVals(t: seq<int>, v: seq<int>, v': seq<int>, node: int, s: int, e: int)
    requires Good(t, v, node, s, e) && |v'| == |v|
    requires forall k :: s <= k <= e ==> v'[k] == v[k]
    ensures Good(t, v', node, s, e)
    decreases e - s
  {
    SumSame(v, v', s, e + 1);
    if s < e {
      var mid := (s + e) / 2;
      GoodVals(t, v, v', 2 * node, s, mid);
      GoodVals(t, v, v', 2 * node + 1, mid + 1, e);
    }
  }

  /** The index bound behind the 4n array: a node at depth d (2^d <= node <
      2^(d+1)) covers at most ceil(n / 2^d) positions. */
  ghost predicate Fits(node: int, s: int, e: int, pow: int, n: int)
  {
    1 <= pow <= node < 2 * pow && pow < 2 * n && (e - s) * pow < n
  }

  lemma MulMono(a: int, b: int, p: int)
    requires 0 <= a <= b && 0 <= p
    ensures a * p <= b * p
  {
  }

  lemma MulTwice(a: int, p: int)
    ensures a * (2 * p) == (2 * a) * p
  {
  }

  /** A child of a node in the recursion is one level deeper and covers at
      most half the positions, rounded up. */
  lemma HalfFits(len: int, e: int, s: int, pow: int, n: int)
    requires 0 <= len && 2 * len <= e - s && 1 <= pow && (e - s) * pow < n
    ensures len * (2 * pow) < n
  {
    MulTwice(len, pow);
    MulMono(2 * len, e - s, pow);
  }

  lemma ChildrenFit(node: int, s: int, e: int, pow: int, n: int)
    requires Fits(node, s, e, pow, n) && 0 <= s < e
    ensures Fits(2 * node, s, (s + e) / 2, 2 * pow, n)
    ensures Fits(2 * node + 1, (s + e) / 2 + 1, e, 2 * pow, n)
    ensures 2 * node + 1 < 4 * n
  {
    var mid := (s + e) / 2;
    HalfFits(mid - s, e, s, pow, n);
    HalfFits(e - mid - 1, e, s, pow, n);
    MulMono(1, e - s, pow);
  }

  /** The position updateHelper reaches inside [s, e]: an index left of the
      range ends at its first leaf, one right of it at its last. */
  function Clamp(idx: int, s: int, e: int): int
  {
    if idx < s then s else if idx > e then e else idx
  }

  class SegmentTree {
    var tree: array<int>
    var n: int
    ghost var vals: seq<int>

    ghost predicate Valid()
      reads this, tree
    {
      n >= 1 && tree.Length == 4 * n && |vals| == n && Good(tree[..], vals, 1, 0, n - 1)
    }

    /** The constructor: an array of 4n sums built from `arr`. */
    constructor(arr: seq<int>)
      requires |arr| >= 1
      ensures Valid() && vals == arr && fresh(tree)
    {
      n := |arr|;
      vals := arr;
      tree := new int[4 * |arr|];
      new;
      Build(arr, 1, 0, n - 1, 1);
    }

    /** build: fill the node for [s, e] and everything below it. */
    method Build(arr: seq<int>, node: int, s: int, e: int, ghost pow: int)
      requires tree.Length == 4 * n && |arr| == n && 0 <= s <= e < n
      requires Fits(node, s, e, pow, n)
      modifies tree
      ensures Good(tree[..], arr, node, s, e)
      ensures forall i :: 0 <= i < tree.Length && !Below(i, node) ==> tree[i] == old(tree[i])
      decreases e - s
    {
      if s == e {
        tree[node] := arr[s];
      } else {
        var mid := (s + e) / 2;
        ChildrenFit(node, s, e, pow, n);
        Build(arr, 2 * node, s, mid, 2 * pow);
        ghost var t1 := tree[..];
        Build(arr, 2 * node + 1, mid + 1, e, 2 * pow);
        SiblingGood(t1, tree[..], arr, arr, node, false, s, mid);
        ghost var t2 := tree[..];
        tree[node] := tree[2 * node] + tree[2 * node + 1];
        Recombined(t2, tree[..], arr, node, s, e);
        forall i | 0 <= i < tree.Length && !Below(i, node) ensures tree[i] == old(tree[i]) {
          if Below(i, 2 * node) || Below(i, 2 * node + 1) {
            BelowChild(i, node);
          }
        }
      }
    }

    /** updateHelper: set the leaf `idx` reaches and recompute the sums on
        the way back up. */
    method UpdateHelper(node: int, s: int, e: int, idx: int, value: int, ghost old_vals: seq<int>)
      requires |vals| == |old_vals| && Good(tree[..], old_vals, node, s, e)
      requires vals == old_vals[Clamp(idx, s, e) := value]
      modifies tree
      ensures Good(tree[..], vals, node, s, e)
      ensures forall i :: 0 <= i < tree.Length && !Below(i, node) ==> tree[i] == old(tree[i])
      decreases e - s
    {
      if s == e {
        tree[node] := value;
      } else {
        var mid := (s + e) / 2;
        ghost var t0 := tree[..];
        if idx <= mid {
          UpdateHelper(2 * node, s, mid, idx, value, old_vals);
          SiblingGood(t0, tree[..], old_vals, vals, node, true, mid + 1, e);
        } else {
          UpdateHelper(2 * node + 1, mid + 1, e, idx, value, old_vals);
          SiblingGood(t0, tree[..], old_vals, vals, node, false, s, mid);
        }
        ghost var t2 := tree[..];
        tree[node] := tree[2 * node] + tree[2 * node + 1];
        Recombined(t2, tree[..], vals, node, s, e);
        forall i | 0 <= i < tree.Length && !Below(i, node) ensures tree[i] == old(tree[i]) {
          if Below(i, 2 * node) || Below(i, 2 * node + 1) {
            BelowChild(i, node);
          }
        }
      }
    }

    /** update: the value at `idx` becomes `value`; an index below 0 lands
        on position 0 and one past the end on position n - 1. */
    method Update(idx: int, value: int)
      requires Valid()
      modifies this, tree
      ensures Valid() && tree == old(tree) && n == old(n)
      ensures vals == old(vals)[Clamp(idx, 0, n - 1) := value]
    {
      ghost var v0 := vals;
      vals := vals[Clamp(idx, 0, n - 1) := value];
      UpdateHelper(1, 0, n - 1, idx, value, v0);
    }

    /** queryHelper: 0 for a node outside [L, R], the stored sum for a node
        inside it, otherwise the sum of the two children's answers. */
    function QueryHelper(node: int, s: int, e: int, L: int, R: int): (r: int)
      requires Good(tree[..], vals, node, s, e)
      reads this, tree
      ensures r == Sum(vals, if L < s then s else L, if R < e then R + 1 else e + 1)
      decreases e - s
    {
      if R < s || e < L then 0
      else if L <= s && e <= R then tree[node]
      else
        var mid := (s + e) / 2;
        SumClip(vals, if L < s then s else L, if R < e then R + 1 else e + 1, mid + 1);
        QueryHelper(2 * node, s, mid, L, R) + QueryHelper(2 * node + 1, mid + 1, e, L, R)
    }

    /** query: the sum of the values at positions L..R that exist. */
    function Query(L: int, R: int): (r: int)
      requires Valid()
      reads this, tree
      ensures r == Sum(vals, if L < 0 then 0 else L, if R < n - 1 then R + 1 else n)
    {
      QueryHelper(1, 0, n - 1, L, R)
    }
  }
}

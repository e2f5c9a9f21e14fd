// What the binary search trees of trees/trees.hpp (BinarySearchTree, AVLTree,
// RedBlackTree) share: the node shape, the ordering, and the read-only
// helpers searchHelper, calculateHeight, getNodeHeightHelper and
// getNodeDepthHelper, which the three classes repeat with the same logic.
// Elements are integers; `info` is what a node keeps besides its value (the
// AVL height, the red-black colour).
module BinaryTrees {
  import opened Wrappers

  datatype Tree<A> = Nil | Node(left: Tree<A>, data: int, right: Tree<A>, info: A)

  /** SearchResult: the 1-based level of the node found and its position at
      that level, counted from 0 at the left as in a complete binary tree. */
  datatype SearchResult = NotFound | Found(level: nat, position: nat)

  function Elements<A>(t: Tree<A>): set<int>
  {
    match t
    case Nil => {}
    case Node(l, x, r, _) => Elements(l) + {x} + Elements(r)
  }

  /** Left subtree below the node's value, right subtree above it. */
  ghost predicate Ordered<A>(t: Tree<A>)
  {
    match t
    case Nil => true
    case Node(l, x, r, _) =>
      && Ordered(l) && Ordered(r)
      && (forall y :: y in Elements(l) ==> y < x)
      && (forall y :: y in Elements(r) ==> x < y)
  }

  /** The red-black tree sends equal values right, so after rotations equal
      values may sit on either side: left at most, right at least the value. */
  ghost predicate WeaklyOrdered<A>(t: Tree<A>)
  {
    match t
    case Nil => true
    case Node(l, x, r, _) =>
      && WeaklyOrdered(l) && WeaklyOrdered(r)
      && (forall y :: y in Elements(l) ==> y <= x)
      && (forall y :: y in Elements(r) ==> x <= y)
  }

  lemma OrderedWeakly<A>(t: Tree<A>)
    requires Ordered(t)
    ensures WeaklyOrdered(t)
  {
  }

  /** The values in in-order (the order inorder() prints them). */
  function Inorder<A>(t: Tree<A>): (s: seq<int>)
    ensures forall x :: x in s <==> x in Elements(t)
  {
    match t
    case Nil => []
    case Node(l, x, r, _) => Inorder(l) + [x] + Inorder(r)
  }

  ghost predicate Increasing(s: seq<int>)
  {
    forall i, j :: 0 <= i < j < |s| ==> s[i] < s[j]
  }

  ghost predicate NonDecreasing(s: seq<int>)
  {
    forall i, j :: 0 <= i < j < |s| ==> s[i] <= s[j]
  }

  /** Joining two increasing runs around a separating value keeps the
      result increasing. */
  lemma IncreasingJoin(a: seq<int>, x: int, b: seq<int>)
    requires Increasing(a) && Increasing(b)
    requires forall y :: y in a ==> y < x
    requires forall y :: y in b ==> x < y
    ensures Increasing(a + [x] + b)
  {
    var s := a + [x] + b;
    forall i, j | 0 <= i < j < |s| ensures s[i] < s[j] {
      if j < |a| {
      } else if i < |a| {
        assert s[i] == a[i] && a[i] in a;
        if j > |a| {
          assert s[j] == b[j - |a| - 1] && b[j - |a| - 1] in b;
        }
      } else if i == |a| {
        assert s[j] == b[j - |a| - 1] && b[j - |a| - 1] in b;
      } else {
        assert s[i] == b[i - |a| - 1] && s[j] == b[j - |a| - 1];
      }
    }
  }

  /** Conversely, the parts of an increasing run around a value are
      increasing and separated by it. */
  lemma IncreasingSplit(a: seq<int>, x: int, b: seq<int>)
    requires Increasing(a + [x] + b)
    ensures Increasing(a) && Increasing(b)
    ensures forall y :: y in a ==> y < x
    ensures forall y :: y in b ==> x < y
  {
    var s := a + [x] + b;
    assert Increasing(a) by {
      forall i, j | 0 <= i < j < |a| ensures a[i] < a[j] {
        assert s[i] == a[i] && s[j] == a[j];
      }
    }
    assert Increasing(b) by {
      forall i, j | 0 <= i < j < |b| ensures b[i] < b[j] {
        assert s[|a| + 1 + i] == b[i] && s[|a| + 1 + j] == b[j];
      }
    }
    forall y | y in a ensures y < x {
      var i :| 0 <= i < |a| && a[i] == y;
      assert s[i] == y && s[|a|] == x;
    }
    forall y | y in b ensures x < y {
      var i :| 0 <= i < |b| && b[i] == y;
      assert s[|a| + 1 + i] == y && s[|a|] == x;
    }
  }

  /** A tree is ordered exactly when its in-order sequence is strictly increasing. */
  lemma {:induction false} OrderedInorder<A>(t: Tree<A>)
    ensures Ordered(t) <==> Increasing(Inorder(t))
  {
    match t
    case Nil =>
    case Node(l, x, r, _) =>
      OrderedInorder(l);
      OrderedInorder(r);
      if Ordered(t) {
        IncreasingJoin(Inorder(l), x, Inorder(r));
      }
      if Increasing(Inorder(t)) {
        IncreasingSplit(Inorder(l), x, Inorder(r));
      }
  }

  lemma NonDecreasingJoin(a: seq<int>, x: int, b: seq<int>)
    requires NonDecreasing(a) && NonDecreasing(b)
    requires forall y :: y in a ==> y <= x
    requires forall y :: y in b ==> x <= y
    ensures NonDecreasing(a + [x] + b)
  {
    var s := a + [x] + b;
    forall i, j | 0 <= i < j < |s| ensures s[i] <= s[j] {
      if j < |a| {
      } else if i < |a| {
        assert s[i] == a[i] && a[i] in a;
        if j > |a| {
          assert s[j] == b[j - |a| - 1] && b[j - |a| - 1] in b;
        }
      } else if i == |a| {
        assert s[j] == b[j - |a| - 1] && b[j - |a| - 1] in b;
      } else {
        assert s[i] == b[i - |a| - 1] && s[j] == b[j - |a| - 1];
      }
    }
  }

  lemma NonDecreasingSplit(a: seq<int>, x: int, b: seq<int>)
    requires NonDecreasing(a + [x] + b)
    ensures NonDecreasing(a) && NonDecreasing(b)
    ensures forall y :: y in a ==> y <= x
    ensures forall y :: y in b ==> x <= y
  {
    var s := a + [x] + b;
    assert NonDecreasing(a) by {
      forall i, j | 0 <= i < j < |a| ensures a[i] <= a[j] {
        assert s[i] == a[i] && s[j] == a[j];
      }
    }
    assert NonDecreasing(b) by {
      forall i, j | 0 <= i < j < |b| ensures b[i] <= b[j] {
        assert s[|a| + 1 + i] == b[i] && s[|a| + 1 + j] == b[j];
      }
    }
    forall y | y in a ensures y <= x {
      var i :| 0 <= i < |a| && a[i] == y;
      assert s[i] == y && s[|a|] == x;
    }
    forall y | y in b ensures x <= y {
      var i :| 0 <= i < |b| && b[i] == y;
      assert s[|a| + 1 + i] == y && s[|a|] == x;
    }
  }

  /** A tree is weakly ordered exactly when its in-order sequence is
      non-decreasing. */
  lemma {:induction false} WeaklyOrderedInorder<A>(t: Tree<A>)
    ensures WeaklyOrdered(t) <==> NonDecreasing(Inorder(t))
  {
    match t
    case Nil =>
    case Node(l, x, r, _) =>
      WeaklyOrderedInorder(l);
      WeaklyOrderedInorder(r);
      if WeaklyOrdered(t) {
        NonDecreasingJoin(Inorder(l), x, Inorder(r));
      }
      if NonDecreasing(Inorder(t)) {
        NonDecreasingSplit(Inorder(l), x, Inorder(r));
      }
  }

  function Pow2(d: nat): (r: nat)
    ensures r >= 1
  {
    if d == 0 then 1 else 2 * Pow2(d - 1)
  }

  /** The subtree at depth `d` and position `q` of that level, reached by
      reading the `d` bits of `q` from the most significant one: 0 goes
      left, 1 goes right. */
  function NodeAt<A>(t: Tree<A>, d: nat, q: nat): Tree<A>
  {
    if d == 0 then t
    else match t
      case Nil => Nil
      case Node(l, _, r, _) =>
        if q < Pow2(d - 1) then NodeAt(l, d - 1, q) else NodeAt(r, d - 1, q - Pow2(d - 1))
  }

  /** searchHelper: compare and go down one level, doubling the position
      (plus one to the right). */
  function SearchHelper<A>(t: Tree<A>, v: int, level: nat, position: nat): (r: SearchResult)
    ensures WeaklyOrdered(t) ==> (r.Found? <==> v in Elements(t))
    ensures r.Found? ==> level <= r.level
  {
    match t
    case Nil => NotFound
    case Node(l, x, rt, _) =>
      if x == v then Found(level, position)
      else if v < x then SearchHelper(l, v, level + 1, position * 2)
      else SearchHelper(rt, v, level + 1, position * 2 + 1)
  }

  /** The subtree whose root searchHelper stops at (Nil when it falls off). */
  function Find<A>(t: Tree<A>, v: int): (r: Tree<A>)
    ensures r.Node? ==> r.data == v && r.data in Elements(t)
    ensures WeaklyOrdered(t) ==> (r.Node? <==> v in Elements(t))
  {
    match t
    case Nil => Nil
    case Node(l, x, rt, _) =>
      if x == v then t
      else if v < x then Find(l, v)
      else Find(rt, v)
  }

  /** What the level and position a search from (`level`, `position`)
      reports say: the node it stopped at sits `r.level - level` levels down,
      at the offset of `r.position` within the block of positions below
      `position`. */
  ghost predicate Locates<A>(t: Tree<A>, v: int, level: nat, position: nat, r: SearchResult)
  {
    r.Found? ==>
      && level <= r.level
      && var e := r.level - level;
      && position * Pow2(e) <= r.position < position * Pow2(e) + Pow2(e)
      && NodeAt(t, e, r.position - position * Pow2(e)) == Find(t, v)
  }

  lemma ScaleLeft(p: nat, w: nat, rp: nat)
    requires w >= 1 && (2 * p) * w <= rp < (2 * p) * w + w
    ensures p * (2 * w) <= rp < p * (2 * w) + 2 * w
    ensures rp - p * (2 * w) == rp - (2 * p) * w < w
  {
  }

  lemma ScaleRight(p: nat, w: nat, rp: nat)
    requires w >= 1 && (2 * p + 1) * w <= rp < (2 * p + 1) * w + w
    ensures p * (2 * w) <= rp < p * (2 * w) + 2 * w
    ensures rp - p * (2 * w) == rp - (2 * p + 1) * w + w >= w
  {
  }

  lemma LocatesLeft<A>(t: Tree<A>, v: int, level: nat, position: nat, r: SearchResult)
    requires t.Node? && v < t.data
    requires Locates(t.left, v, level + 1, 2 * position, r)
    ensures Locates(t, v, level, position, r)
  {
    if r.Found? {
      var e := r.level - level;
      var w := Pow2(e - 1);
      assert Pow2(e) == 2 * w;
      ScaleLeft(position, w, r.position);
      assert NodeAt(t, e, r.position - position * Pow2(e)) == NodeAt(t.left, e - 1, r.position - (2 * position) * w);
    }
  }

  lemma LocatesRight<A>(t: Tree<A>, v: int, level: nat, position: nat, r: SearchResult)
    requires t.Node? && t.data < v
    requires Locates(t.right, v, level + 1, 2 * position + 1, r)
    ensures Locates(t, v, level, position, r)
  {
    if r.Found? {
      var e := r.level - level;
      var w := Pow2(e - 1);
      assert Pow2(e) == 2 * w;
      ScaleRight(position, w, r.position);
      assert NodeAt(t, e, r.position - position * Pow2(e)) == NodeAt(t.right, e - 1, r.position - (2 * position + 1) * w);
    }
  }

  /** The level and position searchHelper reports name the node it stopped at. */
  lemma {:induction false} SearchLocates<A>(t: Tree<A>, v: int, level: nat, position: nat)
    ensures SearchHelper(t, v, level, position).Found? <==> Find(t, v).Node?
    ensures Locates(t, v, level, position, SearchHelper(t, v, level, position))
  {
    match t
    case Nil =>
    case Node(l, x, rt, _) =>
      if x == v {
        assert Pow2(0) == 1;
      } else if v < x {
        SearchLocates(l, v, level + 1, position * 2);
        LocatesLeft(t, v, level, position, SearchHelper(l, v, level + 1, position * 2));
      } else {
        SearchLocates(rt, v, level + 1, position * 2 + 1);
        LocatesRight(t, v, level, position, SearchHelper(rt, v, level + 1, position * 2 + 1));
      }
  }

  /** search from the root: level 1, position 0. */
  lemma SearchFromRoot<A>(t: Tree<A>, v: int)
    ensures var r := SearchHelper(t, v, 1, 0);
      r.Found? ==> 1 <= r.level && r.position < Pow2(r.level - 1) && NodeAt(t, r.level - 1, r.position) == Find(t, v)
  {
    SearchLocates(t, v, 1, 0);
  }

  /** calculateHeight: -1 for no node, otherwise one more than the taller child. */
  function Height<A>(t: Tree<A>): (h: int)
    ensures h >= -1 && (t.Node? <==> h >= 0)
  {
    match t
    case Nil => -1
    case Node(l, _, r, _) => 1 + if Height(l) < Height(r) then Height(r) else Height(l)
  }

  /** Every node lies at a depth no greater than the height. */
  lemma {:induction false} HeightBoundsDepth<A>(t: Tree<A>, d: nat, q: nat)
    requires NodeAt(t, d, q).Node?
    ensures d <= Height(t)
  {
    if d > 0 {
      match t
      case Node(l, _, r, _) =>
        if q < Pow2(d - 1) {
          HeightBoundsDepth(l, d - 1, q);
        } else {
          HeightBoundsDepth(r, d - 1, q - Pow2(d - 1));
        }
    }
  }

  /** Some node lies at depth equal to the height. */
  lemma {:induction false} HeightReached<A>(t: Tree<A>) returns (q: nat)
    requires t.Node?
    ensures q < Pow2(Height(t)) && NodeAt(t, Height(t), q).Node?
  {
    var h := Height(t);
    if h > 0 {
      if Height(t.left) >= Height(t.right) {
        var q' := HeightReached(t.left);
        q := q';
      } else {
        var q' := HeightReached(t.right);
        q := q' + Pow2(h - 1);
      }
    } else {
      q := 0;
    }
  }

  /** getNodeHeightHelper (calculateHeight of the node found), which throws
      logic_error when the search falls off the tree. */
  function NodeHeight<A>(t: Tree<A>, v: int): (r: Result<int>)
    ensures r == if Find(t, v).Node? then Ok(Height(Find(t, v))) else Err(LogicError)
  {
    match t
    case Nil => Err(LogicError)
    case Node(l, x, rt, _) =>
      if x == v then Ok(Height(t))
      else if v < x then NodeHeight(l, v)
      else NodeHeight(rt, v)
  }

  /** getNodeDepthHelper: the number of edges from the root to the node found,
      logic_error when the search falls off the tree. */
  function NodeDepth<A>(t: Tree<A>, v: int, depth: nat): (r: Result<int>)
    ensures r.Ok? <==> Find(t, v).Node?
    ensures r.Err? ==> r.error == LogicError
  {
    match t
    case Nil => Err(LogicError)
    case Node(l, x, rt, _) =>
      if x == v then Ok(depth)
      else if v < x then NodeDepth(l, v, depth + 1)
      else NodeDepth(rt, v, depth + 1)
  }

  /** The depth reported is one less than the level search reports. */
  lemma {:induction false} DepthIsLevel<A>(t: Tree<A>, v: int, depth: nat)
    ensures var r := SearchHelper(t, v, depth + 1, 0);
      r.Found? ==> NodeDepth(t, v, depth) == Ok(r.level - 1)
  {
    match t
    case Nil =>
    case Node(l, x, rt, _) =>
      if x != v {
        if v < x {
          DepthIsLevel(l, v, depth + 1);
          SameLevel(l, v, depth + 2, 0, 0);
        } else {
          DepthIsLevel(rt, v, depth + 1);
          SameLevel(rt, v, depth + 2, 1, 0);
        }
      }
  }

  /** The level searchHelper reports does not depend on the starting position. */
  lemma {:induction false} SameLevel<A>(t: Tree<A>, v: int, level: nat, p1: nat, p2: nat)
    ensures SearchHelper(t, v, level, p1).Found? == SearchHelper(t, v, level, p2).Found?
    ensures SearchHelper(t, v, level, p1).Found? ==>
      SearchHelper(t, v, level, p1).level == SearchHelper(t, v, level, p2).level
  {
    match t
    case Nil =>
    case Node(l, x, rt, _) =>
      if x != v {
        if v < x {
          SameLevel(l, v, level + 1, p1 * 2, p2 * 2);
        } else {
          SameLevel(rt, v, level + 1, p1 * 2 + 1, p2 * 2 + 1);
        }
      }
  }
}

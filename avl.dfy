// AVLTree of trees/trees.hpp. A node's `info` is the height it stores
// (1 for a leaf, 0 standing for no node). insertHelper, rightRotate and
// leftRotate relink child pointers and rewrite stored heights; they become
// functions from the old subtree to the new one.
module AvlTrees {
  import opened Wrappers
  import opened BinaryTrees

  /** getHeight: the stored height, 0 for no node. */
  function GetHeight(t: Tree<int>): int
  {
    if t.Nil? then 0 else t.info
  }

  /** getBalance: left height minus right height, 0 for no node. */
  function GetBalance(t: Tree<int>): int
  {
    if t.Nil? then 0 else GetHeight(t.left) - GetHeight(t.right)
  }

  /** A node whose stored height is recomputed from its children, as every
      relinking step of insertHelper and the rotations does. */
  function Make(l: Tree<int>, x: int, r: Tree<int>): (t: Tree<int>)
    ensures t.Node? && t.left == l && t.data == x && t.right == r
    ensures GetHeight(t) == 1 + if GetHeight(l) < GetHeight(r) then GetHeight(r) else GetHeight(l)
  {
    Node(l, x, r, 1 + if GetHeight(l) < GetHeight(r) then GetHeight(r) else GetHeight(l))
  }

  /** Every stored height is one more than the taller child's. */
  ghost predicate HeightsOk(t: Tree<int>)
  {
    t.Node? ==>
      && t == Make(t.left, t.data, t.right)
      && HeightsOk(t.left) && HeightsOk(t.right)
  }

  /** Every node's children differ in height by at most one. */
  ghost predicate Balanced(t: Tree<int>)
  {
    t.Node? ==> -1 <= GetBalance(t) <= 1 && Balanced(t.left) && Balanced(t.right)
  }

  ghost predicate Avl(t: Tree<int>)
  {
    Ordered(t) && HeightsOk(t) && Balanced(t)
  }

  /** The stored height is one more than calculateHeight would compute. */
  lemma {:induction false} StoredHeight(t: Tree<int>)
    ensures HeightsOk(t) ==> GetHeight(t) == Height(t) + 1
  {
    if t.Node? {
      StoredHeight(t.left);
      StoredHeight(t.right);
    }
  }

  /** rightRotate: the left child becomes the root of the subtree. */
  function RightRotate(y: Tree<int>): (r: Tree<int>)
    requires y.Node? && y.left.Node?
    ensures Inorder(r) == Inorder(y) && Elements(r) == Elements(y)
    ensures HeightsOk(y.left.left) && HeightsOk(y.left.right) && HeightsOk(y.right) ==> HeightsOk(r)
  {
    var x := y.left;
    Make(x.left, x.data, Make(x.right, y.data, y.right))
  }

  /** leftRotate: the right child becomes the root of the subtree. */
  function LeftRotate(x: Tree<int>): (r: Tree<int>)
    requires x.Node? && x.right.Node?
    ensures Inorder(r) == Inorder(x) && Elements(r) == Elements(x)
    ensures HeightsOk(x.left) && HeightsOk(x.right.left) && HeightsOk(x.right.right) ==> HeightsOk(r)
  {
    var y := x.right;
    Make(Make(x.left, x.data, y.left), y.data, y.right)
  }

  /** Rotations keep the order, since they keep the in-order sequence. */
  lemma SameInorderOrdered(t: Tree<int>, u: Tree<int>)
    requires Inorder(t) == Inorder(u) && Ordered(t)
    ensures Ordered(u)
  {
    OrderedInorder(t);
    OrderedInorder(u);
  }

  /** What insertHelper leaves behind in a subtree that was an AVL tree:
      the height grows by at most one, and when it grows the root is the
      old one and leans towards the side the value went to. */
  ghost predicate Grows(t: Tree<int>, v: int, r: Tree<int>)
  {
    && (GetHeight(r) == GetHeight(t) || GetHeight(r) == GetHeight(t) + 1)
    && (GetHeight(r) == GetHeight(t) + 1 && t.Node? ==>
          && r.Node? && r.data == t.data
          && (v < r.data ==> GetBalance(r) == 1)
          && (t.data < v ==> GetBalance(r) == -1))
  }

  /** The state of a node after insertHelper has relinked one child and
      recomputed its height, before the rotation cases: its children are AVL
      trees, it leans by at most two, and when it leans by two the heavy child
      leans the way the value went and is not the value itself. */
  ghost predicate Leaning(n: Tree<int>, v: int)
  {
    && n.Node? && Ordered(n) && HeightsOk(n) && Balanced(n.left) && Balanced(n.right)
    && -2 <= GetBalance(n) <= 2
    && (GetBalance(n) == 2 ==>
          && n.left.Node? && v != n.left.data
          && (v < n.left.data ==> GetBalance(n.left) == 1)
          && (n.left.data < v ==> GetBalance(n.left) == -1))
    && (GetBalance(n) == -2 ==>
          && n.right.Node? && v != n.right.data
          && (v < n.right.data ==> GetBalance(n.right) == 1)
          && (n.right.data < v ==> GetBalance(n.right) == -1))
  }

  /** The left-left case: one right rotation balances and lowers the node. */
  lemma LeftLeft(n: Tree<int>)
    requires n.Node? && n.left.Node? && Ordered(n) && HeightsOk(n)
    requires Balanced(n.left) && Balanced(n.right)
    requires GetBalance(n) == 2 && GetBalance(n.left) == 1
    ensures Avl(RightRotate(n)) && GetHeight(RightRotate(n)) == GetHeight(n) - 1
  {
    SameInorderOrdered(n, RightRotate(n));
  }

  lemma RightRight(n: Tree<int>)
    requires n.Node? && n.right.Node? && Ordered(n) && HeightsOk(n)
    requires Balanced(n.left) && Balanced(n.right)
    requires GetBalance(n) == -2 && GetBalance(n.right) == -1
    ensures Avl(LeftRotate(n)) && GetHeight(LeftRotate(n)) == GetHeight(n) - 1
  {
    SameInorderOrdered(n, LeftRotate(n));
  }

  /** A node with correct stored heights stores a positive height. */
  lemma {:induction false} HeightsPositive(t: Tree<int>)
    requires HeightsOk(t)
    ensures GetHeight(t) >= 0 && (t.Node? <==> GetHeight(t) >= 1)
  {
    if t.Node? {
      HeightsPositive(t.left);
      HeightsPositive(t.right);
    }
  }

  /** The two rotations of the left-right case put the left child's right
      child at the top, with the rest split below it. */
  lemma LeftRightShape(n: Tree<int>)
    requires n.Node? && n.left.Node? && n.left.right.Node?
    ensures var L, z := n.left, n.left.right;
      RightRotate(n.(left := LeftRotate(L)))
        == Make(Make(L.left, L.data, z.left), z.data, Make(z.right, n.data, n.right))
  {
  }

  lemma RightLeftShape(n: Tree<int>)
    requires n.Node? && n.right.Node? && n.right.left.Node?
    ensures var R, z := n.right, n.right.left;
      LeftRotate(n.(right := RightRotate(R)))
        == Make(Make(n.left, n.data, z.left), z.data, Make(z.right, R.data, R.right))
  {
  }

  /** Both double rotations end in this shape: four subtrees, the outer two
      of some height `h` and the inner two of height `h` or `h - 1`, joined
      under three nodes make a balanced tree of height `h + 2`. */
  lemma DoubleRotated(a: Tree<int>, b: Tree<int>, c: Tree<int>, d: Tree<int>, p: int, q: int, s: int)
    requires HeightsOk(a) && HeightsOk(b) && HeightsOk(c) && HeightsOk(d)
    requires Balanced(a) && Balanced(b) && Balanced(c) && Balanced(d)
    requires GetHeight(d) == GetHeight(a)
    requires GetHeight(a) - 1 <= GetHeight(b) <= GetHeight(a)
    requires GetHeight(a) - 1 <= GetHeight(c) <= GetHeight(a)
    ensures var r := Make(Make(a, p, b), q, Make(c, s, d));
      HeightsOk(r) && Balanced(r) && GetHeight(r) == GetHeight(a) + 2
  {
  }

  /** The left-right case: the left child's right child is a node, and the
      two rotations balance and lower the node. */
  lemma LeftRight(n: Tree<int>)
    requires n.Node? && n.left.Node? && Ordered(n) && HeightsOk(n)
    requires Balanced(n.left) && Balanced(n.right)
    requires GetBalance(n) == 2 && GetBalance(n.left) == -1
    ensures n.left.right.Node?
    ensures Avl(RightRotate(n.(left := LeftRotate(n.left))))
    ensures GetHeight(RightRotate(n.(left := LeftRotate(n.left)))) == GetHeight(n) - 1
  {
    var L := n.left;
    HeightsPositive(L.left);
    HeightsPositive(L.right);
    var z := L.right;
    LeftRightShape(n);
    assert GetHeight(L) == GetHeight(n.right) + 2 && GetHeight(z) == GetHeight(L.left) + 1;
    DoubleRotated(L.left, z.left, z.right, n.right, L.data, z.data, n.data);
    var r := RightRotate(n.(left := LeftRotate(L)));
    assert Inorder(r) == Inorder(n);
    SameInorderOrdered(n, r);
  }

  lemma RightLeft(n: Tree<int>)
    requires n.Node? && n.right.Node? && Ordered(n) && HeightsOk(n)
    requires Balanced(n.left) && Balanced(n.right)
    requires GetBalance(n) == -2 && GetBalance(n.right) == 1
    ensures n.right.left.Node?
    ensures Avl(LeftRotate(n.(right := RightRotate(n.right))))
    ensures GetHeight(LeftRotate(n.(right := RightRotate(n.right)))) == GetHeight(n) - 1
  {
    var R := n.right;
    HeightsPositive(R.left);
    HeightsPositive(R.right);
    var z := R.left;
    RightLeftShape(n);
    assert GetHeight(R) == GetHeight(n.left) + 2 && GetHeight(z) == GetHeight(R.right) + 1;
    DoubleRotated(n.left, z.left, z.right, R.right, n.data, z.data, R.data);
    var r := LeftRotate(n.(right := RightRotate(R)));
    assert Inorder(r) == Inorder(n);
    SameInorderOrdered(n, r);
  }

  /** The four rotation cases at the end of insertHelper, tried in the order
      left-left, right-right, left-right, right-left. */
  function Rebalance(n: Tree<int>, v: int): (r: Tree<int>)
    requires Leaning(n, v)
    ensures Avl(r) && Elements(r) == Elements(n)
    ensures -1 <= GetBalance(n) <= 1 ==> r == n
    ensures GetBalance(n) == 2 || GetBalance(n) == -2 ==> GetHeight(r) == GetHeight(n) - 1
  {
    var b := GetBalance(n);
    if b > 1 && v < n.left.data then
      LeftLeft(n);
      RightRotate(n)
    else if b < -1 && v > n.right.data then
      RightRight(n);
      LeftRotate(n)
    else if b > 1 && v > n.left.data then
      LeftRight(n);
      RightRotate(n.(left := LeftRotate(n.left)))
    else if b < -1 && v < n.right.data then
      RightLeft(n);
      LeftRotate(n.(right := RightRotate(n.right)))
    else
      n
  }

  /** After the left subtree took the value and the node was rebalanced
      into `r`: the insertion into `t` is complete. */
  lemma InsertedLeft(t: Tree<int>, v: int, l': Tree<int>, r: Tree<int>)
    requires t.Node? && t == Make(t.left, t.data, t.right) && -1 <= GetBalance(t) <= 1
    requires v < t.data && v !in Elements(t.right)
    requires Elements(l') == Elements(t.left) + {v} && Grows(t.left, v, l')
    requires v in Elements(t.left) ==> l' == t.left
    requires var n := Make(l', t.data, t.right);
      && Elements(r) == Elements(n)
      && (-1 <= GetBalance(n) <= 1 ==> r == n)
      && (GetBalance(n) == 2 || GetBalance(n) == -2 ==> GetHeight(r) == GetHeight(n) - 1)
    ensures Elements(r) == Elements(t) + {v} && Grows(t, v, r) && (v in Elements(t) ==> r == t)
  {
    var n := Make(l', t.data, t.right);
    assert Elements(n) == Elements(t) + {v} by {
      assert Elements(n) == Elements(l') + {t.data} + Elements(t.right);
    }
    if v in Elements(t.left) {
      assert n == t;
    } else if GetHeight(l') == GetHeight(t.left) {
      assert GetBalance(n) == GetBalance(t) && GetHeight(n) == GetHeight(t);
    } else if GetBalance(t) == 1 {
      assert GetBalance(n) == 2 && GetHeight(n) == GetHeight(t) + 1;
    } else {
      assert r == n && GetBalance(n) == GetBalance(t) + 1;
    }
  }

  lemma LeansLeft(t: Tree<int>, v: int, l': Tree<int>)
    requires Avl(t) && t.Node? && v < t.data
    requires Avl(l') && Elements(l') == Elements(t.left) + {v} && Grows(t.left, v, l')
    requires v in Elements(t.left) ==> l' == t.left
    ensures Leaning(Make(l', t.data, t.right), v)
  {
    assert Ordered(t);
    assert v !in Elements(t.right);
    HeightsPositive(t.left);
    HeightsPositive(t.right);
  }

  lemma InsertedRight(t: Tree<int>, v: int, r': Tree<int>, r: Tree<int>)
    requires t.Node? && t == Make(t.left, t.data, t.right) && -1 <= GetBalance(t) <= 1
    requires t.data < v && v !in Elements(t.left)
    requires Elements(r') == Elements(t.right) + {v} && Grows(t.right, v, r')
    requires v in Elements(t.right) ==> r' == t.right
    requires var n := Make(t.left, t.data, r');
      && Elements(r) == Elements(n)
      && (-1 <= GetBalance(n) <= 1 ==> r == n)
      && (GetBalance(n) == 2 || GetBalance(n) == -2 ==> GetHeight(r) == GetHeight(n) - 1)
    ensures Elements(r) == Elements(t) + {v} && Grows(t, v, r) && (v in Elements(t) ==> r == t)
  {
    var n := Make(t.left, t.data, r');
    assert Elements(n) == Elements(t) + {v} by {
      assert Elements(n) == Elements(t.left) + {t.data} + Elements(r');
    }
    if v in Elements(t.right) {
      assert n == t;
    } else if GetHeight(r') == GetHeight(t.right) {
      assert GetBalance(n) == GetBalance(t) && GetHeight(n) == GetHeight(t);
    } else if GetBalance(t) == -1 {
      assert GetBalance(n) == -2 && GetHeight(n) == GetHeight(t) + 1;
    } else {
      assert r == n && GetBalance(n) == GetBalance(t) - 1;
    }
  }

  lemma LeansRight(t: Tree<int>, v: int, r': Tree<int>)
    requires Avl(t) && t.Node? && t.data < v
    requires Avl(r') && Elements(r') == Elements(t.right) + {v} && Grows(t.right, v, r')
    requires v in Elements(t.right) ==> r' == t.right
    ensures Leaning(Make(t.left, t.data, r'), v)
  {
    assert Ordered(t);
    assert v !in Elements(t.left);
    HeightsPositive(t.left);
    HeightsPositive(t.right);
  }

  /** insertHelper: descend as in a binary search tree (an equal value is
      not inserted again), relink, recompute the height, rebalance. */
  function InsertHelper(t: Tree<int>, v: int): (r: Tree<int>)
    requires Avl(t)
    ensures Avl(r) && Elements(r) == Elements(t) + {v}
    ensures Grows(t, v, r)
    ensures v in Elements(t) ==> r == t
  {
    match t
    case Nil => Node(Nil, v, Nil, 1)
    case Node(l, x, rt, _) =>
      if v < x then
        var l' := InsertHelper(l, v);
        LeansLeft(t, v, l');
        var r := Rebalance(Make(l', x, rt), v);
        InsertedLeft(t, v, l', r);
        r
      else if v > x then
        var r' := InsertHelper(rt, v);
        LeansRight(t, v, r');
        var r := Rebalance(Make(l, x, r'), v);
        InsertedRight(t, v, r', r);
        r
      else
        t
  }

  /** getNodeHeightHelper: the stored height of the node found, less one. */
  function StoredNodeHeight(t: Tree<int>, v: int): (r: Result<int>)
    ensures HeightsOk(t) ==> r == NodeHeight(t, v)
  {
    match t
    case Nil => Err(LogicError)
    case Node(l, x, rt, h) =>
      if x == v then StoredHeight(t); Ok(h - 1)
      else if v < x then StoredNodeHeight(l, v)
      else StoredNodeHeight(rt, v)
  }

  class AvlTree {
    var root: Tree<int>

    ghost predicate Valid()
      reads this
    {
      Avl(root)
    }

    constructor()
      ensures Valid() && root == Nil
    {
      root := Nil;
    }

    method Insert(v: int)
      requires Valid()
      modifies this
      ensures Valid() && root == InsertHelper(old(root), v)
      ensures Elements(root) == Elements(old(root)) + {v}
      ensures v in Elements(old(root)) ==> root == old(root)
    {
      root := InsertHelper(root, v);
    }

    /** search: logic_error on an empty tree (the other two trees throw
        runtime_error), otherwise searchHelper from level 1, position 0. */
    method Search(v: int) returns (r: Result<SearchResult>)
      requires Valid()
      ensures root == Nil ==> r == Err(LogicError)
      ensures root != Nil ==> r.Ok? && (r.value.Found? <==> v in Elements(root))
      ensures r.Ok? && r.value.Found? ==>
        1 <= r.value.level && r.value.position < Pow2(r.value.level - 1)
        && NodeAt(root, r.value.level - 1, r.value.position).Node?
        && NodeAt(root, r.value.level - 1, r.value.position).data == v
    {
      if root == Nil {
        return Err(LogicError);
      }
      OrderedWeakly(root);
      SearchLocates(root, v, 1, 0);
      return Ok(SearchHelper(root, v, 1, 0));
    }

    /** getNodeHeight: runtime_error on an empty tree, logic_error when the
        value is absent, otherwise the height of its node. */
    method GetNodeHeight(v: int) returns (r: Result<int>)
      requires Valid()
      ensures root == Nil ==> r == Err(RuntimeError)
      ensures root != Nil && v !in Elements(root) ==> r == Err(LogicError)
      ensures v in Elements(root) ==> r == Ok(Height(Find(root, v)))
    {
      if root == Nil {
        return Err(RuntimeError);
      }
      OrderedWeakly(root);
      return StoredNodeHeight(root, v);
    }

    method GetNodeDepth(v: int) returns (r: Result<int>)
      requires Valid()
      ensures root == Nil ==> r == Err(RuntimeError)
      ensures root != Nil && v !in Elements(root) ==> r == Err(LogicError)
      ensures v in Elements(root) ==>
        var s := SearchHelper(root, v, 1, 0); s.Found? && r == Ok(s.level - 1)
    {
      if root == Nil {
        return Err(RuntimeError);
      }
      OrderedWeakly(root);
      DepthIsLevel(root, v, 0);
      return NodeDepth(root, v, 0);
    }

    /** getTreeHeight: the root's stored height less one, -1 when empty. */
    method GetTreeHeight() returns (h: int)
      requires Valid()
      ensures h == Height(root)
    {
      if root == Nil {
        return -1;
      }
      StoredHeight(root);
      return root.info - 1;
    }
  }
}

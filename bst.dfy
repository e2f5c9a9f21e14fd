// BinarySearchTree of trees/trees.hpp. The chain of nodes below `root` is
// modelled by a tree value; insertHelper, which relinks one child pointer on
// the way back up, becomes a function returning the new subtree.
module BinarySearchTrees {
  import opened Wrappers
  import opened BinaryTrees

  /** insertHelper: smaller values go left, larger right, an equal value is
      not inserted again. */
  function InsertHelper(t: Tree<()>, v: int): (r: Tree<()>)
    ensures Elements(r) == Elements(t) + {v}
    ensures Ordered(t) ==> Ordered(r)
    ensures Ordered(t) && v in Elements(t) ==> r == t
    ensures r.Node?
  {
    match t
    case Nil => Node(Nil, v, Nil, ())
    case Node(l, x, rt, _) =>
      if v < x then
        assert Ordered(t) ==> v !in Elements(rt);
        t.(left := InsertHelper(l, v))
      else if v > x then
        assert Ordered(t) ==> v !in Elements(l);
        t.(right := InsertHelper(rt, v))
      else t
  }

  /** Insertion keeps the in-order sequence strictly increasing and adds
      exactly the inserted value to it. */
  lemma InsertKeepsInorderIncreasing(t: Tree<()>, v: int)
    requires Increasing(Inorder(t))
    ensures Increasing(Inorder(InsertHelper(t, v)))
    ensures forall x :: x in Inorder(InsertHelper(t, v)) <==> x in Inorder(t) || x == v
    ensures v in Inorder(t) ==> Inorder(InsertHelper(t, v)) == Inorder(t)
  {
    OrderedInorder(t);
    OrderedInorder(InsertHelper(t, v));
  }

  class BinarySearchTree {
    var root: Tree<()>

    ghost predicate Valid()
      reads this
    {
      Ordered(root)
    }

    constructor()
      ensures Valid() && root == Nil
    {
      root := Nil;
    }

    method Insert(v: int)
      requires Valid()
      modifies this
      ensures Valid() && root == InsertHelper(old(root), v)
      ensures Elements(root) == Elements(old(root)) + {v}
    {
      root := InsertHelper(root, v);
    }

    /** search: runtime_error on an empty tree, otherwise searchHelper from
        level 1, position 0. */
    method Search(v: int) returns (r: Result<SearchResult>)
      requires Valid()
      ensures root == Nil ==> r == Err(RuntimeError)
      ensures root != Nil ==> r.Ok? && (r.value.Found? <==> v in Elements(root))
      ensures r.Ok? && r.value.Found? ==>
        1 <= r.value.level && r.value.position < Pow2(r.value.level - 1)
        && NodeAt(root, r.value.level - 1, r.value.position).Node?
        && NodeAt(root, r.value.level - 1, r.value.position).data == v
    {
      if root == Nil {
        return Err(RuntimeError);
      }
      OrderedWeakly(root);
      SearchLocates(root, v, 1, 0);
      return Ok(SearchHelper(root, v, 1, 0));
    }

    /** getNodeHeight: runtime_error on an empty tree, logic_error when the
        value is absent, otherwise the height of its node. */
    method GetNodeHeight(v: int) returns (r: Result<int>)
      requires Valid()
      ensures root == Nil ==> r == Err(RuntimeError)
      ensures root != Nil && v !in Elements(root) ==> r == Err(LogicError)
      ensures v in Elements(root) ==> r == Ok(Height(Find(root, v)))
    {
      if root == Nil {
        return Err(RuntimeError);
      }
      OrderedWeakly(root);
      return NodeHeight(root, v);
    }

    /** getNodeDepth: runtime_error on an empty tree, logic_error when the
        value is absent, otherwise one less than the level search reports. */
    method GetNodeDepth(v: int) returns (r: Result<int>)
      requires Valid()
      ensures root == Nil ==> r == Err(RuntimeError)
      ensures root != Nil && v !in Elements(root) ==> r == Err(LogicError)
      ensures v in Elements(root) ==>
        var s := SearchHelper(root, v, 1, 0); s.Found? && r == Ok(s.level - 1)
    {
      if root == Nil {
        return Err(RuntimeError);
      }
      OrderedWeakly(root);
      DepthIsLevel(root, v, 0);
      return NodeDepth(root, v, 0);
    }

    /** getTreeHeight: -1 for an empty tree, otherwise calculateHeight. */
    method GetTreeHeight() returns (h: int)
      ensures root == Nil <==> h == -1
      ensures h == Height(root)
    {
      if root == Nil {
        return -1;
      }
      return Height(root);
    }
  }
}

// RedBlackTree of trees/trees.hpp. The NIL sentinel is the empty tree and
// the parent pointers are replaced by a zipper: the path of frames from the
// root down to the node the fix-up loop is looking at. insertHelper's
// descent, fixInsert's loop and the two rotations become operations on that
// path and the subtree below it.
module RedBlackTrees {
  import opened Wrappers
  import opened BinaryTrees

  datatype Color = Red | Black

  predicate IsRed(t: Tree<Color>)
  {
    t.Node? && t.info == Red
  }

  /** The number of black nodes on every path down (NIL not counted). */
  function BlackHeight(t: Tree<Color>): nat
  {
    match t
    case Nil => 0
    case Node(l, _, _, c) => BlackHeight(l) + if c == Black then 1 else 0
  }

  ghost predicate BlackBalanced(t: Tree<Color>)
  {
    t.Node? ==>
      BlackHeight(t.left) == BlackHeight(t.right) && BlackBalanced(t.left) && BlackBalanced(t.right)
  }

  /** Red nodes have black children. */
  ghost predicate NoRedRed(t: Tree<Color>)
  {
    t.Node? ==>
      && (t.info == Red ==> !IsRed(t.left) && !IsRed(t.right))
      && NoRedRed(t.left) && NoRedRed(t.right)
  }

  ghost predicate RedBlack(t: Tree<Color>)
  {
    NoRedRed(t) && BlackBalanced(t)
  }

  datatype Dir = Left | Right

  /** A node on the way down: its value and colour, the side the path
      continues on, and its child on the other side. */
  datatype Frame = Frame(dir: Dir, data: int, color: Color, other: Tree<Color>)

  function Plug(f: Frame, t: Tree<Color>): (r: Tree<Color>)
    ensures r.Node? && r.data == f.data && r.info == f.color
  {
    if f.dir == Left then Node(t, f.data, f.other, f.color) else Node(f.other, f.data, t, f.color)
  }

  /** The whole tree: `t` put back at the bottom of `path`. */
  function Zip(path: seq<Frame>, t: Tree<Color>): Tree<Color>
    decreases |path|
  {
    if path == [] then t else Zip(path[..|path| - 1], Plug(path[|path| - 1], t))
  }

  /** A subtree of black height `h`, with a red root exactly when `red`, may
      be put at the bottom of `path` to give a red-black tree. */
  ghost predicate ContextOk(path: seq<Frame>, h: nat, red: bool)
    decreases |path|
  {
    path != [] ==>
      var f := path[|path| - 1];
      && RedBlack(f.other) && BlackHeight(f.other) == h
      && (f.color == Red ==> !red && !IsRed(f.other))
      && ContextOk(path[..|path| - 1], h + if f.color == Black then 1 else 0, f.color == Red)
  }

  lemma {:induction false} ZipRedBlack(path: seq<Frame>, t: Tree<Color>)
    requires RedBlack(t) && ContextOk(path, BlackHeight(t), IsRed(t))
    ensures RedBlack(Zip(path, t))
    decreases |path|
  {
    if path != [] {
      ZipRedBlack(path[..|path| - 1], Plug(path[|path| - 1], t));
    }
  }

  lemma {:induction false} UnzipRedBlack(path: seq<Frame>, t: Tree<Color>)
    requires RedBlack(Zip(path, t))
    ensures RedBlack(t) && ContextOk(path, BlackHeight(t), IsRed(t))
    decreases |path|
  {
    if path != [] {
      UnzipRedBlack(path[..|path| - 1], Plug(path[|path| - 1], t));
    }
  }

  lemma {:induction false} ZipInorder(path: seq<Frame>, t1: Tree<Color>, t2: Tree<Color>)
    requires Inorder(t1) == Inorder(t2)
    ensures Inorder(Zip(path, t1)) == Inorder(Zip(path, t2))
    decreases |path|
  {
    if path != [] {
      var f := path[|path| - 1];
      ZipInorder(path[..|path| - 1], Plug(f, t1), Plug(f, t2));
    }
  }

  /** leftRotate: the right child moves up; every node keeps its colour. */
  function RotateLeft(x: Tree<Color>): (r: Tree<Color>)
    requires x.Node? && x.right.Node?
    ensures Inorder(r) == Inorder(x)
  {
    var y := x.right;
    Node(Node(x.left, x.data, y.left, x.info), y.data, y.right, y.info)
  }

  /** rightRotate: the left child moves up; every node keeps its colour. */
  function RotateRight(y: Tree<Color>): (r: Tree<Color>)
    requires y.Node? && y.left.Node?
    ensures Inorder(r) == Inorder(y)
  {
    var x := y.left;
    Node(x.left, x.data, Node(x.right, y.data, y.right, y.info), x.info)
  }

  /** insertHelper's descent, written as a recursion: smaller values go left,
      equal and larger ones right, and the new red node replaces NIL. */
  function Attach(t: Tree<Color>, v: int): (r: Tree<Color>)
    ensures Elements(r) == Elements(t) + {v}
    ensures WeaklyOrdered(t) ==> WeaklyOrdered(r)
  {
    match t
    case Nil => Node(Nil, v, Nil, Red)
    case Node(l, x, rt, c) =>
      if v < x then Node(Attach(l, v), x, rt, c) else Node(l, x, Attach(rt, v), c)
  }

  /** The new node adds one copy of its value to the in-order sequence. */
  lemma {:induction false} AttachMultiset(t: Tree<Color>, v: int)
    ensures multiset(Inorder(Attach(t, v))) == multiset(Inorder(t)) + multiset{v}
  {
    match t
    case Nil =>
    case Node(l, x, rt, c) =>
      if v < x {
        AttachMultiset(l, v);
      } else {
        AttachMultiset(rt, v);
      }
  }

  /** insertHelper's loop: walk down from the root to the NIL where the new
      node goes, remembering the path. */
  method Descend(root: Tree<Color>, v: int) returns (path: seq<Frame>)
    ensures Zip(path, Nil) == root
    ensures Zip(path, Node(Nil, v, Nil, Red)) == Attach(root, v)
  {
    path := [];
    var x := root;
    while x.Node?
      invariant Zip(path, x) == root
      invariant Zip(path, Attach(x, v)) == Attach(root, v)
      decreases x
    {
      var f;
      if v < x.data {
        f := Frame(Left, x.data, x.info, x.right);
        assert Plug(f, x.left) == x && Plug(f, Attach(x.left, v)) == Attach(x, v);
        path, x := path + [f], x.left;
      } else {
        f := Frame(Right, x.data, x.info, x.left);
        assert Plug(f, x.right) == x && Plug(f, Attach(x.right, v)) == Attach(x, v);
        path, x := path + [f], x.right;
      }
      assert (path[..|path| - 1], path[|path| - 1]) == (path[..|path| - 1], f);
    }
  }

  /** What fixInsert's loop keeps: the subtree `k` it looks at is a
      red-black tree that fits the path below its parent, the only possible
      violation being a red `k` under a red parent; the root is black; and
      while the loop goes on `k` is red. */
  ghost predicate FixState(path: seq<Frame>, k: Tree<Color>, done: bool)
  {
    && k.Node? && RedBlack(k) && ContextOk(path, BlackHeight(k), false)
    && (path != [] ==> path[0].color == Black)
    && (done <==> !IsRed(k))
  }

  /** A black parent accepts a red child as well. */
  lemma BlackParent(path: seq<Frame>, h: nat)
    requires path != [] && path[|path| - 1].color == Black && ContextOk(path, h, false)
    ensures ContextOk(path, h, true)
  {
  }

  lemma PrefixHead(path: seq<Frame>, n: nat)
    requires 0 < n <= |path|
    ensures path[..n][0] == path[0]
  {
  }

  lemma ZipTwo(path: seq<Frame>, k: Tree<Color>)
    requires |path| >= 2
    ensures Zip(path, k) == Zip(path[..|path| - 2], Plug(path[|path| - 2], Plug(path[|path| - 1], k)))
  {
    assert path[..|path| - 1][..|path| - 2] == path[..|path| - 2];
  }

  /** The context two frames up, when the parent is red. */
  lemma UpTwo(path: seq<Frame>, k: Tree<Color>)
    requires |path| >= 2 && path[|path| - 1].color == Red
    requires FixState(path, k, false)
    ensures var p, g := path[|path| - 1], path[|path| - 2];
      && RedBlack(p.other) && BlackHeight(p.other) == BlackHeight(k) && !IsRed(p.other)
      && g.color == Black && RedBlack(g.other) && BlackHeight(g.other) == BlackHeight(k)
      && ContextOk(path[..|path| - 2], BlackHeight(k) + 1, false)
  {
    var n := |path|;
    var path1 := path[..n - 1];
    assert ContextOk(path1, BlackHeight(k), true);
    assert path1[|path1| - 1] == path[n - 2];
    assert path1[..|path1| - 1] == path[..n - 2];
  }

  /** Red uncle: the parent and the uncle turn black, the grandparent red, and
      the loop goes on from the grandparent. */
  function Recolor(p: Frame, g: Frame, k: Tree<Color>): (r: Tree<Color>)
    requires g.other.Node?
  {
    var parent := Plug(p.(color := Black), k);
    var uncle := g.other.(info := Black);
    if g.dir == Left then Node(parent, g.data, uncle, Red) else Node(uncle, g.data, parent, Red)
  }

  lemma RecolorStep(path: seq<Frame>, k: Tree<Color>)
    requires |path| >= 2 && path[|path| - 1].color == Red && IsRed(path[|path| - 2].other)
    requires FixState(path, k, false)
    ensures var r := Recolor(path[|path| - 1], path[|path| - 2], k);
      && FixState(path[..|path| - 2], r, false)
      && Inorder(Zip(path[..|path| - 2], r)) == Inorder(Zip(path, k))
  {
    var p, g := path[|path| - 1], path[|path| - 2];
    UpTwo(path, k);
    if |path| > 2 {
      PrefixHead(path, |path| - 2);
    }
    var r := Recolor(p, g, k);
    ZipTwo(path, k);
    ZipInorder(path[..|path| - 2], r, Plug(g, Plug(p, k)));
  }

  /** Black uncle: rotate the parent first when `k` is on the inner side,
      then blacken the parent, redden the grandparent and rotate it. The
      subtree that results has a black root, so fixInsert's next loop test
      stops; the model leaves the loop at once. */
  function Restructure(p: Frame, g: Frame, k: Tree<Color>): (r: Tree<Color>)
    requires k.Node?
  {
    var parent := Plug(p, k);
    if g.dir == Left then
      var s := if p.dir == Right then RotateLeft(parent) else parent;
      RotateRight(Node(s.(info := Black), g.data, g.other, Red))
    else
      var s := if p.dir == Left then RotateRight(parent) else parent;
      RotateLeft(Node(g.other, g.data, s.(info := Black), Red))
  }

  lemma RestructureInorder(p: Frame, g: Frame, k: Tree<Color>)
    requires k.Node?
    ensures Inorder(Restructure(p, g, k)) == Inorder(Plug(g, Plug(p, k)))
  {
  }

  /** The rotations of a red node under a red parent with a black uncle
      give a valid subtree with a black root, one black level higher. */
  lemma RestructureRedBlack(p: Frame, g: Frame, k: Tree<Color>)
    requires k.Node? && RedBlack(k) && IsRed(k) && p.color == Red
    requires RedBlack(p.other) && BlackHeight(p.other) == BlackHeight(k) && !IsRed(p.other)
    requires RedBlack(g.other) && BlackHeight(g.other) == BlackHeight(k) && !IsRed(g.other)
    ensures var r := Restructure(p, g, k);
      r.Node? && RedBlack(r) && !IsRed(r) && BlackHeight(r) == BlackHeight(k) + 1
  {
    assert BlackHeight(k.left) == BlackHeight(k) && BlackHeight(k.right) == BlackHeight(k);
  }

  lemma RestructureStep(path: seq<Frame>, k: Tree<Color>)
    requires |path| >= 2 && path[|path| - 1].color == Red && !IsRed(path[|path| - 2].other)
    requires FixState(path, k, false)
    ensures var r := Restructure(path[|path| - 1], path[|path| - 2], k);
      && FixState(path[..|path| - 2], r, true)
      && Inorder(Zip(path[..|path| - 2], r)) == Inorder(Zip(path, k))
  {
    var p, g := path[|path| - 1], path[|path| - 2];
    UpTwo(path, k);
    if |path| > 2 {
      PrefixHead(path, |path| - 2);
    }
    var r := Restructure(p, g, k);
    RestructureRedBlack(p, g, k);
    ZipTwo(path, k);
    RestructureInorder(p, g, k);
    ZipInorder(path[..|path| - 2], r, Plug(g, Plug(p, k)));
  }

  /** The last line of fixInsert: the root turns black. */
  function Blacken(t: Tree<Color>): (r: Tree<Color>)
    ensures Inorder(r) == Inorder(t)
    ensures RedBlack(t) ==> RedBlack(r)
    ensures t.Node? ==> r.Node? && r.info == Black
  {
    if t.Nil? then t else t.(info := Black)
  }

  /** fixInsert: restore the red-black properties after a red node `k0` was
      linked in at the bottom of `path0`. */
  method FixInsert(path0: seq<Frame>, k0: Tree<Color>) returns (t: Tree<Color>)
    requires FixState(path0, k0, false)
    ensures RedBlack(t) && t.Node? && t.info == Black
    ensures Inorder(t) == Inorder(Zip(path0, k0))
  {
    var path, k, done := path0, k0, false;
    while !done && path != [] && path[|path| - 1].color == Red
      invariant FixState(path, k, done)
      invariant Inorder(Zip(path, k)) == Inorder(Zip(path0, k0))
      decreases |path|
    {
      var n := |path|;
      var p, g := path[n - 1], path[n - 2];
      if IsRed(g.other) {
        RecolorStep(path, k);
        path, k := path[..n - 2], Recolor(p, g, k);
      } else {
        RestructureStep(path, k);
        path, k, done := path[..n - 2], Restructure(p, g, k), true;
      }
    }
    if path != [] && !done {
      BlackParent(path, BlackHeight(k));
    }
    ZipRedBlack(path, k);
    assert Zip(path, k).Node? by {
      ZipNode(path, k);
    }
    t := Blacken(Zip(path, k));
  }

  lemma {:induction false} ZipNode(path: seq<Frame>, k: Tree<Color>)
    requires k.Node?
    ensures Zip(path, k).Node?
    decreases |path|
  {
    if path != [] {
      ZipNode(path[..|path| - 1], Plug(path[|path| - 1], k));
    }
  }

  /** insertHelper followed by fixInsert on a valid tree. */
  method InsertInto(root: Tree<Color>, v: int) returns (t: Tree<Color>)
    requires RedBlack(root) && WeaklyOrdered(root) && (root.Node? ==> root.info == Black)
    ensures RedBlack(t) && WeaklyOrdered(t) && t.Node? && t.info == Black
    ensures multiset(Inorder(t)) == multiset(Inorder(root)) + multiset{v}
  {
    var path := Descend(root, v);
    UnzipRedBlack(path, Nil);
    if path != [] {
      assert path[0].color == Black by {
        RootFrame(path, Nil);
      }
    }
    t := FixInsert(path, Node(Nil, v, Nil, Red));
    AttachMultiset(root, v);
    WeaklyOrderedInorder(Attach(root, v));
    WeaklyOrderedInorder(t);
  }

  /** The first frame of a path holds the root's colour. */
  lemma {:induction false} RootFrame(path: seq<Frame>, t: Tree<Color>)
    requires path != []
    ensures Zip(path, t).Node? && Zip(path, t).info == path[0].color
    decreases |path|
  {
    if |path| == 1 {
      assert Zip(path, t) == Zip([], Plug(path[0], t));
    } else {
      RootFrame(path[..|path| - 1], Plug(path[|path| - 1], t));
    }
  }

  class RedBlackTree {
    var root: Tree<Color>

    /** The properties the class documents: the root is black, red nodes
        have black children, every path has the same number of black nodes,
        and the values are in order. */
    ghost predicate Valid()
      reads this
    {
      RedBlack(root) && WeaklyOrdered(root) && (root.Node? ==> root.info == Black)
    }

    constructor()
      ensures Valid() && root == Nil
    {
      root := Nil;
    }

    /** insert: equal values are kept, so the values form a multiset. */
    method Insert(v: int)
      requires Valid()
      modifies this
      ensures Valid() && root.Node?
      ensures multiset(Inorder(root)) == multiset(Inorder(old(root))) + multiset{v}
    {
      root := InsertInto(root, v);
    }

    method Search(v: int) returns (r: Result<SearchResult>)
      requires Valid()
      ensures root == Nil ==> r == Err(RuntimeError)
      ensures root != Nil ==> r.Ok? && (r.value.Found? <==> v in Elements(root))
      ensures r.Ok? && r.value.Found? ==>
        1 <= r.value.level && r.value.position < Pow2(r.value.level - 1)
        && NodeAt(root, r.value.level - 1, r.value.position).Node?
        && NodeAt(root, r.value.level - 1, r.value.position).data == v
    {
      if root == Nil {
        return Err(RuntimeError);
      }
      SearchLocates(root, v, 1, 0);
      return Ok(SearchHelper(root, v, 1, 0));
    }

    method GetNodeHeight(v: int) returns (r: Result<int>)
      requires Valid()
      ensures root == Nil ==> r == Err(RuntimeError)
      ensures root != Nil && v !in Elements(root) ==> r == Err(LogicError)
      ensures v in Elements(root) ==> r == Ok(Height(Find(root, v)))
    {
      if root == Nil {
        return Err(RuntimeError);
      }
      return NodeHeight(root, v);
    }

    method GetNodeDepth(v: int) returns (r: Result<int>)
      requires Valid()
      ensures root == Nil ==> r == Err(RuntimeError)
      ensures root != Nil && v !in Elements(root) ==> r == Err(LogicError)
      ensures v in Elements(root) ==>
        var s := SearchHelper(root, v, 1, 0); s.Found? && r == Ok(s.level - 1)
    {
      if root == Nil {
        return Err(RuntimeError);
      }
      DepthIsLevel(root, v, 0);
      return NodeDepth(root, v, 0);
    }

    method GetTreeHeight() returns (h: int)
      ensures root == Nil <==> h == -1
      ensures h == Height(root)
    {
      if root == Nil {
        return -1;
      }
      return Height(root);
    }
  }
}

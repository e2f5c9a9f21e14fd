// TreeMap of maps/maps.hpp: an AVL tree of key/value nodes, each storing
// its height. insertNode, eraseNode, balance and the rotations relink child
// pointers and rewrite stored fields; they become functions and methods
// from the old subtree to the new one. A node's `info` holds its value and
// its stored height.
module TreeMaps {
  import opened Wrappers
  import opened MapSpecs
  import opened BinaryTrees

  datatype Slot = Slot(value: int, height: int)

  /** height: the stored height, 0 for no node. */
  function HeightOf(t: Tree<Slot>): int
  {
    if t.Nil? then 0 else t.info.height
  }

  /** balanceFactor: left height less right height, 0 for no node. */
  function BalanceFactor(t: Tree<Slot>): int
  {
    if t.Nil? then 0 else HeightOf(t.left) - HeightOf(t.right)
  }

  /** A node whose stored height updateHeight has recomputed from its
      children. */
  function Make(l: Tree<Slot>, k: int, v: int, r: Tree<Slot>): (t: Tree<Slot>)
    ensures t.Node? && t.left == l && t.data == k && t.info.value == v && t.right == r
    ensures HeightOf(t) == 1 + if HeightOf(l) < HeightOf(r) then HeightOf(r) else HeightOf(l)
  {
    Node(l, k, r, Slot(v, 1 + if HeightOf(l) < HeightOf(r) then HeightOf(r) else HeightOf(l)))
  }

  /** Every stored height is one more than the taller child's. */
  ghost predicate HeightsOk(t: Tree<Slot>)
  {
    t.Node? ==>
      && t == Make(t.left, t.data, t.info.value, t.right)
      && HeightsOk(t.left) && HeightsOk(t.right)
  }

  /** Every node's children differ in height by at most one. */
  ghost predicate Balanced(t: Tree<Slot>)
  {
    t.Node? ==> -1 <= BalanceFactor(t) <= 1 && Balanced(t.left) && Balanced(t.right)
  }

  ghost predicate Avl(t: Tree<Slot>)
  {
    Ordered(t) && HeightsOk(t) && Balanced(t)
  }

  lemma {:induction false} HeightsPositive(t: Tree<Slot>)
    requires HeightsOk(t)
    ensures HeightOf(t) >= 0 && (t.Node? <==> HeightOf(t) >= 1)
  {
    if t.Node? {
      HeightsPositive(t.left);
      HeightsPositive(t.right);
    }
  }

  /** The map the tree stands for. */
  ghost function Contents(t: Tree<Slot>): map<int, int>
  {
    match t
    case Nil => map[]
    case Node(l, k, r, s) => Contents(l)[k := s.value] + Contents(r)
  }

  /** The keys of the map are the keys held in the nodes. */
  lemma {:induction false} ContentsKeys(t: Tree<Slot>)
    ensures Contents(t).Keys == Elements(t)
  {
    if t.Node? {
      ContentsKeys(t.left);
      ContentsKeys(t.right);
    }
  }

  lemma NodeKeys(t: Tree<Slot>)
    requires t.Node?
    ensures Contents(t).Keys == Elements(t)
    ensures Contents(t.left).Keys == Elements(t.left) && Contents(t.right).Keys == Elements(t.right)
  {
    ContentsKeys(t);
    ContentsKeys(t.left);
    ContentsKeys(t.right);
  }

  /** inorder: the pairs of the tree, left subtree first. */
  function InorderPairs(t: Tree<Slot>): (r: seq<Pair>)
  {
    match t
    case Nil => []
    case Node(l, k, rt, s) => InorderPairs(l) + [(k, s.value)] + InorderPairs(rt)
  }

  /** The keys of the in-order pairs are the tree's in-order keys. */
  lemma {:induction false} InorderKeys(t: Tree<Slot>)
    ensures KeySeq(InorderPairs(t)) == Inorder(t)
  {
    match t
    case Nil =>
    case Node(l, k, rt, s) =>
      var a, b := InorderPairs(l), InorderPairs(rt);
      calc {
        KeySeq(InorderPairs(t));
        KeySeq(a + [(k, s.value)] + b);
        { KeySeqAppend(a + [(k, s.value)], b); }
        KeySeq(a + [(k, s.value)]) + KeySeq(b);
        { KeySeqAppend(a, [(k, s.value)]); }
        KeySeq(a) + KeySeq([(k, s.value)]) + KeySeq(b);
        { InorderKeys(l); InorderKeys(rt); assert KeySeq([(k, s.value)]) == [k]; }
        Inorder(l) + [k] + Inorder(rt);
        Inorder(t);
      }
  }

  /** In an ordered tree the in-order pairs have increasing keys and list
      exactly the tree's map. */
  lemma PairsOfOrdered(t: Tree<Slot>)
    requires Ordered(t)
    ensures KeysIncreasing(InorderPairs(t)) && Distinct(InorderPairs(t))
    ensures Agrees(InorderPairs(t), Contents(t))
  {
    var ps := InorderPairs(t);
    OrderedInorder(t);
    InorderKeys(t);
    assert KeysIncreasing(ps) by {
      forall i, j | 0 <= i < j < |ps| ensures ps[i].0 < ps[j].0 {
        assert KeySeq(ps)[i] == ps[i].0 && KeySeq(ps)[j] == ps[j].0;
      }
    }
    PairsAgree(t);
  }

  lemma {:induction false} PairsAgree(t: Tree<Slot>)
    requires Ordered(t)
    ensures Distinct(InorderPairs(t)) && Agrees(InorderPairs(t), Contents(t))
  {
    if t.Node? {
      PairsAgree(t.left);
      PairsAgree(t.right);
      NodeKeys(t);
      AgreesNode(InorderPairs(t.left), Contents(t.left), (t.data, t.info.value),
                 InorderPairs(t.right), Contents(t.right));
    }
  }

  /** The listings of two maps with a key between them, joined around it. */
  lemma AgreesNode(a: seq<Pair>, ml: map<int, int>, x: Pair, c: seq<Pair>, mr: map<int, int>)
    requires Distinct(a) && Agrees(a, ml) && Distinct(c) && Agrees(c, mr)
    requires (forall k :: k in ml ==> k < x.0) && (forall k :: k in mr ==> x.0 < k)
    ensures Distinct(a + [x] + c) && Agrees(a + [x] + c, ml[x.0 := x.1] + mr)
  {
    assert ml[x.0 := x.1] == ml + map[x.0 := x.1];
    AgreesAppend(a, ml, [x], map[x.0 := x.1]);
    AgreesAppend(a + [x], ml[x.0 := x.1], c, mr);
  }

  /** Two ordered trees with the same in-order pairs stand for the same map;
      so rotations, which keep the in-order sequence, keep order and map. */
  lemma SamePairs(t: Tree<Slot>, u: Tree<Slot>)
    requires Ordered(t) && InorderPairs(u) == InorderPairs(t)
    ensures Ordered(u) && Contents(u) == Contents(t)
  {
    OrderedInorder(t);
    OrderedInorder(u);
    InorderKeys(t);
    InorderKeys(u);
    PairsOfOrdered(t);
    PairsOfOrdered(u);
    AgreesToMap(InorderPairs(t), Contents(t));
    AgreesToMap(InorderPairs(u), Contents(u));
  }

  /** Ordered trees with the same map have the same in-order pairs: pairs()
      depends on the map only, not on the shape of the tree. */
  lemma PairsDetermined(t: Tree<Slot>, u: Tree<Slot>)
    requires Ordered(t) && Ordered(u) && Contents(t) == Contents(u)
    ensures InorderPairs(t) == InorderPairs(u)
  {
    PairsOfOrdered(t);
    PairsOfOrdered(u);
    IncreasingUnique(InorderPairs(t), InorderPairs(u), Contents(t));
  }

  /** rotateRight: the left child x becomes the root; y and then x get their
      heights recomputed. */
  function RotateRight(y: Tree<Slot>): (r: Tree<Slot>)
    requires y.Node? && y.left.Node?
    ensures InorderPairs(r) == InorderPairs(y)
    ensures HeightsOk(y.left.left) && HeightsOk(y.left.right) && HeightsOk(y.right) ==> HeightsOk(r)
  {
    var x := y.left;
    Make(x.left, x.data, x.info.value, Make(x.right, y.data, y.info.value, y.right))
  }

  /** rotateLeft: the right child y becomes the root. */
  function RotateLeft(x: Tree<Slot>): (r: Tree<Slot>)
    requires x.Node? && x.right.Node?
    ensures InorderPairs(r) == InorderPairs(x)
    ensures HeightsOk(x.left) && HeightsOk(x.right.left) && HeightsOk(x.right.right) ==> HeightsOk(r)
  {
    var y := x.right;
    Make(Make(x.left, x.data, x.info.value, y.left), y.data, y.info.value, y.right)
  }

  /** A node whose children are AVL trees, whose keys are in order and whose
      children differ in height by at most two: what balance is given after
      insertNode or eraseNode relinked one child. */
  ghost predicate Leaning(n: Tree<Slot>)
  {
    && n.Node? && Ordered(n)
    && HeightsOk(n.left) && HeightsOk(n.right) && Balanced(n.left) && Balanced(n.right)
    && -2 <= BalanceFactor(n) <= 2
  }

  /** Left-heavy by two, with the left child not leaning right: one right
      rotation balances the node; it lowers it unless the left child was
      level. */
  lemma LeftSingle(m: Tree<Slot>)
    requires m.Node? && HeightsOk(m) && Balanced(m.left) && Balanced(m.right) && BalanceFactor(m) == 2
    ensures m.left.Node?
    ensures BalanceFactor(m.left) >= 0 ==>
      && HeightsOk(RotateRight(m)) && Balanced(RotateRight(m))
      && HeightOf(RotateRight(m)) == HeightOf(m) - (if BalanceFactor(m.left) == 0 then 0 else 1)
  {
    HeightsPositive(m.left);
    HeightsPositive(m.right);
  }

  /** Left-heavy by two with the left child leaning right: that child's
      right child is a node, and the two rotations balance and lower the
      node. */
  lemma LeftDouble(m: Tree<Slot>)
    requires m.Node? && HeightsOk(m) && Balanced(m.left) && Balanced(m.right) && BalanceFactor(m) == 2
    requires m.left.Node? && BalanceFactor(m.left) < 0
    ensures m.left.right.Node?
    ensures var r := RotateRight(m.(left := RotateLeft(m.left)));
      HeightsOk(r) && Balanced(r) && HeightOf(r) == HeightOf(m) - 1
  {
    var L := m.left;
    HeightsPositive(L.left);
    HeightsPositive(L.right);
    var z := L.right;
    assert RotateRight(m.(left := RotateLeft(L)))
      == Make(Make(L.left, L.data, L.info.value, z.left), z.data, z.info.value,
              Make(z.right, m.data, m.info.value, m.right));
  }

  lemma RightSingle(m: Tree<Slot>)
    requires m.Node? && HeightsOk(m) && Balanced(m.left) && Balanced(m.right) && BalanceFactor(m) == -2
    ensures m.right.Node?
    ensures BalanceFactor(m.right) <= 0 ==>
      && HeightsOk(RotateLeft(m)) && Balanced(RotateLeft(m))
      && HeightOf(RotateLeft(m)) == HeightOf(m) - (if BalanceFactor(m.right) == 0 then 0 else 1)
  {
    HeightsPositive(m.left);
    HeightsPositive(m.right);
  }

  lemma RightDouble(m: Tree<Slot>)
    requires m.Node? && HeightsOk(m) && Balanced(m.left) && Balanced(m.right) && BalanceFactor(m) == -2
    requires m.right.Node? && BalanceFactor(m.right) > 0
    ensures m.right.left.Node?
    ensures var r := RotateLeft(m.(right := RotateRight(m.right)));
      HeightsOk(r) && Balanced(r) && HeightOf(r) == HeightOf(m) - 1
  {
    var R := m.right;
    HeightsPositive(R.left);
    HeightsPositive(R.right);
    var z := R.left;
    assert RotateLeft(m.(right := RotateRight(R)))
      == Make(Make(m.left, m.data, m.info.value, z.left), z.data, z.info.value,
              Make(z.right, R.data, R.info.value, R.right));
  }

  /** balance: recompute the node's height; when the left side is two
      higher, rotate right (after rotating the left child left if it leans
      right), and symmetrically on the right. The result is an AVL tree with
      the same map, at most one lower than the recomputed node, and lower
      whenever a rotation happened and the heavy child was not level. */
  function Balance(n: Tree<Slot>): (r: Tree<Slot>)
    requires Leaning(n)
    ensures Avl(r) && Contents(r) == Contents(n)
    ensures var h := HeightOf(Make(n.left, n.data, n.info.value, n.right));
      h - 1 <= HeightOf(r) <= h
      && (-1 <= BalanceFactor(n) <= 1 ==> r == Make(n.left, n.data, n.info.value, n.right))
      && (BalanceFactor(n) == 2 && BalanceFactor(n.left) != 0 ==> HeightOf(r) == h - 1)
      && (BalanceFactor(n) == -2 && BalanceFactor(n.right) != 0 ==> HeightOf(r) == h - 1)
  {
    var m := Make(n.left, n.data, n.info.value, n.right);
    var bf := BalanceFactor(m);
    if bf > 1 then
      LeftSingle(m);
      if BalanceFactor(m.left) < 0 then
        LeftDouble(m);
        Rotated(m, RotateRight(m.(left := RotateLeft(m.left))))
      else
        Rotated(m, RotateRight(m))
    else if bf < -1 then
      RightSingle(m);
      if BalanceFactor(m.right) > 0 then
        RightDouble(m);
        Rotated(m, RotateLeft(m.(right := RotateRight(m.right))))
      else
        Rotated(m, RotateLeft(m))
    else
      m
  }

  /** A rotated node: same in-order pairs, hence same order and map. */
  function Rotated(m: Tree<Slot>, r: Tree<Slot>): (r': Tree<Slot>)
    requires Ordered(m) && InorderPairs(r) == InorderPairs(m)
    ensures r' == r && Ordered(r) && Contents(r) == Contents(m)
  {
    SamePairs(m, r);
    r
  }

  /** What insertNode leaves behind in an AVL subtree: the height grows by
      at most one, and when it grows the new subtree is a single node or
      leans to one side. */
  ghost predicate Grows(t: Tree<Slot>, r: Tree<Slot>)
  {
    || HeightOf(r) == HeightOf(t)
    || (HeightOf(r) == HeightOf(t) + 1 && (HeightOf(r) == 1 || BalanceFactor(r) != 0))
  }

  /** insertNode: descend by key; a new key gets a new leaf (mapSize++,
      reported as `added`), an existing key gets its value replaced in
      place; every node on the way back is rebalanced. */
  method InsertNode(t: Tree<Slot>, key: int, value: int) returns (r: Tree<Slot>, added: bool)
    requires Avl(t)
    ensures Avl(r) && Contents(r) == Contents(t)[key := value]
    ensures added <==> key !in Contents(t)
    ensures Grows(t, r)
  {
    match t
    case Nil =>
      r, added := Node(Nil, key, Nil, Slot(value, 1)), true;
    case Node(l, x, rt, s) =>
      NodeKeys(t);
      if key < x {
        var l';
        l', added := InsertNode(l, key, value);
        InsertedLeft(t, key, value, l');
        r := Balance(Make(l', x, s.value, rt));
      } else if key > x {
        var r';
        r', added := InsertNode(rt, key, value);
        InsertedRight(t, key, value, r');
        r := Balance(Make(l, x, s.value, r'));
      } else {
        ReplacedAtRoot(t, value);
        r, added := Make(l, x, value, rt), false;
      }
  }

  /** Inserting the root's own key only replaces its value. */
  lemma ReplacedAtRoot(t: Tree<Slot>, value: int)
    requires Avl(t) && t.Node?
    ensures t.data in Contents(t)
    ensures var r := Make(t.left, t.data, value, t.right);
      Avl(r) && Contents(r) == Contents(t)[t.data := value] && Grows(t, r)
  {
    NodeKeys(t);
    assert t.data !in Contents(t.right);
    ReplaceRoot(Contents(t.left), t.data, t.info.value, value, Contents(t.right));
  }

  /** The root's key replaced in a node's map. */
  lemma ReplaceRoot(ml: map<int, int>, x: int, v: int, w: int, mr: map<int, int>)
    requires x !in mr
    ensures x in ml[x := v] + mr
    ensures ml[x := w] + mr == (ml[x := v] + mr)[x := w]
  {
  }

  /** After the left subtree took the key: the relinked node leans as
      balance needs, and balancing it completes the insertion into `t`. */
  lemma InsertedLeft(t: Tree<Slot>, key: int, value: int, l': Tree<Slot>)
    requires Avl(t) && t.Node? && key < t.data
    requires Avl(l') && Contents(l') == Contents(t.left)[key := value] && Grows(t.left, l')
    ensures key in Contents(t) <==> key in Contents(t.left)
    ensures Leaning(Make(l', t.data, t.info.value, t.right))
    ensures var r := Balance(Make(l', t.data, t.info.value, t.right));
      Contents(r) == Contents(t)[key := value] && Grows(t, r)
  {
    NodeKeys(t);
    ContentsKeys(l');
    var n := Make(l', t.data, t.info.value, t.right);
    HeightsPositive(t.left);
    HeightsPositive(t.right);
    LeaningAt(l', t.data, t.info.value, t.right);
    assert key !in Contents(t.right);
    UpdateLeft(Contents(t.left), t.data, t.info.value, Contents(t.right), key, value);
    GrowsLeft(t, l', Balance(n));
  }

  /** The heights after balancing a node whose left subtree grew by at
      most one. */
  lemma GrowsLeft(t: Tree<Slot>, l': Tree<Slot>, r: Tree<Slot>)
    requires Avl(t) && t.Node? && HeightsOk(l') && Grows(t.left, l')
    requires Leaning(Make(l', t.data, t.info.value, t.right))
    requires r == Balance(Make(l', t.data, t.info.value, t.right))
    ensures Grows(t, r)
  {
    HeightsPositive(t.left);
    HeightsPositive(t.right);
    HeightsPositive(l');
  }

  lemma InsertedRight(t: Tree<Slot>, key: int, value: int, r': Tree<Slot>)
    requires Avl(t) && t.Node? && t.data < key
    requires Avl(r') && Contents(r') == Contents(t.right)[key := value] && Grows(t.right, r')
    ensures key in Contents(t) <==> key in Contents(t.right)
    ensures Leaning(Make(t.left, t.data, t.info.value, r'))
    ensures var r := Balance(Make(t.left, t.data, t.info.value, r'));
      Contents(r) == Contents(t)[key := value] && Grows(t, r)
  {
    NodeKeys(t);
    var n := Make(t.left, t.data, t.info.value, r');
    LeaningRight(t, key, value, r');
    UnionUpdate(Contents(t.left)[t.data := t.info.value], Contents(t.right), key, value);
    assert Contents(n) == Contents(t.left)[t.data := t.info.value] + Contents(r');
    GrowsRight(t, r', Balance(n));
  }

  /** The node relinked to a right subtree that took a key above its own. */
  lemma LeaningRight(t: Tree<Slot>, key: int, value: int, r': Tree<Slot>)
    requires Avl(t) && t.Node? && t.data < key
    requires Avl(r') && Contents(r') == Contents(t.right)[key := value] && Grows(t.right, r')
    ensures Leaning(Make(t.left, t.data, t.info.value, r'))
  {
    NodeKeys(t);
    ContentsKeys(r');
    HeightsPositive(t.left);
    HeightsPositive(t.right);
    assert Elements(r') == Elements(t.right) + {key};
    LeaningAt(t.left, t.data, t.info.value, r');
  }

  lemma GrowsRight(t: Tree<Slot>, r': Tree<Slot>, r: Tree<Slot>)
    requires Avl(t) && t.Node? && HeightsOk(r') && Grows(t.right, r')
    requires Leaning(Make(t.left, t.data, t.info.value, r'))
    requires r == Balance(Make(t.left, t.data, t.info.value, r'))
    ensures Grows(t, r)
  {
    HeightsPositive(t.left);
    HeightsPositive(t.right);
    HeightsPositive(r');
  }

  /** A key updated in the left part of a node's map. */
  lemma UpdateLeft(ml: map<int, int>, x: int, xv: int, mr: map<int, int>, k: int, v: int)
    requires k != x && k !in mr
    ensures ml[k := v][x := xv] + mr == (ml[x := xv] + mr)[k := v]
  {
  }

  /** Two AVL trees whose heights differ by at most two, with every key of
      the left one below k and every key of the right one above it, joined
      at a node of key k: what balance takes. */
  lemma LeaningAt(l: Tree<Slot>, k: int, v: int, r: Tree<Slot>)
    requires Avl(l) && Avl(r) && -2 <= HeightOf(l) - HeightOf(r) <= 2
    requires (forall y :: y in Elements(l) ==> y < k) && (forall y :: y in Elements(r) ==> k < y)
    ensures Leaning(Make(l, k, v, r))
  {
  }

  /** The heights after balancing a node one of whose subtrees lost at most
      one level. */
  lemma Shrinks(t: Tree<Slot>, n: Tree<Slot>, r: Tree<Slot>)
    requires t.Node? && HeightsOk(t) && Balanced(t) && Leaning(n)
    requires HeightOf(t.left) - 1 <= HeightOf(n.left) <= HeightOf(t.left)
    requires HeightOf(t.right) - 1 <= HeightOf(n.right) <= HeightOf(t.right)
    requires HeightOf(n.left) == HeightOf(t.left) || HeightOf(n.right) == HeightOf(t.right)
    requires r == Balance(n)
    ensures HeightOf(t) - 1 <= HeightOf(r) <= HeightOf(t)
  {
    HeightsPositive(t.left);
    HeightsPositive(t.right);
  }

  /** A key removed from the left part of a node's map. */
  lemma RemoveLeft(ml: map<int, int>, x: int, xv: int, mr: map<int, int>, k: int)
    requires k != x && k !in mr
    ensures (ml - {k})[x := xv] + mr == (ml[x := xv] + mr) - {k}
  {
  }

  /** A key removed from the right part of a node's map. */
  lemma RemoveRight(ma: map<int, int>, mr: map<int, int>, k: int)
    requires k !in ma
    ensures ma + (mr - {k}) == (ma + mr) - {k}
  {
  }

  /** After eraseNode went left: balancing the relinked node completes the
      erasure from `t`; when the key was not there, nothing changed. */
  lemma ErasedLeft(t: Tree<Slot>, key: int, l': Tree<Slot>)
    requires Avl(t) && t.Node? && key < t.data
    requires Avl(l') && Contents(l') == Contents(t.left) - {key}
    requires HeightOf(t.left) - 1 <= HeightOf(l') <= HeightOf(t.left)
    requires key !in Contents(t.left) ==> l' == t.left
    ensures Leaning(Make(l', t.data, t.info.value, t.right))
    ensures var r := Balance(Make(l', t.data, t.info.value, t.right));
      && Contents(r) == Contents(t) - {key}
      && HeightOf(t) - 1 <= HeightOf(r) <= HeightOf(t)
      && (key !in Contents(t) ==> r == t)
  {
    NodeKeys(t);
    ContentsKeys(l');
    var n := Make(l', t.data, t.info.value, t.right);
    HeightsPositive(t.left);
    HeightsPositive(t.right);
    LeaningAt(l', t.data, t.info.value, t.right);
    assert key !in Contents(t.right);
    RemoveLeft(Contents(t.left), t.data, t.info.value, Contents(t.right), key);
    Shrinks(t, n, Balance(n));
  }

  lemma ErasedRight(t: Tree<Slot>, key: int, r': Tree<Slot>)
    requires Avl(t) && t.Node? && t.data < key
    requires Avl(r') && Contents(r') == Contents(t.right) - {key}
    requires HeightOf(t.right) - 1 <= HeightOf(r') <= HeightOf(t.right)
    requires key !in Contents(t.right) ==> r' == t.right
    ensures Leaning(Make(t.left, t.data, t.info.value, r'))
    ensures var r := Balance(Make(t.left, t.data, t.info.value, r'));
      && Contents(r) == Contents(t) - {key}
      && HeightOf(t) - 1 <= HeightOf(r) <= HeightOf(t)
      && (key !in Contents(t) ==> r == t)
  {
    NodeKeys(t);
    ContentsKeys(r');
    var n := Make(t.left, t.data, t.info.value, r');
    HeightsPositive(t.left);
    HeightsPositive(t.right);
    LeaningAt(t.left, t.data, t.info.value, r');
    RemoveRight(Contents(t.left)[t.data := t.info.value], Contents(t.right), key);
    Shrinks(t, n, Balance(n));
  }

  /** A node with at most one child erased: the child (or nothing) takes
      its place, one level lower. */
  lemma OneChild(t: Tree<Slot>)
    requires Avl(t) && t.Node? && (t.left.Nil? || t.right.Nil?)
    ensures var c := if t.left.Node? then t.left else t.right;
      Avl(c) && Contents(c) == Contents(t) - {t.data} && HeightOf(c) == HeightOf(t) - 1
  {
    NodeKeys(t);
    HeightsPositive(t.left);
    HeightsPositive(t.right);
  }

  /** A node with two children erased: it takes the smallest key of its
      right subtree, from which that key was erased; balancing completes the
      erasure. */
  lemma ReplacedByMin(t: Tree<Slot>, mk: int, mv: int, r': Tree<Slot>)
    requires Avl(t) && t.Node? && t.right.Node?
    requires mk in Contents(t.right) && Contents(t.right)[mk] == mv
    requires forall k :: k in Elements(t.right) ==> mk <= k
    requires Avl(r') && Contents(r') == Contents(t.right) - {mk}
    requires HeightOf(t.right) - 1 <= HeightOf(r') <= HeightOf(t.right)
    ensures Leaning(Make(t.left, mk, mv, r'))
    ensures var r := Balance(Make(t.left, mk, mv, r'));
      Contents(r) == Contents(t) - {t.data} && HeightOf(t) - 1 <= HeightOf(r) <= HeightOf(t)
  {
    NodeKeys(t);
    ContentsKeys(r');
    var n := Make(t.left, mk, mv, r');
    HeightsPositive(t.left);
    HeightsPositive(t.right);
    LeaningAt(t.left, mk, mv, r');
    MinMoved(Contents(t.left), t.data, t.info.value, Contents(t.right), mk, mv);
    Shrinks(t, n, Balance(n));
  }

  /** The node's key replaced by the smallest key of the right part. */
  lemma MinMoved(ml: map<int, int>, x: int, xv: int, mr: map<int, int>, mk: int, mv: int)
    requires x !in ml && x !in mr && mk !in ml && mk in mr && mr[mk] == mv
    ensures ml[mk := mv] + (mr - {mk}) == (ml[x := xv] + mr) - {x}
  {
  }

  /** findMin: follow left children from a node to the leftmost one, which
      holds the smallest key. */
  method FindMin(t: Tree<Slot>) returns (key: int, value: int)
    requires t.Node? && Ordered(t)
    ensures key in Contents(t) && Contents(t)[key] == value
    ensures forall k :: k in Elements(t) ==> key <= k
  {
    var node := t;
    while node.left.Node?
      invariant node.Node? && Ordered(node)
      invariant forall k :: k in Contents(node) ==> k in Contents(t) && Contents(t)[k] == Contents(node)[k]
      invariant forall k :: k in Elements(t) ==> k in Elements(node) || node.data < k
      decreases node
    {
      LeftPart(node);
      node := node.left;
    }
    NodeKeys(node);
    return node.data, node.info.value;
  }

  /** In an ordered node the left subtree's map is part of the node's, and
      everything else in the node lies above the left child. */
  lemma LeftPart(n: Tree<Slot>)
    requires n.Node? && Ordered(n) && n.left.Node?
    ensures forall k :: k in Contents(n.left) ==> k in Contents(n) && Contents(n)[k] == Contents(n.left)[k]
    ensures forall k :: k in Elements(n) ==> k in Elements(n.left) || n.left.data < k
  {
    NodeKeys(n);
  }

  /** eraseNode: descend by key; a node with at most one child is replaced
      by that child (mapSize--), a node with two children takes the
      smallest key and value of its right subtree, which are then erased
      there; every node on the way back is rebalanced. `found` reports
      whether the key was there. */
  method EraseNode(t: Tree<Slot>, key: int) returns (r: Tree<Slot>, found: bool)
    requires Avl(t)
    ensures Avl(r) && Contents(r) == Contents(t) - {key}
    ensures found <==> key in Contents(t)
    ensures !found ==> r == t
    ensures HeightOf(t) - 1 <= HeightOf(r) <= HeightOf(t)
  {
    match t
    case Nil =>
      r, found := Nil, false;
    case Node(l, x, rt, s) =>
      NodeKeys(t);
      if key < x {
        var l';
        l', found := EraseNode(l, key);
        ErasedLeft(t, key, l');
        r := Balance(Make(l', x, s.value, rt));
      } else if key > x {
        var r';
        r', found := EraseNode(rt, key);
        ErasedRight(t, key, r');
        r := Balance(Make(l, x, s.value, r'));
      } else if l.Nil? || rt.Nil? {
        OneChild(t);
        r, found := if l.Node? then l else rt, true;
      } else {
        var mk, mv := FindMin(rt);
        var r';
        r', found := EraseNode(rt, mk);
        ReplacedByMin(t, mk, mv, r');
        r, found := Balance(Make(l, mk, mv, r')), true;
      }
  }

  /** findNode: descend by key; the value of the node holding it. */
  function FindNode(t: Tree<Slot>, key: int): (r: Option<int>)
    ensures Ordered(t) ==> (r.Some? <==> key in Contents(t))
    ensures Ordered(t) && r.Some? ==> r.value == Contents(t)[key]
  {
    match t
    case Nil => None
    case Node(l, x, rt, s) =>
      NodeKeys(t);
      if key < x then FindNode(l, key)
      else if key > x then FindNode(rt, key)
      else Some(s.value)
  }

  class TreeMap {
    var root: Tree<Slot>
    var size: nat
    ghost var contents: map<int, int>

    /** The tree is an AVL tree with its heights stored right, it stands
        for `contents`, and mapSize counts its keys. */
    ghost predicate Valid()
      reads this
    {
      Avl(root) && contents == Contents(root) && size == |contents|
    }

    constructor()
      ensures Valid() && root == Nil && contents == map[]
    {
      root, size, contents := Nil, 0, map[];
    }

    /** insert: insertNode from the root. */
    method Insert(key: int, value: int)
      requires Valid()
      modifies this
      ensures Valid() && contents == old(contents)[key := value]
      ensures size == if key in old(contents) then old(size) else old(size) + 1
    {
      var added;
      root, added := InsertNode(root, key, value);
      if added {
        size := size + 1;
      }
      contents := contents[key := value];
    }

    /** The pairs inserted one after another. */
    method InsertAll(ps: seq<Pair>)
      requires Valid()
      modifies this
      ensures Valid() && contents == old(contents) + ToMap(ps)
    {
      var i := 0;
      while i < |ps|
        invariant 0 <= i <= |ps| && Valid()
        invariant contents == old(contents) + ToMap(ps[..i])
      {
        UnionSnoc(old(contents), ps, i);
        ghost var before := contents;
        Insert(ps[i].0, ps[i].1);
        assert contents == before[ps[i].0 := ps[i].1];
        i := i + 1;
      }
      assert ps[..i] == ps;
    }

    /** create_map_from_arrays: MapException, before anything is inserted,
        when the lengths differ; otherwise the pairs inserted in order. */
    method CreateMapFromArrays(keys: seq<int>, values: seq<int>) returns (r: Outcome)
      requires Valid()
      modifies this
      ensures Valid()
      ensures |keys| != |values| ==> r == Fail(MapError) && root == old(root) && contents == old(contents)
      ensures |keys| == |values| ==> r == Pass && contents == old(contents) + ToMap(Zip(keys, values))
    {
      if |keys| != |values| {
        return Fail(MapError);
      }
      InsertAll(Zip(keys, values));
      return Pass;
    }

    /** pairs(): the in-order pairs, one per key, keys increasing. */
    method Pairs() returns (r: seq<Pair>)
      requires Valid()
      ensures r == InorderPairs(root)
      ensures KeysIncreasing(r) && Agrees(r, contents) && ToMap(r) == contents && |r| == size
    {
      r := InorderPairs(root);
      PairsOfOrdered(root);
      AgreesToMap(r, contents);
      DistinctAgreesCard(r, contents);
    }

    /** keys(): the keys of the in-order pairs, collected one by one. */
    method Keys() returns (r: seq<int>)
      requires Valid()
      ensures r == Inorder(root) && |r| == size
      ensures forall i, j :: 0 <= i < j < |r| ==> r[i] < r[j]
      ensures forall k :: k in r <==> k in contents
    {
      var ps := Pairs();
      r := CollectKeys(ps);
      OrderedInorder(root);
      InorderKeys(root);
      ContentsKeys(root);
    }

    /** values(): the values of the in-order pairs, collected one by one. */
    method Values() returns (r: seq<int>)
      requires Valid()
      ensures r == ValueSeq(InorderPairs(root)) && |r| == size
      ensures forall v :: v in r <==> exists k :: k in contents && contents[k] == v
    {
      var ps := Pairs();
      r := CollectValues(ps);
      ValueSeqAgrees(ps, contents);
    }

    /** at: KeyNotFoundException for a missing key. */
    method At(key: int) returns (r: Result<int>)
      requires Valid()
      ensures key in contents ==> r == Ok(contents[key])
      ensures key !in contents ==> r == Err(KeyNotFound)
    {
      var node := FindNode(root, key);
      if node.None? {
        return Err(KeyNotFound);
      }
      return Ok(node.value);
    }

    /** operator[]: the value of `key`; an absent key is first inserted
        with V(). */
    method Index(key: int) returns (v: int)
      requires Valid()
      modifies this
      ensures Valid() && key in contents && v == contents[key]
      ensures key in old(contents) ==> contents == old(contents) && root == old(root)
      ensures key !in old(contents) ==> contents == old(contents)[key := 0]
    {
      var node := FindNode(root, key);
      if node.None? {
        Insert(key, 0);
        node := FindNode(root, key);
      }
      v := node.value;
    }

    /** erase: eraseNode from the root; KeyNotFoundException, with the tree
        unchanged, when the key was not there. */
    method Erase(key: int) returns (r: Outcome)
      requires Valid()
      modifies this
      ensures Valid()
      ensures key !in old(contents) ==> r == Fail(KeyNotFound) && root == old(root) && contents == old(contents)
      ensures key in old(contents) ==> r == Pass && contents == old(contents) - {key} && size == old(size) - 1
    {
      var found;
      root, found := EraseNode(root, key);
      if !found {
        return Fail(KeyNotFound);
      }
      size := size - 1;
      contents := contents - {key};
      return Pass;
    }

    /** erase(vector): each key erased in turn, absent ones skipped. */
    method EraseAll(keys: seq<int>)
      requires Valid()
      modifies this
      ensures Valid() && contents == Without(old(contents), keys)
    {
      ghost var c0 := contents;
      for i := 0 to |keys|
        invariant Valid() && contents == Without(c0, keys[..i])
      {
        WithoutSnoc(c0, keys, i);
        EraseSkipping(keys[i]);
      }
      assert keys[..|keys|] == keys;
    }

    /** The body of that loop: erase, with KeyNotFoundException caught. */
    method EraseSkipping(key: int)
      requires Valid()
      modifies this
      ensures Valid() && contents == old(contents) - {key}
    {
      var _ := Erase(key);
    }

    /** update: the pairs of `other` inserted in key order; on a shared key
        the value of `other` wins. */
    method Update(other: TreeMap)
      requires Valid() && other.Valid()
      modifies this
      ensures Valid() && contents == old(contents) + old(other.contents)
    {
      var ps := other.Pairs();
      InsertAll(ps);
    }

    /** operator+: a copy of this map updated with `other`. The copy gets
        its own tree, so neither operand changes. */
    method Plus(other: TreeMap) returns (r: TreeMap)
      requires Valid() && other.Valid()
      ensures fresh(r) && r.Valid() && r.contents == contents + other.contents
    {
      r := new TreeMap();
      r.root, r.size, r.contents := root, size, contents;
      r.Update(other);
    }

    /** find: whether a node holds `key`. */
    method Find(key: int) returns (b: bool)
      requires Valid()
      ensures b <==> key in contents
    {
      var node := FindNode(root, key);
      b := node.Some?;
    }

    /** existsValue: whether `value` is among values(). */
    method ExistsValue(value: int) returns (b: bool)
      requires Valid()
      ensures b <==> exists k :: k in contents && contents[k] == value
    {
      var vals := Values();
      b := Occurs(vals, value);
    }

    /** sort_by: for "value", the pairs sorted by value and inserted again
        into a cleared tree; anything else leaves the tree as it is. Either
        way the map, and with it pairs(), keys() and values(), stay the
        same: an ordered tree lists its pairs by key whatever its shape. */
    method SortBy(criterion: string)
      requires Valid()
      modifies this
      ensures Valid() && contents == old(contents) && size == old(size)
      ensures InorderPairs(root) == old(InorderPairs(root))
      ensures criterion != "value" ==> root == old(root)
    {
      if criterion == "value" {
        var ps := Pairs();
        ghost var m, r0 := contents, root;
        assert Ordered(r0) && Contents(r0) == m;
        var sorted := SortPairs(ps, ValueAsc);
        PermutedAgrees(ps, sorted, m);
        AgreesToMap(sorted, m);
        Clear();
        InsertAll(sorted);
        EmptyUnion(m);
        PairsDetermined(root, r0);
      }
    }

    /** clear: every node removed. */
    method Clear()
      modifies this
      ensures Valid() && root == Nil && contents == map[] && size == 0
    {
      root, size, contents := Nil, 0, map[];
    }
  }
}

// NaryTree of trees/trees.hpp: a node holds a value and a list of children.
// A node is addressed by its path, the child indices on the way down from the
// root; the root pointer addChild needs is the empty path.
module NaryTrees {
  import opened Wrappers
  import BinaryTrees

  datatype Nary = NNode(data: int, children: seq<Nary>)

  function Max(a: int, b: int): int
  {
    if a < b then b else a
  }

  /** The values held in a tree and in a list of trees. */
  function Elements(t: Nary): set<int>
    decreases t
  {
    {t.data} + ElementsIn(t.children)
  }

  function ElementsIn(cs: seq<Nary>): set<int>
    decreases cs
  {
    if cs == [] then {} else Elements(cs[0]) + ElementsIn(cs[1..])
  }

  /** `p` leads from the root of `t` to a node. */
  predicate ValidPath(t: Nary, p: seq<nat>)
    decreases |p|
  {
    p == [] || (p[0] < |t.children| && ValidPath(t.children[p[0]], p[1..]))
  }

  /** The node `p` leads to. */
  function At(t: Nary, p: seq<nat>): Nary
    requires ValidPath(t, p)
    decreases |p|
  {
    if p == [] then t else At(t.children[p[0]], p[1..])
  }

  /** One more step down from the node `p` leads to. */
  lemma {:induction false} AtSnoc(t: Nary, p: seq<nat>, j: nat)
    ensures ValidPath(t, p + [j]) <==> ValidPath(t, p) && j < |At(t, p).children|
    ensures ValidPath(t, p + [j]) ==> At(t, p + [j]) == At(t, p).children[j]
    decreases |p|
  {
    if p == [] {
      assert ([] + [j])[1..] == [];
    } else {
      assert (p + [j])[1..] == p[1..] + [j];
      if p[0] < |t.children| {
        AtSnoc(t.children[p[0]], p[1..], j);
      }
    }
  }

  /** The value of every node is in the tree. */
  lemma {:induction false} AtElements(t: Nary, p: seq<nat>)
    requires ValidPath(t, p)
    ensures At(t, p).data in Elements(t)
    decreases |p|
  {
    if p != [] {
      AtElements(t.children[p[0]], p[1..]);
      ElementsInMember(t.children, p[0]);
    }
  }

  lemma {:induction false} ElementsInMember(cs: seq<Nary>, j: nat)
    requires j < |cs|
    ensures Elements(cs[j]) <= ElementsIn(cs)
    decreases j
  {
    if j > 0 {
      ElementsInMember(cs[1..], j - 1);
    }
  }

  // ---------------------------------------------------------------------
  // calculateHeight

  /** calculateHeight: 0 for a leaf, otherwise one more than the highest
      child. */
  function Height(t: Nary): (r: int)
    ensures r >= 0
    decreases t
  {
    if t.children == [] then 0 else 1 + MaxHeight(t.children)
  }

  /** The greatest height in a list of trees, -1 for none. */
  function MaxHeight(cs: seq<Nary>): (r: int)
    ensures r >= -1 && (cs != [] ==> r >= 0)
    decreases cs
  {
    if cs == [] then -1 else Max(Height(cs[0]), MaxHeight(cs[1..]))
  }

  lemma {:induction false} MaxHeightAbove(cs: seq<Nary>, j: nat)
    requires j < |cs|
    ensures Height(cs[j]) <= MaxHeight(cs)
    decreases j
  {
    if j > 0 {
      MaxHeightAbove(cs[1..], j - 1);
    }
  }

  lemma {:induction false} MaxHeightReached(cs: seq<Nary>) returns (j: nat)
    requires cs != []
    ensures j < |cs| && Height(cs[j]) == MaxHeight(cs)
    decreases |cs|
  {
    if cs[1..] == [] || Height(cs[0]) >= MaxHeight(cs[1..]) {
      j := 0;
    } else {
      var k := MaxHeightReached(cs[1..]);
      j := k + 1;
    }
  }

  /** No path is longer than the height. */
  lemma {:induction false} PathsBounded(t: Nary, p: seq<nat>)
    requires ValidPath(t, p)
    ensures |p| <= Height(t)
    decreases |p|
  {
    if p != [] {
      PathsBounded(t.children[p[0]], p[1..]);
      MaxHeightAbove(t.children, p[0]);
    }
  }

  /** Some path down to a leaf is as long as the height. */
  lemma {:induction false} HeightReached(t: Nary) returns (p: seq<nat>)
    ensures ValidPath(t, p) && |p| == Height(t) && At(t, p).children == []
    decreases t
  {
    if t.children == [] {
      p := [];
    } else {
      var j := MaxHeightReached(t.children);
      var q := HeightReached(t.children[j]);
      p := [j] + q;
      assert p[1..] == q;
    }
  }

  /** calculateHeight, with its loop over the children. */
  method CalculateHeight(node: Nary) returns (h: int)
    ensures h == Height(node)
    decreases node
  {
    if node.children == [] {
      return 0;
    }
    var maxHeight := -1;
    var i := 0;
    while i < |node.children|
      invariant 0 <= i <= |node.children|
      invariant Max(maxHeight, MaxHeight(node.children[i..])) == MaxHeight(node.children)
    {
      assert node.children[i..][1..] == node.children[i + 1..];
      var c := CalculateHeight(node.children[i]);
      maxHeight := Max(maxHeight, c);
      i := i + 1;
    }
    return maxHeight + 1;
  }

  // ---------------------------------------------------------------------
  // findNode and getNodeDepthHelper: both search in preorder, children
  // from first to last, and stop at the first node holding the value.

  function Find(t: Nary, v: int): Option<Nary>
    decreases t
  {
    if t.data == v then Some(t) else FindIn(t.children, v)
  }

  function FindIn(cs: seq<Nary>, v: int): Option<Nary>
    decreases cs
  {
    if cs == [] then None
    else if Find(cs[0], v).Some? then Find(cs[0], v)
    else FindIn(cs[1..], v)
  }

  function Depth(t: Nary, v: int, depth: int): int
    decreases t
  {
    if t.data == v then depth else DepthIn(t.children, v, depth + 1)
  }

  function DepthIn(cs: seq<Nary>, v: int, depth: int): int
    decreases cs
  {
    if cs == [] then -1
    else if Depth(cs[0], v, depth) != -1 then Depth(cs[0], v, depth)
    else DepthIn(cs[1..], v, depth)
  }

  /** findNode finds a node exactly when the value is in the tree; the node
      it finds holds the value, and getNodeDepthHelper started at depth k
      gives k plus the length of that node's path (-1 when there is none). */
  lemma {:induction false} FindPath(t: Nary, v: int, k: nat) returns (p: seq<nat>)
    ensures Find(t, v).Some? <==> v in Elements(t)
    ensures Find(t, v).None? <==> Depth(t, v, k) == -1
    ensures Find(t, v).Some? ==>
      && ValidPath(t, p) && At(t, p) == Find(t, v).value && At(t, p).data == v
      && Depth(t, v, k) == k + |p|
    decreases t
  {
    p := [];
    if t.data != v {
      var j, q := FindPathIn(t.children, v, k + 1);
      if FindIn(t.children, v).Some? {
        p := [j] + q;
        assert p[1..] == q;
      }
    }
  }

  lemma {:induction false} FindPathIn(cs: seq<Nary>, v: int, k: nat) returns (j: nat, p: seq<nat>)
    ensures FindIn(cs, v).Some? <==> v in ElementsIn(cs)
    ensures FindIn(cs, v).None? <==> DepthIn(cs, v, k) == -1
    ensures FindIn(cs, v).Some? ==>
      && j < |cs| && ValidPath(cs[j], p) && At(cs[j], p) == FindIn(cs, v).value
      && At(cs[j], p).data == v && DepthIn(cs, v, k) == k + |p|
    decreases cs
  {
    j, p := 0, [];
    if cs != [] {
      var q := FindPath(cs[0], v, k);
      if Find(cs[0], v).Some? {
        p := q;
      } else {
        var j', q' := FindPathIn(cs[1..], v, k);
        j, p := j' + 1, q';
      }
    }
  }

  /** findNode, with its loop over the children. */
  method FindNode(node: Nary, v: int) returns (r: Option<Nary>)
    ensures r == Find(node, v)
    decreases node
  {
    if node.data == v {
      return Some(node);
    }
    var i := 0;
    while i < |node.children|
      invariant 0 <= i <= |node.children|
      invariant FindIn(node.children[i..], v) == FindIn(node.children, v)
    {
      assert node.children[i..][1..] == node.children[i + 1..];
      var result := FindNode(node.children[i], v);
      if result.Some? {
        return result;
      }
      i := i + 1;
    }
    return None;
  }

  /** getNodeDepthHelper, with its loop over the children. */
  method NodeDepthHelper(node: Nary, v: int, depth: int) returns (r: int)
    ensures r == Depth(node, v, depth)
    decreases node
  {
    if node.data == v {
      return depth;
    }
    var i := 0;
    while i < |node.children|
      invariant 0 <= i <= |node.children|
      invariant DepthIn(node.children[i..], v, depth + 1) == DepthIn(node.children, v, depth + 1)
    {
      assert node.children[i..][1..] == node.children[i + 1..];
      var result := NodeDepthHelper(node.children[i], v, depth + 1);
      if result != -1 {
        return result;
      }
      i := i + 1;
    }
    return -1;
  }

  // ---------------------------------------------------------------------
  // Levels, the order in which search visits the nodes.

  /** The children of a list of nodes, in order. */
  function Children(qs: seq<Nary>): seq<Nary>
  {
    if qs == [] then [] else Children(qs[..|qs| - 1]) + qs[|qs| - 1].children
  }

  /** The nodes at depth d, from left to right. */
  function Level(t: Nary, d: nat): seq<Nary>
  {
    if d == 0 then [t] else Children(Level(t, d - 1))
  }

  /** Every child of a node of `qs` is in Children(qs). */
  lemma {:induction false} ChildIn(qs: seq<Nary>, i: nat, j: nat)
    requires i < |qs| && j < |qs[i].children|
    ensures qs[i].children[j] in Children(qs)
    decreases |qs|
  {
    if i < |qs| - 1 {
      assert qs[..|qs| - 1][i] == qs[i];
      ChildIn(qs[..|qs| - 1], i, j);
    }
  }

  /** Every node of Children(qs) is a child of a node of `qs`. */
  lemma {:induction false} ParentOf(qs: seq<Nary>, x: Nary) returns (i: nat, j: nat)
    requires x in Children(qs)
    ensures i < |qs| && j < |qs[i].children| && qs[i].children[j] == x
    decreases |qs|
  {
    var init, last := qs[..|qs| - 1], qs[|qs| - 1];
    if x in Children(init) {
      i, j := ParentOf(init, x);
      assert init[i] == qs[i];
    } else {
      i := |qs| - 1;
      j :| 0 <= j < |last.children| && last.children[j] == x;
    }
  }

  /** The node a path of length d leads to lies on level d. */
  lemma {:induction false} PathOnLevel(t: Nary, p: seq<nat>)
    requires ValidPath(t, p)
    ensures At(t, p) in Level(t, |p|)
    decreases |p|
  {
    if p != [] {
      var q, j := p[..|p| - 1], p[|p| - 1];
      assert p == q + [j];
      AtSnoc(t, q, j);
      PathOnLevel(t, q);
      var i :| 0 <= i < |Level(t, |q|)| && Level(t, |q|)[i] == At(t, q);
      ChildIn(Level(t, |q|), i, j);
    }
  }

  /** Every node on level d is reached by a path of length d. */
  lemma {:induction false} LevelPath(t: Nary, d: nat, x: Nary) returns (p: seq<nat>)
    requires x in Level(t, d)
    ensures ValidPath(t, p) && |p| == d && At(t, p) == x
    decreases d
  {
    if d == 0 {
      p := [];
    } else {
      var i, j := ParentOf(Level(t, d - 1), x);
      var q := LevelPath(t, d - 1, Level(t, d - 1)[i]);
      AtSnoc(t, q, j);
      p := q + [j];
    }
  }

  /** Once a level is empty, so is every deeper one. */
  lemma {:induction false} LevelsEnd(t: Nary, d: nat, e: nat)
    requires Level(t, d) == [] && d <= e
    ensures Level(t, e) == []
    decreases e - d
  {
    if d < e {
      LevelsEnd(t, d + 1, e);
    }
  }

  /** A value on no level up to an empty one is not in the tree. */
  lemma NotOnAnyLevel(t: Nary, v: int, d: nat)
    requires Level(t, d) == []
    requires forall e: nat, x :: e < d && x in Level(t, e) ==> x.data != v
    ensures v !in Elements(t)
  {
    if v in Elements(t) {
      var p := FindPath(t, v, 0);
      PathOnLevel(t, p);
      if |p| >= d {
        LevelsEnd(t, d, |p|);
      }
      assert false;
    }
  }

  /** The least depth of a node holding v is at least e when no level
      above e holds it. */
  lemma LeastDepth(t: Nary, v: int, e: nat, p: seq<nat>)
    requires forall d: nat, x :: d < e && x in Level(t, d) ==> x.data != v
    requires ValidPath(t, p) && At(t, p).data == v
    ensures |p| >= e
  {
    PathOnLevel(t, p);
  }

  /** The node at `pos` of a level holds v and none before it does. */
  ghost predicate FirstOnLevel(lv: seq<Nary>, pos: int, v: int)
  {
    0 <= pos < |lv| && lv[pos].data == v && forall i :: 0 <= i < pos ==> lv[i].data != v
  }

  /** One round of search's walk over the queue `cur` holding one level:
      the place of the first node holding `v`, or -1 with the queue then
      holding the next level. */
  method ScanLevel(cur: seq<Nary>, v: int) returns (pos: int, queue: seq<Nary>)
    ensures pos >= 0 ==> FirstOnLevel(cur, pos, v)
    ensures pos < 0 ==> (forall x :: x in cur ==> x.data != v) && queue == Children(cur)
  {
    queue := cur;
    var levelsize := |cur|;
    var levelpos := 0;
    assert cur[..0] == [] && cur[0..] == cur;
    while levelpos < levelsize
      invariant 0 <= levelpos <= levelsize == |cur|
      invariant queue == cur[levelpos..] + Children(cur[..levelpos])
      invariant forall j :: 0 <= j < levelpos ==> cur[j].data != v
    {
      QueueStep(cur, levelpos, queue);
      var node := queue[0];
      queue := queue[1..];
      if node.data == v {
        return levelpos, queue;
      }
      queue := queue + node.children;
      levelpos := levelpos + 1;
    }
    assert cur[..levelpos] == cur;
    forall x | x in cur ensures x.data != v {
      var j :| 0 <= j < |cur| && cur[j] == x;
    }
    return -1, queue;
  }

  /** The first node holding `v` on level d, when no shallower level holds
      it, is at the least depth of any node holding `v`. */
  lemma FoundOnLevel(t: Nary, v: int, d: nat, pos: int)
    requires FirstOnLevel(Level(t, d), pos, v)
    requires forall e: nat, x :: e < d && x in Level(t, e) ==> x.data != v
    ensures v in Elements(t)
    ensures forall p :: ValidPath(t, p) && At(t, p).data == v ==> |p| >= d
  {
    forall p | ValidPath(t, p) && At(t, p).data == v ensures |p| >= d {
      LeastDepth(t, v, d, p);
    }
    var q := LevelPath(t, d, Level(t, d)[pos]);
    AtElements(t, q);
  }

  /** One step of the walk: the front of the queue is the next node of the
      level, and its children go to the back. */
  lemma QueueStep(cur: seq<Nary>, i: nat, queue: seq<Nary>)
    requires i < |cur| && queue == cur[i..] + Children(cur[..i])
    ensures queue != [] && queue[0] == cur[i]
    ensures queue[1..] + cur[i].children == cur[i + 1..] + Children(cur[..i + 1])
  {
    assert cur[..i + 1][..i] == cur[..i];
    assert cur[i..][1..] == cur[i + 1..];
  }

  /** Appending a child to the node `p` leads to. */
  function AddAt(t: Nary, p: seq<nat>, v: int): (r: Nary)
    requires ValidPath(t, p)
    ensures ValidPath(r, p) && ValidPath(r, p + [|At(t, p).children|])
    ensures At(r, p) == At(t, p).(children := At(t, p).children + [NNode(v, [])])
    ensures At(r, p + [|At(t, p).children|]) == NNode(v, [])
    decreases |p|
  {
    AtSnoc(t, p, 0);
    var r := if p == [] then t.(children := t.children + [NNode(v, [])])
             else t.(children := t.children[p[0] := AddAt(t.children[p[0]], p[1..], v)]);
    AtSnoc(r, p, |At(t, p).children|);
    r
  }

  /** Adding a child adds its value and keeps every other value. */
  lemma {:induction false} AddAtElements(t: Nary, p: seq<nat>, v: int)
    requires ValidPath(t, p)
    ensures Elements(AddAt(t, p, v)) == Elements(t) + {v}
    decreases |p|
  {
    var r := AddAt(t, p, v);
    if p == [] {
      ElementsInAppend(t.children, NNode(v, []));
    } else {
      AddAtElements(t.children[p[0]], p[1..], v);
      assert r.children == t.children[p[0] := AddAt(t.children[p[0]], p[1..], v)];
      ElementsInUpdate(t.children, p[0], r.children[p[0]]);
      ElementsInMember(t.children, p[0]);
      ElementsInMember(r.children, p[0]);
    }
  }

  lemma {:induction false} ElementsInAppend(cs: seq<Nary>, x: Nary)
    ensures ElementsIn(cs + [x]) == ElementsIn(cs) + Elements(x)
    decreases |cs|
  {
    if cs == [] {
      assert ([] + [x])[1..] == [];
    } else {
      assert (cs + [x])[1..] == cs[1..] + [x];
      ElementsInAppend(cs[1..], x);
    }
  }

  lemma {:induction false} ElementsInUpdate(cs: seq<Nary>, j: nat, y: Nary)
    requires j < |cs|
    ensures ElementsIn(cs[j := y]) + Elements(cs[j]) == ElementsIn(cs) + Elements(y)
    decreases j
  {
    if j == 0 {
      assert cs[j := y][1..] == cs[1..];
    } else {
      assert cs[j := y][0] == cs[0] && cs[j := y][1..] == cs[1..][j - 1 := y];
      assert cs[1..][j - 1] == cs[j];
      ElementsInUpdate(cs[1..], j - 1, y);
      assert ElementsIn(cs[j := y]) == Elements(cs[0]) + ElementsIn(cs[1..][j - 1 := y]);
      assert ElementsIn(cs) == Elements(cs[0]) + ElementsIn(cs[1..]);
    }
  }

  class NaryTree {
    var root: Option<Nary>

    constructor()
      ensures root == None
    {
      root := None;
    }

    /** createRoot: a new root holding only `v`. */
    method CreateRoot(v: int)
      modifies this
      ensures root == Some(NNode(v, []))
    {
      root := Some(NNode(v, []));
    }

    /** addChild: a new last child of the node `path` leads to; nothing
        happens when there is no such node. */
    method AddChild(path: seq<nat>, v: int)
      modifies this
      ensures old(root).Some? && ValidPath(old(root).value, path) ==>
        root == Some(AddAt(old(root).value, path, v))
      ensures !(old(root).Some? && ValidPath(old(root).value, path)) ==> root == old(root)
    {
      if root.Some? && ValidPath(root.value, path) {
        root := Some(AddAt(root.value, path, v));
      }
    }

    /** search: a level-order walk, level by level; the first node holding
        `v` is reported with its level (the root's being 1) and its place
        among the nodes of that level. */
    method Search(v: int) returns (r: BinaryTrees.SearchResult)
      requires root.Some?
      ensures r.NotFound? <==> v !in Elements(root.value)
      ensures r.Found? ==>
        && r.level >= 1 && FirstOnLevel(Level(root.value, r.level - 1), r.position, v)
        && (forall p :: ValidPath(root.value, p) && At(root.value, p).data == v ==> |p| >= r.level - 1)
    {
      var t := root.value;
      var queue := [t];
      ghost var d: nat := 0;
      // every entry of one round of the walk carries the same level
      var level := 1;
      while queue != []
        invariant queue == Level(t, d) && level == d + 1
        invariant forall e: nat, x :: e < d && x in Level(t, e) ==> x.data != v
        decreases Height(t) + 1 - d
      {
        ghost var p := LevelPath(t, d, queue[0]);
        PathsBounded(t, p);
        var levelpos;
        levelpos, queue := ScanLevel(queue, v);
        if levelpos >= 0 {
          FoundOnLevel(t, v, d, levelpos);
          return BinaryTrees.Found(level, levelpos);
        }
        d := d + 1;
        level := level + 1;
      }
      NotOnAnyLevel(t, v, d);
      return BinaryTrees.NotFound;
    }

    /** getNodeHeight: logic_error on an empty tree, -1 when no node holds
        `v`, otherwise the height of the first node holding it in preorder. */
    method GetNodeHeight(v: int) returns (r: Result<int>)
      ensures root.None? ==> r == Err(LogicError)
      ensures root.Some? && v !in Elements(root.value) ==> r == Ok(-1)
      ensures root.Some? && v in Elements(root.value) ==>
        Find(root.value, v).Some? && r == Ok(Height(Find(root.value, v).value))
    {
      if root.None? {
        return Err(LogicError);
      }
      ghost var p := FindPath(root.value, v, 0);
      var target := FindNode(root.value, v);
      if target.None? {
        return Ok(-1);
      }
      assert At(root.value, p) == target.value;
      var h := CalculateHeight(target.value);
      return Ok(h);
    }

    /** getNodeDepth: -1 on an empty tree or when no node holds `v`,
        otherwise the length of the path to the first node holding it in
        preorder. */
    method GetNodeDepth(v: int) returns (r: int)
      ensures root.None? ==> r == -1
      ensures root.Some? && v !in Elements(root.value) ==> r == -1
      ensures root.Some? && v in Elements(root.value) ==>
        && Find(root.value, v).Some?
        && exists p :: ValidPath(root.value, p) && At(root.value, p) == Find(root.value, v).value && r == |p|
      ensures root.Some? ==> r == Depth(root.value, v, 0)
    {
      if root.None? {
        return -1;
      }
      ghost var p := FindPath(root.value, v, 0);
      r := NodeDepthHelper(root.value, v, 0);
      assert v in Elements(root.value) ==> r == |p|;
    }

    /** getTreeHeight: -1 on an empty tree, otherwise the root's height,
        which is the length of the longest path. */
    method GetTreeHeight() returns (h: int)
      ensures root.None? ==> h == -1
      ensures root.Some? ==> h == Height(root.value)
    {
      if root.None? {
        return -1;
      }
      h := CalculateHeight(root.value);
    }
  }
}

// The specific graph types of graphs/graphs.hpp. Each owns a general
// `Graph` (`g`) in place of the base class and overrides what the source
// overrides. The base class's join calls the virtual addEdge, so each type
// that overrides addEdge has its own Join; every other operation is the
// base class's, reached through `g`.
module GraphVariants {
  import opened Wrappers
  import opened GraphSpec
  import opened GraphSearch
  import opened GraphCycles
  import opened Graphs

  /** No vertex has an adjacency entry. */
  predicate EdgeFree(adj: Adj)
  {
    forall u :: u in adj ==> adj[u] == []
  }

  /** Lists of one length `d` over `ks` add up to |ks| * d entries. */
  lemma {:induction false} CountOverUniform(adj: Adj, ks: set<int>, d: nat)
    requires ks <= adj.Keys && forall k :: k in ks ==> |adj[k]| == d
    ensures CountOver(adj, ks) == |ks| * d
    decreases |ks|
  {
    if ks != {} {
      var m := SetMin(ks);
      CountOverUniform(adj, ks - {m}, d);
    }
  }

  /** A graph without entries has no edges. */
  lemma EdgeFreeCount(adj: Adj, directed: bool)
    requires EdgeFree(adj)
    ensures NumEdges(adj, directed) == 0
  {
    CountOverUniform(adj, adj.Keys, 0);
  }

  // ---------------------------------------------------------------------
  // Complete graphs
  // ---------------------------------------------------------------------

  /** Every two distinct vertices are joined by exactly one entry each way,
      and no vertex has an entry to itself. */
  ghost predicate Complete(adj: Adj)
  {
    forall u, y :: u in adj && y in adj ==> DestCount(adj[u], y) == (if u == y then 0 else 1)
  }

  /** A list leading to no vertex twice has one entry per neighbour. */
  lemma {:induction false} NoRepeatLength(l: seq<Entry>)
    requires forall y :: DestCount(l, y) <= 1
    ensures |l| == |set e | e in l :: e.dest|
    decreases |l|
  {
    if l != [] {
      var rest := l[1..];
      forall y ensures DestCount(rest, y) <= 1 {
        assert DestCount(l, y) == (if l[0].dest == y then 1 else 0) + DestCount(rest, y);
      }
      NoRepeatLength(rest);
      assert DestCount(l, l[0].dest) == 1 + DestCount(rest, l[0].dest);
      assert DestCount(rest, l[0].dest) == 0;
      assert l[0].dest !in (set e | e in rest :: e.dest);
      assert (set e | e in l :: e.dest) == (set e | e in rest :: e.dest) + {l[0].dest} by {
        assert l == [l[0]] + rest;
      }
    }
  }

  /** In a complete graph of n vertices each vertex has the n - 1 others as
      neighbours, n - 1 entries, and getNumEdges reports n(n-1)/2. */
  lemma CompleteCounts(adj: Adj)
    requires Closed(adj) && Complete(adj)
    ensures forall u :: u in adj ==> Succ(adj, u) == adj.Keys - {u} && |adj[u]| == |adj.Keys| - 1
    ensures NumEdges(adj, false) == |adj.Keys| * (|adj.Keys| - 1) / 2
  {
    forall u | u in adj ensures Succ(adj, u) == adj.Keys - {u} && |adj[u]| == |adj.Keys| - 1 {
      forall y ensures y in Succ(adj, u) <==> y in adj.Keys - {u} {
        if y in Succ(adj, u) {
          var e :| e in adj[u] && e.dest == y;
          assert y in adj && DestCount(adj[u], y) != 0;
        }
        if y in adj.Keys - {u} {
          assert DestCount(adj[u], y) != 0;
        }
      }
      forall y ensures DestCount(adj[u], y) <= 1 {
        if y !in adj {
          assert forall e :: e in adj[u] ==> e.dest != y;
        }
      }
      NoRepeatLength(adj[u]);
    }
    if adj.Keys == {} {
      CountOverUniform(adj, adj.Keys, 0);
    } else {
      CountOverUniform(adj, adj.Keys, |adj.Keys| - 1);
    }
  }

  /** One entry of weight 1 towards each vertex of `ks`, in order. */
  function Toward(ks: seq<int>): (r: seq<Entry>)
    ensures |r| == |ks| && forall i :: 0 <= i < |ks| ==> r[i] == Entry(ks[i], 1)
  {
    if ks == [] then [] else [Entry(ks[0], 1)] + Toward(ks[1..])
  }

  lemma {:induction false} TowardCount(ks: seq<int>, y: int)
    requires forall i, j :: 0 <= i < j < |ks| ==> ks[i] < ks[j]
    ensures DestCount(Toward(ks), y) == if y in ks then 1 else 0
    decreases |ks|
  {
    if ks != [] {
      TowardCount(ks[1..], y);
      assert Toward(ks)[1..] == Toward(ks[1..]);
      assert y in ks <==> y == ks[0] || y in ks[1..];
    }
  }

  /** What CompleteGraph::addVertex leaves when it links the new vertex `v`
      to every old vertex `ks` in turn: a complete graph again. */
  lemma CompleteExtend(a0: Adj, v: int, ks: seq<int>, r: Adj)
    requires Closed(a0) && Complete(a0) && v !in a0
    requires forall i, j :: 0 <= i < j < |ks| ==> ks[i] < ks[j]
    requires forall x :: x in ks <==> x in a0
    requires r.Keys == a0.Keys + {v}
    requires forall u :: u in a0 ==> r[u] == a0[u] + [Entry(v, 1)]
    requires r[v] == Toward(ks)
    ensures Complete(r)
  {
    forall u, y | u in r && y in r ensures DestCount(r[u], y) == (if u == y then 0 else 1) {
      if u == v {
        TowardCount(ks, y);
        assert y in ks <==> y != v;
      } else {
        OldRowCount(a0, u, v, y);
      }
    }
  }

  /** An old vertex's list, with the entry to the new vertex appended. */
  lemma OldRowCount(a0: Adj, u: int, v: int, y: int)
    requires Closed(a0) && Complete(a0) && v !in a0
    requires u in a0 && (y in a0 || y == v)
    ensures DestCount(a0[u] + [Entry(v, 1)], y) == (if u == y then 0 else 1)
  {
    DestCountAppend(a0[u], Entry(v, 1), y);
    if y == v {
      assert forall e :: e in a0[u] ==> e.dest != v;
    }
  }

  /** Where CompleteGraph::addVertex stands after linking `v` to the first
      `i` old vertices `ks[..i]`. */
  ghost predicate Linked(a0: Adj, v: int, ks: seq<int>, i: nat, r: Adj)
  {
    && i <= |ks|
    && r.Keys == a0.Keys + (if i == 0 then {} else {v})
    && (forall u :: u in a0 ==> r[u] == a0[u] + (if u in ks[..i] then [Entry(v, 1)] else []))
    && (i > 0 ==> r[v] == Toward(ks[..i]))
  }

  /** addEdge(ks[i], v) links one more old vertex. */
  lemma LinkedStep(a0: Adj, v: int, ks: seq<int>, i: nat, r: Adj)
    requires Linked(a0, v, ks, i, r) && i < |ks| && v !in a0
    requires forall i, j :: 0 <= i < j < |ks| ==> ks[i] < ks[j]
    requires forall x :: x in ks <==> x in a0
    ensures Linked(a0, v, ks, i + 1, AddEdgeAdj(r, false, ks[i], v, 1))
  {
    var r' := AddEdgeAdj(r, false, ks[i], v, 1);
    assert ks[i] in ks && ks[i] !in ks[..i];
    assert forall u :: u in ks[..i + 1] <==> u in ks[..i] || u == ks[i];
    assert ks[..i + 1] == ks[..i] + [ks[i]];
    TowardAppend(ks[..i], ks[i]);
    assert r'[v] == Toward(ks[..i + 1]);
  }

  lemma TowardAppend(s: seq<int>, x: int)
    ensures Toward(s + [x]) == Toward(s) + [Entry(x, 1)]
  {
    var a, b := Toward(s + [x]), Toward(s) + [Entry(x, 1)];
    forall k | 0 <= k < |a| ensures a[k] == b[k] {
      if k < |s| {
        assert (s + [x])[k] == s[k];
      }
    }
  }

  /** Linking `v` to every old vertex of a complete graph completes it again. */
  lemma LinkedComplete(a0: Adj, v: int, ks: seq<int>, r: Adj)
    requires Linked(a0, v, ks, |ks|, r)
    requires Closed(a0) && Complete(a0) && v !in a0
    requires forall i, j :: 0 <= i < j < |ks| ==> ks[i] < ks[j]
    requires forall x :: x in ks <==> x in a0
    ensures Complete(AddVertexAdj(r, v))
    ensures AddVertexAdj(r, v).Keys == a0.Keys + {v}
  {
    if |ks| > 0 {
      assert ks[..|ks|] == ks;
      CompleteExtend(a0, v, ks, r);
      assert AddVertexAdj(r, v) == r;
    } else {
      assert forall x :: x !in a0;
      assert r.Keys == {};
      assert AddVertexAdj(r, v) == map[v := []];
    }
  }

  /** A vertex with an entry to itself leaves the graph incomplete. */
  lemma SelfLoopIncomplete(adj: Adj, v: int)
    requires v in Succ(adj, v)
    ensures !Complete(adj)
  {
    var e :| e in adj[v] && e.dest == v;
    assert DestCount(adj[v], v) != 0;
  }

  /** The elements of `s` above `x`. */
  function Above(s: set<int>, x: int): set<int>
  {
    set y | y in s && y > x
  }

  /** The next element of `s` after `x` in ascending order: where a std::set
      iterator at `x` moves, given the set as it is when it moves. */
  function Next(s: set<int>, x: int): (r: Option<int>)
    ensures r.Some? ==> r.value in s && r.value > x && forall y :: y in s && y > x ==> r.value <= y
    ensures r.None? ==> forall y :: y in s ==> y <= x
  {
    var above := Above(s, x);
    assert forall y :: y in s && y > x ==> y in above;
    if above == {} then None
    else
      var m := SetMin(above);
      assert m in above;
      Some(m)
  }

  lemma AboveShrinks(s: set<int>, x: int, y: int)
    requires y in s && x < y
    ensures |Above(s, y)| < |Above(s, x)|
  {
    assert Above(s, y) <= Above(s, x) - {y};
    SubsetCard(Above(s, y), Above(s, x) - {y});
  }

  /** Undoing addEdge by erasing every src->dest entry (and dest->src when
      undirected) gives back the old lists, when there were no such entries:
      only the endpoints addEdge created remain. */
  lemma AddEdgeUndo(adj: Adj, directed: bool, src: int, dest: int, w: int)
    requires dest !in Succ(adj, src) && (!directed ==> src !in Succ(adj, dest))
    ensures DeleteEdgeAdj(AddEdgeAdj(adj, directed, src, dest, w), directed, src, dest)
         == AddVertexAdj(AddVertexAdj(adj, src), dest)
  {
    var a := AddVertexAdj(AddVertexAdj(adj, src), dest);
    NoEntryTo(adj, a, src, dest);
    if !directed {
      NoEntryTo(adj, a, dest, src);
    }
    UndoPushes(a, directed, src, dest, w);
  }

  lemma UndoPushes(a: Adj, directed: bool, src: int, dest: int, w: int)
    requires src in a && dest in a
    requires DestCount(a[src], dest) == 0
    requires !directed ==> DestCount(a[dest], src) == 0
    ensures DeleteEdgeAdj(PushEntries(a, directed, src, dest, w), directed, src, dest) == a
  {
    if directed {
      UndoDirected(a, src, dest, w);
    } else if src == dest {
      UndoLoop(a, src, w);
    } else {
      UndoUndirected(a, src, dest, w);
    }
  }

  lemma UndoDirected(a: Adj, src: int, dest: int, w: int)
    requires src in a && dest in a
    requires DestCount(a[src], dest) == 0
    ensures DeleteEdgeAdj(PushEntries(a, true, src, dest, w), true, src, dest) == a
  {
    var p := a[src := a[src] + [Entry(dest, w)]];
    assert PushEntries(a, true, src, dest, w) == p;
    UndoPush(a[src], Entry(dest, w), dest);
    assert DeleteEdgeAdj(p, true, src, dest) == p[src := a[src]];
    assert p[src := a[src]] == a;
  }

  lemma UndoLoop(a: Adj, s: int, w: int)
    requires s in a
    requires DestCount(a[s], s) == 0
    ensures DeleteEdgeAdj(PushEntries(a, false, s, s, w), false, s, s) == a
  {
    var e := Entry(s, w);
    var p := a[s := a[s] + [e] + [e]];
    PushLoop(a, s, w);
    DeleteLoop(p, s);
    RemoveTwice(a[s], e, s);
    RestoreOne(a, s, a[s] + [e] + [e]);
  }

  /** Putting the old list back gives the map back. */
  lemma RestoreOne(a: Adj, s: int, x: seq<Entry>)
    requires s in a
    ensures a[s := x][s := a[s]] == a
  {
    assert a[s := x][s := a[s]].Keys == a.Keys;
  }

  /** Pushing a self-loop of an undirected graph appends it twice. */
  lemma PushLoop(a: Adj, s: int, w: int)
    requires s in a
    ensures PushEntries(a, false, s, s, w) == a[s := a[s] + [Entry(s, w)] + [Entry(s, w)]]
  {
  }

  /** Deleting a self-loop of an undirected graph filters the list twice. */
  lemma DeleteLoop(p: Adj, s: int)
    requires s in p
    ensures DeleteEdgeAdj(p, false, s, s) == p[s := RemoveDest(RemoveDest(p[s], s), s)]
  {
  }

  lemma RemoveTwice(l: seq<Entry>, e: Entry, d: int)
    requires e.dest == d && DestCount(l, d) == 0
    ensures RemoveDest(RemoveDest(l + [e] + [e], d), d) == l
  {
    RemoveDestAppend(l + [e], e, d);
    UndoPush(l, e, d);
    assert RemoveDest(l + [e] + [e], d) == l;
    RemoveDestNone(l, d);
  }

  lemma UndoUndirected(a: Adj, src: int, dest: int, w: int)
    requires src in a && dest in a && src != dest
    requires DestCount(a[src], dest) == 0
    requires DestCount(a[dest], src) == 0
    ensures DeleteEdgeAdj(PushEntries(a, false, src, dest, w), false, src, dest) == a
  {
    var x, y := a[src] + [Entry(dest, w)], a[dest] + [Entry(src, w)];
    var p := a[src := x][dest := y];
    PushPair(a, src, dest, w);
    DeletePair(p, src, dest);
    UpdatedPair(a, src, dest, x, y);
    UndoPush(a[src], Entry(dest, w), dest);
    UndoPush(a[dest], Entry(src, w), src);
    RestorePair(a, src, dest, x, y);
  }

  /** Pushing an edge between two vertices of an undirected graph appends to both lists. */
  lemma PushPair(a: Adj, src: int, dest: int, w: int)
    requires src in a && dest in a && src != dest
    ensures PushEntries(a, false, src, dest, w) == a[src := a[src] + [Entry(dest, w)]][dest := a[dest] + [Entry(src, w)]]
  {
    assert a[src := a[src] + [Entry(dest, w)]][dest] == a[dest];
  }

  /** Deleting an edge between two vertices of an undirected graph filters both lists. */
  lemma DeletePair(p: Adj, src: int, dest: int)
    requires src in p && dest in p && src != dest
    ensures DeleteEdgeAdj(p, false, src, dest) == p[src := RemoveDest(p[src], dest)][dest := RemoveDest(p[dest], src)]
  {
    assert p[src := RemoveDest(p[src], dest)][dest] == p[dest];
  }

  lemma UpdatedPair(a: Adj, src: int, dest: int, x: seq<Entry>, y: seq<Entry>)
    requires src != dest
    ensures a[src := x][dest := y][src] == x && a[src := x][dest := y][dest] == y
  {
  }

  /** Putting the two old lists back gives the map back. */
  lemma RestorePair(a: Adj, src: int, dest: int, x: seq<Entry>, y: seq<Entry>)
    requires src in a && dest in a
    ensures a[src := x][dest := y][src := a[src]][dest := a[dest]] == a
  {
    var r := a[src := x][dest := y][src := a[src]][dest := a[dest]];
    assert r.Keys == a.Keys;
    forall k | k in a ensures r[k] == a[k] {
      if k != dest && k != src {
        assert r[k] == a[k];
      }
    }
  }

  /** The list addEdge extends had no entry to the new neighbour. */
  lemma NoEntryTo(adj: Adj, a: Adj, x: int, y: int)
    requires y !in Succ(adj, x)
    requires a == AddVertexAdj(AddVertexAdj(adj, x), y) || a == AddVertexAdj(AddVertexAdj(adj, y), x)
    ensures x in a && DestCount(a[x], y) == 0
  {
    if x in adj {
      forall e: Entry | e in a[x] ensures e.dest != y {
        assert e in adj[x];
      }
    }
  }

  /** Erasing the entries to `d` from a list without any, plus one to `d`, gives the list back. */
  lemma UndoPush(l: seq<Entry>, e: Entry, d: int)
    requires e.dest == d
    requires DestCount(l, d) == 0
    ensures RemoveDest(l + [e], d) == l
  {
    RemoveDestAppend(l, e, d);
    RemoveDestNone(l, d);
    assert RemoveDest(l, d) + [] == l;
  }

  lemma RemoveDestNone(l: seq<Entry>, d: int)
    requires DestCount(l, d) == 0
    ensures RemoveDest(l, d) == l
  {
    RemoveDestAbsent(l, d);
  }

  /** When `src` already had an entry to `dest`, addEdge changes no successor set. */
  lemma AddEdgeSameSucc(adj: Adj, directed: bool, src: int, dest: int, w: int)
    requires dest in Succ(adj, src) && (!directed ==> src in Succ(adj, dest))
    ensures forall u :: Succ(AddEdgeAdj(adj, directed, src, dest, w), u) == Succ(adj, u)
  {
    forall u ensures Succ(AddEdgeAdj(adj, directed, src, dest, w), u) == Succ(adj, u) {
      AddEdgeSucc(adj, directed, src, dest, w, u);
    }
  }

  /** join on an undirected, unweighted graph without entries whose addEdge
      always throws: the base class's join adds every vertex of `other`,
      then throws at the first entry it would copy, one from a smaller to a
      larger vertex. */
  method JoinRefusingEdges(g: Graph, other: Graph) returns (out: Outcome)
    requires g.Valid() && other.Valid() && !g.isDirected && !g.isWeighted && EdgeFree(g.adjList)
    modifies g
    ensures g.Valid() && EdgeFree(g.adjList)
    ensures out == Pass || out == Fail(LogicError)
    ensures other.isDirected || other.isWeighted ==>
      out == Fail(LogicError) && g.adjList == old(g.adjList) && g.vertices == old(g.vertices)
    ensures !other.isDirected && !other.isWeighted ==>
      g.vertices == old(g.vertices) + old(other.vertices) && g.adjList == AddVertices(old(g.adjList), old(other.vertices))
    ensures !other.isDirected && !other.isWeighted ==>
      (out == Pass <==> forall u, y :: y in Succ(old(other.adjList), u) ==> y <= u)
  {
    if g.isDirected != other.isDirected {
      return Fail(LogicError);
    }
    if g.isWeighted != other.isWeighted {
      return Fail(LogicError);
    }
    var oadj := other.adjList;
    g.AddVertexSet(other.vertices);
    var ks := Ascending(oadj.Keys);
    for i := 0 to |ks|
      invariant g.Valid() && EdgeFree(g.adjList)
      invariant g.vertices == old(g.vertices) + oadj.Keys && g.adjList == AddVertices(old(g.adjList), oadj.Keys)
      invariant forall u, y :: u in ks[..i] && y in Succ(oadj, u) ==> y <= u
    {
      var src := ks[i];
      assert src in ks;
      var ok := RefuseEntries(g, src, oadj[src]);
      if !ok {
        var e :| e in oadj[src] && e.dest > src;
        assert e.dest in Succ(oadj, src);
        return Fail(LogicError);
      }
      PrefixStep(ks, i);
    }
    PrefixFull(ks);
    return Pass;
  }

  /** The second loop of that join for one vertex `src` of the other graph:
      no list of `g` has an entry, so the first entry from `src` to a
      larger vertex is copied, and addEdge throws. */
  method RefuseEntries(g: Graph, src: int, es: seq<Entry>) returns (ok: bool)
    requires g.Valid() && !g.isDirected && EdgeFree(g.adjList)
    ensures ok <==> forall e :: e in es ==> e.dest <= src
  {
    for j := 0 to |es|
      invariant forall k :: 0 <= k < j ==> es[k].dest <= src
    {
      var dest := es[j].dest;
      var present := g.HasEntryTo(src, dest);
      if !present && (g.isDirected || src < dest) {
        assert es[j] in es;
        return false;
      }
    }
    forall e | e in es ensures e.dest <= src {
      var k :| 0 <= k < |es| && es[k] == e;
    }
    return true;
  }

  // ---------------------------------------------------------------------
  // The graph types
  // ---------------------------------------------------------------------

  /** NullGraph: an undirected graph that never takes an edge. */
  class NullGraph {
    const g: Graph

    ghost predicate Valid()
      reads this, g
    {
      g.Valid() && !g.isDirected && !g.isWeighted && EdgeFree(g.adjList)
    }

    constructor ()
      ensures Valid() && fresh(g) && g.vertices == {}
    {
      g := new Graph(false, false);
    }

    /** addVertex: the base class's, and the graph stays without edges. */
    method AddVertex(v: int)
      requires Valid()
      modifies g
      ensures Valid() && g.vertices == old(g.vertices) + {v}
      ensures NumEdges(g.adjList, false) == 0
    {
      g.AddVertex(v);
      EdgeFreeCount(g.adjList, false);
    }

    /** addEdge: always throws logic_error. */
    method AddEdge(src: int, dest: int, weight: int) returns (out: Outcome)
      requires Valid()
      ensures out == Fail(LogicError)
    {
      return Fail(LogicError);
    }

    /** join: the base class's join, whose first call of addEdge throws. */
    method Join(other: Graph) returns (out: Outcome)
      requires Valid() && other.Valid()
      modifies g
      ensures Valid()
      ensures other.isDirected || other.isWeighted ==> out == Fail(LogicError) && g.vertices == old(g.vertices)
      ensures !other.isDirected && !other.isWeighted ==> g.vertices == old(g.vertices) + old(other.vertices)
      ensures !other.isDirected && !other.isWeighted ==>
        (out == Pass <==> forall u, y :: y in Succ(old(other.adjList), u) ==> y <= u)
      ensures out != Pass ==> out == Fail(LogicError)
    {
      out := JoinRefusingEdges(g, other);
    }
  }

  /** TrivialGraph: built with one vertex, and never takes an edge. */
  class TrivialGraph {
    const g: Graph

    ghost predicate Valid()
      reads this, g
    {
      g.Valid() && !g.isDirected && !g.isWeighted && EdgeFree(g.adjList)
    }

    constructor (vertex: int)
      ensures Valid() && fresh(g) && g.vertices == {vertex} && g.numVertices == 1
    {
      g := new Graph(false, false);
      new;
      g.AddVertex(vertex);
    }

    /** addEdge: always throws logic_error. */
    method AddEdge(src: int, dest: int, weight: int) returns (out: Outcome)
      requires Valid()
      ensures out == Fail(LogicError)
    {
      return Fail(LogicError);
    }

    /** join: the base class's join, whose first call of addEdge throws;
        the vertices of `other` stay. */
    method Join(other: Graph) returns (out: Outcome)
      requires Valid() && other.Valid()
      modifies g
      ensures Valid()
      ensures other.isDirected || other.isWeighted ==> out == Fail(LogicError) && g.vertices == old(g.vertices)
      ensures !other.isDirected && !other.isWeighted ==> g.vertices == old(g.vertices) + old(other.vertices)
      ensures !other.isDirected && !other.isWeighted ==>
        (out == Pass <==> forall u, y :: y in Succ(old(other.adjList), u) ==> y <= u)
      ensures out != Pass ==> out == Fail(LogicError)
    {
      out := JoinRefusingEdges(g, other);
    }
  }

  /** CompleteGraph: an undirected graph whose addVertex joins the new vertex
      to every vertex already there. */
  class CompleteGraph {
    const g: Graph

    ghost predicate Valid()
      reads this, g
    {
      g.Valid() && !g.isDirected && !g.isWeighted && Complete(g.adjList)
    }

    constructor ()
      ensures Valid() && fresh(g) && g.vertices == {}
    {
      g := new Graph(false, false);
    }

    /** addVertex, with the loop over a snapshot of the old vertices: no
        change for a present vertex; otherwise the graph is complete on one
        more vertex, with n(n-1)/2 edges and every degree n - 1. */
    method AddVertex(v: int)
      requires Valid()
      modifies g
      ensures Valid()
      ensures g.vertices == old(g.vertices) + {v}
      ensures v in old(g.vertices) ==> g.adjList == old(g.adjList)
      ensures forall u :: u in g.vertices ==> |g.adjList[u]| == |g.vertices| - 1
      ensures NumEdges(g.adjList, false) == |g.vertices| * (|g.vertices| - 1) / 2
    {
      if v in g.vertices {
        assert g.vertices + {v} == g.vertices;
        CompleteCounts(g.adjList);
        return;
      }
      ghost var a0 := g.adjList;
      var ks := Ascending(g.vertices);
      LinkAll(v, ks);
      ghost var r := g.adjList;
      g.AddVertex(v);
      LinkedComplete(a0, v, ks, r);
      CompleteCounts(g.adjList);
    }

    /** The loop of addVertex: addEdge(ks[i], v) for each old vertex in turn. */
    method LinkAll(v: int, ks: seq<int>)
      requires g.Valid() && !g.isDirected && !g.isWeighted && v !in g.vertices
      requires forall i, j :: 0 <= i < j < |ks| ==> ks[i] < ks[j]
      requires forall x :: x in ks <==> x in g.vertices
      modifies g
      ensures g.Valid() && !g.isDirected && !g.isWeighted
      ensures Linked(old(g.adjList), v, ks, |ks|, g.adjList)
    {
      ghost var a0 := g.adjList;
      for i := 0 to |ks|
        invariant g.Valid() && !g.isDirected && !g.isWeighted
        invariant Linked(a0, v, ks, i, g.adjList)
      {
        LinkedStep(a0, v, ks, i, g.adjList);
        g.AddEdge(ks[i], v, 1);
      }
    }

    /** addVertex as written: the loop runs over `vertices` itself while
        Graph::addEdge inserts `v` into it, so when `v` is above some old
        vertex the iteration reaches `v` and calls addEdge(v, v). The graph
        then holds a self-loop and is no longer complete. */
    method AddVertexAsWritten(v: int)
      requires Valid()
      modifies g
      ensures g.Valid()
      ensures g.vertices == old(g.vertices) + {v}
      ensures v in old(g.vertices) ==> g.adjList == old(g.adjList)
      ensures v !in old(g.vertices) && (exists u :: u in old(g.vertices) && u < v) ==>
        v in Succ(g.adjList, v) && !Complete(g.adjList)
    {
      if v in g.vertices {
        return;
      }
      ghost var lower := exists u :: u in g.vertices && u < v;
      Sweep(v);
      g.AddVertex(v);
      if lower {
        SelfLoopIncomplete(g.adjList, v);
      }
    }

    /** The loop of addVertex as written: `it` walks `vertices` in ascending
        order, each step calling addEdge(*it, v) and then moving to the
        element after *it in the set as addEdge left it. */
    method Sweep(v: int)
      requires g.Valid() && !g.isDirected && v !in g.vertices
      modifies g
      ensures g.Valid() && !g.isDirected
      ensures g.vertices == old(g.vertices) || g.vertices == old(g.vertices) + {v}
      ensures (exists u :: u in old(g.vertices) && u < v) ==> v in Succ(g.adjList, v)
    {
      ghost var keys := g.vertices + {v};
      ghost var lower := exists u :: u in g.vertices && u < v;
      var it: Option<int> := if g.vertices == {} then None else Some(SetMin(g.vertices));
      while it.Some?
        invariant g.Valid() && !g.isDirected
        invariant g.vertices == old(g.vertices) || g.vertices == keys
        invariant it.Some? ==> it.value in keys
        invariant lower ==> (it.Some? && it.value <= v) || v in Succ(g.adjList, v)
        decreases if it.Some? then |Above(keys, it.value)| + 1 else 0
      {
        var x := it.value;
        ghost var before := g.adjList;
        g.AddEdge(x, v, 1);
        AddEdgeSucc(before, false, x, v, 1, v);
        it := Next(g.vertices, x);
        if it.Some? {
          AboveShrinks(keys, x, it.value);
        }
      }
    }
  }
}

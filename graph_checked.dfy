// The graph types of graphs/graphs.hpp whose addEdge checks the graph
// afterwards and undoes the edge when the check fails (DirectedAcyclicGraph,
// BipartiteGraph), and CyclicGraph with its cycle search.
module CheckedGraphs {
  import opened Wrappers
  import opened GraphSpec
  import opened GraphSearch
  import opened GraphDepth
  import opened GraphCycles
  import opened Graphs
  import opened GraphVariants

  // ---------------------------------------------------------------------
  // Facts shared by the two rollbacks
  // ---------------------------------------------------------------------

  /** Adding a vertex without entries changes no successor set. */
  lemma AddVertexSameSucc(adj: Adj, v: int)
    ensures forall u :: Succ(AddVertexAdj(adj, v), u) == Succ(adj, u)
  {
  }

  /** A new vertex without entries closes no cycle. */
  lemma AcyclicAddVertex(adj: Adj, v: int)
    requires Closed(adj) && Acyclic(adj)
    ensures Acyclic(AddVertexAdj(adj, v))
  {
    var b := AddVertexAdj(adj, v);
    AddVertexSameSucc(adj, v);
    forall x, k: nat | x in b && k >= 1 ensures !HasWalk(b, x, x, k) {
      SameSuccWalks(adj, b, x, x, k);
    }
  }

  /** The vertices join adds first come without entries either. */
  lemma AddVerticesSameSucc(adj: Adj, vs: set<int>)
    ensures forall u :: Succ(AddVertices(adj, vs), u) == Succ(adj, u)
  {
  }

  /** So they close no cycle. */
  lemma AcyclicAddVertices(adj: Adj, vs: set<int>)
    requires Closed(adj) && Acyclic(adj)
    ensures Acyclic(AddVertices(adj, vs))
  {
    var b := AddVertices(adj, vs);
    AddVerticesSameSucc(adj, vs);
    forall x, k: nat | x in b && k >= 1 ensures !HasWalk(b, x, x, k) {
      SameSuccWalks(adj, b, x, x, k);
    }
  }

  // ---------------------------------------------------------------------
  // DirectedAcyclicGraph
  // ---------------------------------------------------------------------

  /** The search state of hasCycleDFS: `rec` (the recursion stack) lies in
      `visited`, and the visited vertices off the stack are exactly those of
      the finishing order `fin`. */
  ghost predicate DagState(adj: Adj, visited: set<int>, rec: set<int>, fin: seq<int>)
  {
    && rec <= visited <= adj.Keys
    && (forall x :: x in fin <==> x in visited && x !in rec)
    && Finished(adj, fin)
  }

  /** Finishing `v` once all its successors are finished. */
  lemma DagFinish(adj: Adj, visited: set<int>, rec: set<int>, fin: seq<int>, v: int)
    requires DagState(adj, visited, rec, fin) && v in rec
    requires forall y :: y in Succ(adj, v) ==> y in fin
    ensures DagState(adj, visited, rec - {v}, fin + [v])
  {
    var f := fin + [v];
    forall i, y | 0 <= i < |f| && y in Succ(adj, f[i]) ensures y in f[..i] {
      if i < |fin| {
        assert f[..i] == fin[..i];
      } else {
        assert f[..i] == fin;
      }
    }
  }

  /** When an edge closes a cycle of an acyclic graph it is a new one, so
      erasing its entries leaves only the endpoints addEdge created: an
      acyclic graph again. */
  lemma DagRollback(a0: Adj, src: int, dest: int, w: int)
    requires Closed(a0) && Acyclic(a0)
    requires !Acyclic(AddEdgeAdj(a0, true, src, dest, w))
    ensures var r := DeleteEdgeAdj(AddEdgeAdj(a0, true, src, dest, w), true, src, dest);
      && r == AddVertexAdj(AddVertexAdj(a0, src), dest)
      && r.Keys == AddEdgeAdj(a0, true, src, dest, w).Keys
      && Closed(r) && Acyclic(r)
  {
    var b := AddEdgeAdj(a0, true, src, dest, w);
    if dest in Succ(a0, src) {
      AddEdgeSameSucc(a0, true, src, dest, w);
      forall x, k: nat | x in b && k >= 1 ensures !HasWalk(b, x, x, k) {
        SameSuccWalks(a0, b, x, x, k);
      }
      assert false;
    }
    AddEdgeUndo(a0, true, src, dest, w);
    AcyclicAddVertex(a0, src);
    AcyclicAddVertex(AddVertexAdj(a0, src), dest);
    AddEdgeFacts(a0, true, src, dest, w);
    DeleteEdgeFacts(b, true, src, dest);
  }

  /** An acyclic directed graph with the cycle check of addEdge. */
  class DirectedAcyclicGraph {
    const g: Graph

    ghost predicate Valid()
      reads this, g
    {
      g.Valid() && g.isDirected && !g.isWeighted && Acyclic(g.adjList)
    }

    constructor ()
      ensures Valid() && fresh(g) && g.vertices == {}
    {
      g := new Graph(true, false);
    }

    /** hasCycleDFS(v, visited, recStack): either it finds an entry back
        into the recursion stack, which closes a cycle, or it finishes `v`
        and everything newly reached from it, leaving the stack as it was. */
    method HasCycleDFS(v: int, visited0: set<int>, rec0: set<int>, ghost fin0: seq<int>)
      returns (found: bool, visited: set<int>, rec: set<int>, ghost fin: seq<int>)
      requires g.Valid()
      requires v in g.adjList && v !in visited0
      requires DagState(g.adjList, visited0, rec0, fin0)
      requires forall s :: s in rec0 ==> Reach1(g.adjList, s, v)
      ensures found ==> !Acyclic(g.adjList)
      ensures !found ==> rec == rec0 && visited0 + {v} <= visited && DagState(g.adjList, visited, rec, fin)
      ensures !found ==> forall x :: x in fin0 ==> x in fin
      decreases |g.adjList.Keys| - |visited0|
    {
      var adj := g.adjList;
      visited := visited0 + {v};
      rec := rec0 + {v};
      fin := fin0;
      var es := adj[v];
      for i := 0 to |es|
        invariant rec == rec0 + {v} && visited0 + {v} <= visited
        invariant DagState(adj, visited, rec, fin)
        invariant forall x :: x in fin0 ==> x in fin
        invariant forall j :: 0 <= j < i ==> es[j].dest in fin
      {
        var w := es[i].dest;
        assert w in Succ(adj, v);
        if w !in visited {
          forall s | s in rec ensures Reach1(adj, s, w) {
            Reach1Step(adj, s, v, w);
          }
          DfsFewer(adj.Keys, visited0, v, visited);
          var more: bool;
          more, visited, rec, fin := HasCycleDFS(w, visited, rec, fin);
          if more {
            return true, visited, rec, fin;
          }
        } else if w in rec {
          BackEntryCycle(adj, w, v);
          return true, visited, rec, fin;
        }
      }
      DagFinish(adj, visited, rec, fin, v);
      rec := rec - {v};
      fin := fin + [v];
      return false, visited, rec, fin;
    }

    /** One round of the loop of addEdge: a search from `v` unless it was
        already visited. */
    method DagRoot(v: int, visited0: set<int>, ghost fin0: seq<int>)
      returns (found: bool, visited: set<int>, ghost fin: seq<int>)
      requires g.Valid() && v in g.adjList
      requires DagState(g.adjList, visited0, {}, fin0)
      ensures found ==> !Acyclic(g.adjList)
      ensures !found ==> visited0 + {v} <= visited && DagState(g.adjList, visited, {}, fin)
    {
      if v in visited0 {
        return false, visited0, fin0;
      }
      var rec: set<int>;
      found, visited, rec, fin := HasCycleDFS(v, visited0, {}, fin0);
    }

    /** The loop of addEdge over all vertices: it reports a cycle exactly
        when the graph has one. */
    method FindCycle() returns (found: bool)
      requires g.Valid()
      ensures found <==> !Acyclic(g.adjList)
    {
      var ks := Ascending(g.vertices);
      var visited: set<int> := {};
      ghost var fin: seq<int> := [];
      var rec: set<int> := {};
      for i := 0 to |ks|
        invariant rec == {} && DagState(g.adjList, visited, rec, fin)
        invariant forall x :: x in ks[..i] ==> x in visited
      {
        found, visited, fin := DagRoot(ks[i], visited, fin);
        if found {
          return;
        }
        PrefixStep(ks, i);
      }
      PrefixCovers(ks, g.adjList.Keys, visited);
      forall v | v in g.adjList ensures v in fin {
        assert v in visited;
      }
      FinishedAcyclic(g.adjList, fin);
      return false;
    }

    /** addEdge: the base class's addEdge, then, when the graph has a cycle,
        every src -> dest entry is erased and logic_error thrown. The edge
        stays exactly when the graph with it is acyclic; the vertices it
        created stay either way. */
    method AddEdge(src: int, dest: int, weight: int) returns (out: Outcome)
      requires Valid()
      modifies g
      ensures Valid()
      ensures g.vertices == old(g.vertices) + {src, dest}
      ensures out == Pass <==> Acyclic(AddEdgeAdj(old(g.adjList), true, src, dest, weight))
      ensures out == Pass ==> g.adjList == AddEdgeAdj(old(g.adjList), true, src, dest, weight)
      ensures out != Pass ==> out == Fail(LogicError) && g.adjList == AddVertexAdj(AddVertexAdj(old(g.adjList), src), dest)
    {
      ghost var a0 := g.adjList;
      g.AddEdge(src, dest, weight);
      var found := FindCycle();
      if !found {
        return Pass;
      }
      Rollback(a0, src, dest, weight);
      return Fail(LogicError);
    }

    /** join, reached through a DAG: the base class's join, whose calls of
        the virtual addEdge reach this class's AddEdge. The first entry that
        would close a cycle is erased again and its logic_error ends the
        join, keeping the vertices and the entries copied before it; the
        graph stays acyclic either way. */
    method Join(other: Graph) returns (out: Outcome)
      requires Valid() && other.Valid()
      modifies g
      ensures Valid()
      ensures out == Pass || out == Fail(LogicError)
      ensures !other.isDirected || other.isWeighted ==>
        out == Fail(LogicError) && g.adjList == old(g.adjList) && g.vertices == old(g.vertices)
      ensures other.isDirected && !other.isWeighted ==> g.vertices == old(g.vertices) + old(other.vertices)
      ensures other.isDirected && !other.isWeighted && out == Pass ==>
        g.adjList == JoinAdj(old(g.adjList), true, old(other.adjList))
    {
      if g.isDirected != other.isDirected {
        return Fail(LogicError);
      }
      if g.isWeighted != other.isWeighted {
        return Fail(LogicError);
      }
      var oadj := other.adjList;
      AcyclicAddVertices(g.adjList, oadj.Keys);
      g.AddVertexSet(other.vertices);
      var base := g.adjList;
      var ks := Ascending(oadj.Keys);
      for i := 0 to |ks|
        invariant Valid() && g.vertices == old(g.vertices) + oadj.Keys
        invariant g.adjList == JoinArcs(base, true, ArcsFrom(oadj, ks[..i]))
      {
        assert ks[i] in ks;
        ListClosed(oadj, ks[i]);
        out := CopyEntries(ks[i], oadj[ks[i]]);
        if out != Pass {
          return;
        }
        JoinArcsFromStep(base, true, oadj, ks, i);
      }
      PrefixFull(ks);
      return Pass;
    }

    /** The second loop of join for one vertex `src` of the other graph,
        each missing entry copied through this class's AddEdge. */
    method CopyEntries(src: int, es: seq<Entry>) returns (out: Outcome)
      requires Valid() && src in g.vertices
      requires forall e :: e in es ==> e.dest in g.vertices
      modifies g
      ensures Valid() && g.vertices == old(g.vertices)
      ensures out == Pass || out == Fail(LogicError)
      ensures out == Pass ==> g.adjList == JoinArcs(old(g.adjList), true, ArcsOf(src, es))
    {
      for j := 0 to |es|
        invariant Valid() && g.vertices == old(g.vertices)
        invariant g.adjList == JoinArcs(old(g.adjList), true, ArcsOf(src, es[..j]))
      {
        var dest := es[j].dest;
        var weight := es[j].weight;
        assert es[j] in es;
        JoinArcsEntry(old(g.adjList), true, src, es, j);
        var present := g.HasEntryTo(src, dest);
        if !present && (g.isDirected || src < dest) {
          out := AddEdge(src, dest, weight);
          if out != Pass {
            return;
          }
        }
      }
      assert es[..|es|] == es;
      return Pass;
    }

    /** The error path of addEdge: erase the src -> dest entries again. */
    method Rollback(ghost a0: Adj, src: int, dest: int, weight: int)
      requires g.Valid() && g.isDirected && !g.isWeighted
      requires Closed(a0) && Acyclic(a0)
      requires g.adjList == AddEdgeAdj(a0, true, src, dest, weight) && !Acyclic(g.adjList)
      modifies g
      ensures Valid() && g.vertices == old(g.vertices)
      ensures g.adjList == AddVertexAdj(AddVertexAdj(a0, src), dest)
    {
      DagRollback(a0, src, dest, weight);
      g.adjList := DeleteEdgeAdj(g.adjList, true, src, dest);
    }
  }

  // ---------------------------------------------------------------------
  // BipartiteGraph
  // ---------------------------------------------------------------------

  /** The colouring isBipartiteCheck has built: colours 0 and 1 on vertices
      of the graph, and every coloured vertex outside `pending` (the queue
      and the vertex being scanned) has its neighbours coloured the other
      colour. */
  ghost predicate ColourState(adj: Adj, color: map<int, int>, pending: seq<int>)
  {
    && color.Keys <= adj.Keys
    && (forall x :: x in color ==> color[x] == 0 || color[x] == 1)
    && (forall u, y :: u in color && u !in pending && y in Succ(adj, u) ==> y in color && color[y] != color[u])
  }

  /** `color` keeps every colour of `color0`. */
  ghost predicate Extends(color0: map<int, int>, color: map<int, int>)
  {
    forall x :: x in color0 ==> x in color && color[x] == color0[x]
  }

  lemma ExtendsKeys(color0: map<int, int>, color: map<int, int>)
    requires Extends(color0, color)
    ensures color0.Keys <= color.Keys
  {
    forall x | x in color0 ensures x in color {
    }
  }

  /** Every vertex coloured since the search from `start` began is reached
      from `start` by a walk whose length has the parity of its colour. */
  ghost predicate Layered(adj: Adj, start: int, c0: set<int>, color: map<int, int>, depth: map<int, nat>)
  {
    forall x :: x in color && x !in c0 ==> x in depth && HasWalk(adj, start, x, depth[x]) && depth[x] % 2 == color[x]
  }

  /** The scan of the neighbours `es` of `vertex` in isBipartiteCheck has
      passed `j` of them: `c1` and `q1` are the colouring and the queue
      when it began, and each vertex it coloured was also queued. */
  ghost predicate Painting(adj: Adj, start: int, c0: set<int>, c1: map<int, int>, q1: seq<int>,
                           vertex: int, es: seq<Entry>, j: int, color: map<int, int>, depth: map<int, nat>, q: seq<int>)
  {
    Painted(adj, start, c0, c1, q1, vertex, color, depth, q) && Progress(es, j, vertex, color)
  }

  /** The colouring during the scan of the neighbours of `vertex`. */
  ghost predicate Painted(adj: Adj, start: int, c0: set<int>, c1: map<int, int>, q1: seq<int>,
                          vertex: int, color: map<int, int>, depth: map<int, nat>, q: seq<int>)
  {
    && ColourState(adj, color, q + [vertex]) && Extends(c1, color)
    && Layered(adj, start, c0, color, depth)
    && (forall x :: x in q ==> x in color && x !in c0)
    && vertex in color && vertex !in c0
    && c1.Keys <= color.Keys && |q| == |q1| + |color.Keys| - |c1.Keys|
  }

  /** The first `j` neighbours of `vertex` have the other colour. */
  ghost predicate Progress(es: seq<Entry>, j: int, vertex: int, color: map<int, int>)
  {
    && 0 <= j <= |es| && vertex in color
    && (forall i :: 0 <= i < j ==> es[i].dest in color && color[es[i].dest] != color[vertex])
  }

  /** Colouring and queueing an uncoloured neighbour. */
  lemma PaintNew(adj: Adj, start: int, c0: set<int>, c1: map<int, int>, q1: seq<int>,
                 vertex: int, es: seq<Entry>, j: int, color: map<int, int>, depth: map<int, nat>, q: seq<int>)
    requires Closed(adj) && Painting(adj, start, c0, c1, q1, vertex, es, j, color, depth, q) && j < |es|
    requires es[j].dest !in color && es[j].dest in Succ(adj, vertex) && c0 <= c1.Keys
    ensures var n := es[j].dest;
      Painting(adj, start, c0, c1, q1, vertex, es, j + 1, color[n := 1 - color[vertex]], depth[n := depth[vertex] + 1], q + [n])
  {
    var n := es[j].dest;
    PaintedNew(adj, start, c0, c1, q1, vertex, color, depth, q, n);
    ProgressNew(es, j, vertex, color, n);
  }

  lemma PaintedNew(adj: Adj, start: int, c0: set<int>, c1: map<int, int>, q1: seq<int>,
                   vertex: int, color: map<int, int>, depth: map<int, nat>, q: seq<int>, n: int)
    requires Closed(adj) && Painted(adj, start, c0, c1, q1, vertex, color, depth, q)
    requires n !in color && n in Succ(adj, vertex) && c0 <= c1.Keys
    ensures Painted(adj, start, c0, c1, q1, vertex, color[n := 1 - color[vertex]], depth[n := depth[vertex] + 1], q + [n])
  {
    var e :| e in adj[vertex] && e.dest == n;
    assert n in adj;
    var color', depth', q' := color[n := 1 - color[vertex]], depth[n := depth[vertex] + 1], q + [n];
    ColourNew(adj, color, q + [vertex], q' + [vertex], n, 1 - color[vertex]);
    LayeredNew(adj, start, c0, color, depth, vertex, n);
    assert forall x :: x in q' ==> x in color' && x !in c0;
    assert |q'| == |q1| + |color'.Keys| - |c1.Keys| by {
      assert color'.Keys == color.Keys + {n};
    }
    assert Extends(c1, color');
    PaintedIntro(adj, start, c0, c1, q1, vertex, color', depth', q');
  }

  lemma PaintedIntro(adj: Adj, start: int, c0: set<int>, c1: map<int, int>, q1: seq<int>,
                     vertex: int, color: map<int, int>, depth: map<int, nat>, q: seq<int>)
    requires ColourState(adj, color, q + [vertex]) && Extends(c1, color)
    requires Layered(adj, start, c0, color, depth)
    requires forall x :: x in q ==> x in color && x !in c0
    requires vertex in color && vertex !in c0
    requires c1.Keys <= color.Keys && |q| == |q1| + |color.Keys| - |c1.Keys|
    ensures Painted(adj, start, c0, c1, q1, vertex, color, depth, q)
  {
  }

  lemma ProgressNew(es: seq<Entry>, j: int, vertex: int, color: map<int, int>, n: int)
    requires Progress(es, j, vertex, color) && j < |es| && es[j].dest == n && n !in color
    ensures Progress(es, j + 1, vertex, color[n := 1 - color[vertex]])
  {
  }

  /** Colouring a new vertex that is then pending keeps the colouring state. */
  lemma ColourNew(adj: Adj, color: map<int, int>, pending: seq<int>, pending': seq<int>, n: int, c: int)
    requires ColourState(adj, color, pending) && n in adj && n !in color && (c == 0 || c == 1)
    requires forall x :: x in pending' <==> x in pending || x == n
    ensures ColourState(adj, color[n := c], pending')
  {
    var color' := color[n := c];
    forall u, y | u in color' && u !in pending' && y in Succ(adj, u)
      ensures y in color' && color'[y] != color'[u]
    {
      assert u in color && u !in pending;
    }
  }

  /** A neighbour coloured from `vertex` is one edge further from `start`. */
  lemma LayeredNew(adj: Adj, start: int, c0: set<int>, color: map<int, int>, depth: map<int, nat>, vertex: int, n: int)
    requires Layered(adj, start, c0, color, depth)
    requires vertex in color && vertex !in c0 && (color[vertex] == 0 || color[vertex] == 1)
    requires n in Succ(adj, vertex) && n !in c0
    ensures Layered(adj, start, c0, color[n := 1 - color[vertex]], depth[n := depth[vertex] + 1])
  {
    WalkStep(adj, start, vertex, n, depth[vertex]);
  }

  /** Passing a neighbour already of the other colour. */
  lemma PaintSeen(adj: Adj, start: int, c0: set<int>, c1: map<int, int>, q1: seq<int>,
                 vertex: int, es: seq<Entry>, j: int, color: map<int, int>, depth: map<int, nat>, q: seq<int>)
    requires Painting(adj, start, c0, c1, q1, vertex, es, j, color, depth, q) && j < |es|
    requires es[j].dest in color && color[es[j].dest] != color[vertex]
    ensures Painting(adj, start, c0, c1, q1, vertex, es, j + 1, color, depth, q)
  {
  }

  /** Once all its entries are scanned, `vertex` is settled. */
  lemma PaintDone(adj: Adj, start: int, c0: set<int>, c1: map<int, int>, q1: seq<int>,
                 vertex: int, es: seq<Entry>, color: map<int, int>, depth: map<int, nat>, q: seq<int>)
    requires Painting(adj, start, c0, c1, q1, vertex, es, |es|, color, depth, q) && vertex in adj && es == adj[vertex]
    ensures ColourState(adj, color, q)
  {
    Settled(adj, vertex, es, color, q);
  }

  /** The part of PaintDone about the colours alone. */
  lemma Settled(adj: Adj, vertex: int, es: seq<Entry>, color: map<int, int>, q: seq<int>)
    requires ColourState(adj, color, q + [vertex]) && Progress(es, |es|, vertex, color) && vertex in adj && es == adj[vertex]
    ensures ColourState(adj, color, q)
  {
    forall u, y | u in color && u !in q && y in Succ(adj, u) ensures y in color && color[y] != color[u] {
      if u == vertex {
        var e :| e in es && e.dest == y;
        var i :| 0 <= i < |es| && es[i] == e;
      } else {
        assert u !in q + [vertex];
      }
    }
  }

  /** A colouring that leaves nothing pending and covers every vertex is proper. */
  lemma SettledProper(adj: Adj, color: map<int, int>)
    requires ColourState(adj, color, []) && adj.Keys <= color.Keys
    ensures TwoColourable(adj)
  {
    forall u, y | y in Succ(adj, u)
      ensures u in color && y in color && (color[u] == 0 || color[u] == 1)
           && (color[y] == 0 || color[y] == 1) && color[u] != color[y]
    {
      assert u in adj;
    }
    assert ProperTwo(adj, color);
  }

  /** The vertices before `ks[i]` stay coloured when the colouring grows. */
  lemma Covered(ks: seq<int>, i: int, color0: map<int, int>, color: map<int, int>)
    requires 0 <= i < |ks| && (forall j :: 0 <= j < i ==> ks[j] in color0)
    requires Extends(color0, color) && ks[i] in color
    ensures forall j :: 0 <= j < i + 1 ==> ks[j] in color
  {
    forall j | 0 <= j < i + 1 ensures ks[j] in color {
      if j < i {
        var x := ks[j];
        assert x in color0;
      }
    }
  }

  /** The state of one round of isBipartiteCheck from `start`, begun
      with the colouring `color0`, while `q` is queued. */
  ghost predicate Queue(adj: Adj, start: int, color0: map<int, int>, color: map<int, int>, depth: map<int, nat>, q: seq<int>)
  {
    && ColourState(adj, color, q) && Extends(color0, color) && start in color
    && Layered(adj, start, color0.Keys, color, depth)
    && (forall x :: x in q ==> x in color && x !in color0)
    && |color.Keys| <= |adj.Keys|
  }

  /** Colouring `start` 0 and queueing it keeps the colouring proper
      outside the queue. */
  lemma ColourStart(adj: Adj, start: int, color0: map<int, int>)
    requires ColourState(adj, color0, []) && start in adj && start !in color0
    ensures ColourState(adj, color0[start := 0], [start])
  {
    var color := color0[start := 0];
    forall u, y | u in color && u !in [start] && y in Succ(adj, u)
      ensures y in color && color[y] != color[u]
    {
      assert u in color0 && u !in [];
      assert y in color0 && y != start;
    }
  }

  lemma QueueStart(adj: Adj, start: int, color0: map<int, int>)
    requires ColourState(adj, color0, []) && start in adj && start !in color0
    ensures Queue(adj, start, color0, color0[start := 0], map[start := 0], [start])
  {
    var color, depth := color0[start := 0], map[start := 0];
    ColourStart(adj, start, color0);
    assert Extends(color0, color);
    assert Layered(adj, start, color0.Keys, color, depth) by {
      assert HasWalk(adj, start, start, 0);
    }
    SubsetCard(color.Keys, adj.Keys);
  }

  /** Taking the head of the queue starts the scan of its neighbours. */
  lemma QueuePop(adj: Adj, start: int, color0: map<int, int>, color: map<int, int>, depth: map<int, nat>, q: seq<int>)
    requires Queue(adj, start, color0, color, depth, q) && q != []
    ensures q[0] in adj && color0.Keys <= color.Keys
    ensures Painting(adj, start, color0.Keys, color, q[1..], q[0], adj[q[0]], 0, color, depth, q[1..])
  {
    var h := q[0];
    assert h in q;
    assert h in color;
    ExtendsKeys(color0, color);
    forall u, y | u in color && u !in q[1..] + [q[0]] && y in Succ(adj, u)
      ensures y in color && color[y] != color[u]
    {
      assert u !in q;
    }
  }

  /** Once the neighbours of the popped vertex are scanned, the round goes
      on with a larger colouring or a shorter queue. */
  lemma QueueNext(adj: Adj, start: int, color0: map<int, int>, c1: map<int, int>, q0: seq<int>,
                  vertex: int, color: map<int, int>, depth: map<int, nat>, q: seq<int>)
    requires Queue(adj, start, color0, c1, depth, q0) && q0 != [] && vertex == q0[0] && vertex in adj
    requires Painting(adj, start, color0.Keys, c1, q0[1..], vertex, adj[vertex], |adj[vertex]|, color, depth, q)
    ensures Queue(adj, start, color0, color, depth, q)
    ensures |color.Keys| > |c1.Keys| || (|color.Keys| == |c1.Keys| && |q| < |q0|)
  {
    PaintDone(adj, start, color0.Keys, c1, q0[1..], vertex, adj[vertex], color, depth, q);
    SubsetCard(color.Keys, adj.Keys);
    SubsetCard(c1.Keys, color.Keys);
  }

  /** The loop of isBipartiteCheck over the neighbours of `vertex`: an
      uncoloured one gets the other colour and is queued; one of the same
      colour ends the check. */
  method PaintNeighbours(adj: Adj, ghost start: int, ghost c0: set<int>, ghost c1: map<int, int>, ghost q1: seq<int>,
                         vertex: int, color0: map<int, int>, ghost depth0: map<int, nat>, q0: seq<int>)
    returns (ok: bool, color: map<int, int>, ghost depth: map<int, nat>, q: seq<int>)
    requires Closed(adj) && Symmetric(adj) && ClosedUnder(adj, c0) && c0 <= c1.Keys && vertex in adj
    requires Painting(adj, start, c0, c1, q1, vertex, adj[vertex], 0, color0, depth0, q0)
    ensures ok ==> Painting(adj, start, c0, c1, q1, vertex, adj[vertex], |adj[vertex]|, color, depth, q)
    ensures !ok ==> !TwoColourable(adj)
  {
    color, depth, q := color0, depth0, q0;
    var es := adj[vertex];
    for j := 0 to |es|
      invariant Painting(adj, start, c0, c1, q1, vertex, es, j, color, depth, q)
    {
      var n := es[j].dest;
      assert n in Succ(adj, vertex);
      if n !in color {
        PaintNew(adj, start, c0, c1, q1, vertex, es, j, color, depth, q);
        color := color[n := 1 - color[vertex]];
        depth := depth[n := depth[vertex] + 1];
        q := q + [n];
      } else if color[n] == color[vertex] {
        if n in c0 {
          assert false;
        }
        OddRound(adj, start, vertex, n, depth[vertex], depth[n]);
        return false, color, depth, q;
      } else {
        PaintSeen(adj, start, c0, c1, q1, vertex, es, j, color, depth, q);
      }
    }
    return true, color, depth, q;
  }

  /** A bipartite (two-colourable) undirected graph, with the check of addEdge. */
  class BipartiteGraph {
    const g: Graph

    ghost predicate Valid()
      reads this, g
    {
      g.Valid() && !g.isDirected && !g.isWeighted && TwoColourable(g.adjList)
    }

    constructor ()
      ensures Valid() && fresh(g) && g.vertices == {}
    {
      g := new Graph(false, false);
      new;
      assert ProperTwo(g.adjList, map[]);
    }

    /** One round of isBipartiteCheck: colour `start` 0 and search breadth
        first from it, giving each uncoloured neighbour the other colour.
        A neighbour already of the same colour proves the graph is not
        two-colourable; otherwise everything coloured is settled. */
    method ColourFrom(start: int, color0: map<int, int>) returns (ok: bool, color: map<int, int>)
      requires g.Valid() && !g.isDirected
      requires start in g.adjList && start !in color0
      requires ColourState(g.adjList, color0, [])
      ensures ok ==> ColourState(g.adjList, color, []) && Extends(color0, color) && start in color
      ensures !ok ==> !TwoColourable(g.adjList)
    {
      var adj := g.adjList;
      ghost var c0 := color0.Keys;
      assert ClosedUnder(adj, c0);
      color := color0[start := 0];
      ghost var depth: map<int, nat> := map[start := 0];
      var q := [start];
      QueueStart(adj, start, color0);
      while q != []
        invariant Queue(adj, start, color0, color, depth, q)
        decreases |adj.Keys| - |color.Keys|, |q|
      {
        ghost var c1, q0 := color, q;
        var vertex := q[0];
        q := q[1..];
        QueuePop(adj, start, color0, color, depth, q0);
        ok, color, depth, q := PaintNeighbours(adj, start, c0, c1, q, vertex, color, depth, q);
        if !ok {
          return;
        }
        QueueNext(adj, start, color0, c1, q0, vertex, color, depth, q);
      }
      return true, color;
    }

    /** isBipartiteCheck: true exactly when the graph is two-colourable. */
    method IsBipartiteCheck() returns (ok: bool)
      requires g.Valid() && !g.isDirected
      ensures ok == TwoColourable(g.adjList)
    {
      if g.vertices == {} {
        assert ProperTwo(g.adjList, map[]);
        return true;
      }
      var color: map<int, int> := map[];
      var ks := Ascending(g.vertices);
      for i := 0 to |ks|
        invariant ColourState(g.adjList, color, [])
        invariant forall j :: 0 <= j < i ==> ks[j] in color
      {
        if ks[i] !in color {
          ghost var before := color;
          ok, color := ColourFrom(ks[i], color);
          if !ok {
            return;
          }
          Covered(ks, i, before, color);
        } else {
          Covered(ks, i, color, color);
        }
      }
      forall v | v in g.adjList ensures v in color {
        assert v in ks;
      }
      SettledProper(g.adjList, color);
      return true;
    }

    /** addEdge: the base class's addEdge, then, when the graph is no longer
        two-colourable, every src -> dest and dest -> src entry is erased and
        logic_error thrown. The edge stays exactly when the graph with it is
        two-colourable; the vertices it created stay either way. */
    method AddEdge(src: int, dest: int, weight: int) returns (out: Outcome)
      requires Valid()
      modifies g
      ensures Valid()
      ensures g.vertices == old(g.vertices) + {src, dest}
      ensures out == Pass <==> TwoColourable(AddEdgeAdj(old(g.adjList), false, src, dest, weight))
      ensures out == Pass ==> g.adjList == AddEdgeAdj(old(g.adjList), false, src, dest, weight)
      ensures out != Pass ==> out == Fail(LogicError) && g.adjList == AddVertexAdj(AddVertexAdj(old(g.adjList), src), dest)
    {
      ghost var a0 := g.adjList;
      g.AddEdge(src, dest, weight);
      var ok := IsBipartiteCheck();
      if ok {
        return Pass;
      }
      Rollback(a0, src, dest, weight);
      return Fail(LogicError);
    }

    /** join, reached through a BipartiteGraph: the base class's join, whose
        calls of the virtual addEdge reach this class's AddEdge. The first
        entry that would break the two-colouring is erased again and its
        logic_error ends the join, keeping the vertices and the entries
        copied before it; the graph stays two-colourable either way. */
    method Join(other: Graph) returns (out: Outcome)
      requires Valid() && other.Valid()
      modifies g
      ensures Valid()
      ensures out == Pass || out == Fail(LogicError)
      ensures other.isDirected || other.isWeighted ==>
        out == Fail(LogicError) && g.adjList == old(g.adjList) && g.vertices == old(g.vertices)
      ensures !other.isDirected && !other.isWeighted ==> g.vertices == old(g.vertices) + old(other.vertices)
      ensures !other.isDirected && !other.isWeighted && out == Pass ==>
        g.adjList == JoinAdj(old(g.adjList), false, old(other.adjList))
    {
      if g.isDirected != other.isDirected {
        return Fail(LogicError);
      }
      if g.isWeighted != other.isWeighted {
        return Fail(LogicError);
      }
      var oadj := other.adjList;
      AddVerticesSameSucc(g.adjList, oadj.Keys);
      SameSuccColourable(g.adjList, AddVertices(g.adjList, oadj.Keys));
      g.AddVertexSet(other.vertices);
      var base := g.adjList;
      var ks := Ascending(oadj.Keys);
      for i := 0 to |ks|
        invariant Valid() && g.vertices == old(g.vertices) + oadj.Keys
        invariant g.adjList == JoinArcs(base, false, ArcsFrom(oadj, ks[..i]))
      {
        assert ks[i] in ks;
        ListClosed(oadj, ks[i]);
        out := CopyEntries(ks[i], oadj[ks[i]]);
        if out != Pass {
          return;
        }
        JoinArcsFromStep(base, false, oadj, ks, i);
      }
      PrefixFull(ks);
      return Pass;
    }

    /** The second loop of join for one vertex `src` of the other graph,
        each missing entry copied through this class's AddEdge. */
    method CopyEntries(src: int, es: seq<Entry>) returns (out: Outcome)
      requires Valid() && src in g.vertices
      requires forall e :: e in es ==> e.dest in g.vertices
      modifies g
      ensures Valid() && g.vertices == old(g.vertices)
      ensures out == Pass || out == Fail(LogicError)
      ensures out == Pass ==> g.adjList == JoinArcs(old(g.adjList), false, ArcsOf(src, es))
    {
      for j := 0 to |es|
        invariant Valid() && g.vertices == old(g.vertices)
        invariant g.adjList == JoinArcs(old(g.adjList), false, ArcsOf(src, es[..j]))
      {
        var dest := es[j].dest;
        var weight := es[j].weight;
        assert es[j] in es;
        JoinArcsEntry(old(g.adjList), false, src, es, j);
        var present := g.HasEntryTo(src, dest);
        if !present && (g.isDirected || src < dest) {
          out := AddEdge(src, dest, weight);
          if out != Pass {
            return;
          }
        }
      }
      assert es[..|es|] == es;
      return Pass;
    }

    /** The error path of addEdge: erase the src - dest entries again. */
    method Rollback(ghost a0: Adj, src: int, dest: int, weight: int)
      requires g.Valid() && !g.isDirected && !g.isWeighted
      requires Closed(a0) && Symmetric(a0) && TwoColourable(a0)
      requires g.adjList == AddEdgeAdj(a0, false, src, dest, weight) && !TwoColourable(g.adjList)
      modifies g
      ensures Valid() && g.vertices == old(g.vertices)
      ensures g.adjList == AddVertexAdj(AddVertexAdj(a0, src), dest)
    {
      BipartiteRollback(a0, src, dest, weight);
      g.adjList := DeleteEdgeAdj(g.adjList, false, src, dest);
      assert g.adjList == AddVertexAdj(AddVertexAdj(a0, src), dest);
      assert g.adjList.Keys == g.vertices;
    }
  }

  /** When an edge makes a two-colourable graph odd it is a new one, so
      erasing its entries both ways leaves only the endpoints addEdge
      created: a two-colourable graph again. */
  lemma BipartiteRollback(a0: Adj, src: int, dest: int, w: int)
    requires Closed(a0) && Symmetric(a0) && TwoColourable(a0)
    requires !TwoColourable(AddEdgeAdj(a0, false, src, dest, w))
    ensures var r := DeleteEdgeAdj(AddEdgeAdj(a0, false, src, dest, w), false, src, dest);
      && r == AddVertexAdj(AddVertexAdj(a0, src), dest)
      && Closed(r) && Symmetric(r) && TwoColourable(r)
  {
    var b := AddEdgeAdj(a0, false, src, dest, w);
    if dest in Succ(a0, src) {
      AddEdgeSameSucc(a0, false, src, dest, w);
      SameSuccColourable(a0, b);
      assert false;
    }
    AddEdgeUndo(a0, false, src, dest, w);
    var r := AddVertexAdj(AddVertexAdj(a0, src), dest);
    AddVertexSameSucc(a0, src);
    AddVertexSameSucc(AddVertexAdj(a0, src), dest);
    SameSuccColourable(a0, r);
    AddEdgeFacts(a0, false, src, dest, w);
    DeleteEdgeFacts(b, false, src, dest);
  }

  // ---------------------------------------------------------------------
  // CyclicGraph
  // ---------------------------------------------------------------------

  /** `u` and `y` are parent and child, one way round or the other, in the
      forest `par` (each vertex's parent, or none for a root). */
  ghost predicate TreeEdge(par: map<int, Option<int>>, u: int, y: int)
  {
    (y in par && par[y] == Some(u)) || (u in par && par[u] == Some(y))
  }

  /** `rank` orders the forest: every parent is ranked below its child and
      every rank is below `clock`. */
  ghost predicate Ranked(par: map<int, Option<int>>, rank: map<int, nat>, clock: nat)
  {
    && par.Keys == rank.Keys
    && (forall y :: y in par && par[y].Some? ==> par[y].value in rank && rank[par[y].value] < rank[y])
    && (forall x :: x in rank ==> rank[x] < clock)
  }

  /** Every entry of the graph joins a parent and its child in some rooted
      forest over the vertices: the graph has no cycle, not even a self-loop. */
  ghost predicate Forest(adj: Adj)
  {
    exists par: map<int, Option<int>>, rank: map<int, nat>, clock: nat ::
      && par.Keys == adj.Keys && Ranked(par, rank, clock)
      && (forall u, y :: y in Succ(adj, u) ==> TreeEdge(par, u, y))
  }

  /** The search state of hasCycleDFS: `par` records the vertex each
      visited one was entered from, and every visited vertex whose call has
      returned (outside `open`) has only tree entries. */
  ghost predicate CycState(adj: Adj, visited: set<int>, open: set<int>, par: map<int, Option<int>>, rank: map<int, nat>, clock: nat)
  {
    && visited <= adj.Keys && par.Keys == visited && Ranked(par, rank, clock)
    && (forall x, y :: x in visited && x !in open && y in Succ(adj, x) ==> y in visited && TreeEdge(par, x, y))
  }

  /** `par` keeps every parent recorded in `par0`. */
  ghost predicate Keeps(par0: map<int, Option<int>>, par: map<int, Option<int>>)
  {
    forall x :: x in par0 ==> x in par && par[x] == par0[x]
  }

  /** Entering `v` from `parent` (none for a root). */
  lemma CycEnter(adj: Adj, visited: set<int>, open: set<int>, par: map<int, Option<int>>, rank: map<int, nat>, clock: nat,
                 v: int, parent: Option<int>)
    requires CycState(adj, visited, open, par, rank, clock) && v in adj && v !in visited
    requires parent.Some? ==> parent.value in visited
    ensures CycState(adj, visited + {v}, open + {v}, par[v := parent], rank[v := clock], clock + 1)
    ensures Keeps(par, par[v := parent])
    ensures forall x :: x in par ==> par[x] != Some(v)
  {
    var par', rank' := par[v := parent], rank[v := clock];
    forall x | x in par ensures par[x] != Some(v) {
      if par[x].Some? {
        assert par[x].value in rank;
      }
    }
    forall y | y in par' && par'[y].Some? ensures par'[y].value in rank' && rank'[par'[y].value] < rank'[y] {
      if y != v {
        assert y in par;
        var p := par[y].value;
        assert p in rank && p != v;
      } else {
        var p := parent.value;
        assert p in rank && p != v && rank[p] < clock;
      }
    }
    assert Ranked(par', rank', clock + 1);
    forall x, y | x in visited + {v} && x !in open + {v} && y in Succ(adj, x)
      ensures y in visited + {v} && TreeEdge(par', x, y)
    {
      assert TreeEdge(par, x, y);
    }
  }

  /** A recursive call that returned without a cycle leaves the child a tree
      entry of `v`, and the tree entries already passed stay tree entries. */
  lemma CycKept(es: seq<Entry>, i: int, v: int, par0: map<int, Option<int>>, par: map<int, Option<int>>)
    requires 0 <= i < |es| && Keeps(par0, par)
    requires forall j :: 0 <= j < i ==> TreeEdge(par0, v, es[j].dest)
    requires es[i].dest in par && par[es[i].dest] == Some(v)
    ensures forall j :: 0 <= j < i + 1 ==> TreeEdge(par, v, es[j].dest)
  {
    forall j | 0 <= j < i + 1 ensures TreeEdge(par, v, es[j].dest) {
      if j < i {
        var y := es[j].dest;
        assert TreeEdge(par0, v, y);
      }
    }
  }

  /** Once its entries are all tree entries, `v` leaves `open`. */
  lemma CycLeave(adj: Adj, visited: set<int>, open: set<int>, par: map<int, Option<int>>, rank: map<int, nat>, clock: nat, v: int)
    requires v in adj && CycState(adj, visited, open + {v}, par, rank, clock)
    requires forall j :: 0 <= j < |adj[v]| ==> adj[v][j].dest in visited && TreeEdge(par, v, adj[v][j].dest)
    ensures CycState(adj, visited, open, par, rank, clock)
  {
    forall x, y | x in visited && x !in open && y in Succ(adj, x) ensures y in visited && TreeEdge(par, x, y) {
      if x == v {
        var e :| e in adj[v] && e.dest == y;
        var j :| 0 <= j < |adj[v]| && adj[v][j] == e;
      }
    }
  }

  /** A forest has no entry from a vertex to itself. */
  lemma ForestNoSelfLoop(adj: Adj, v: int)
    requires Forest(adj)
    ensures v !in Succ(adj, v)
  {
    var par: map<int, Option<int>>, rank: map<int, nat>, clock: nat :|
      && par.Keys == adj.Keys && Ranked(par, rank, clock)
      && (forall u, y :: y in Succ(adj, u) ==> TreeEdge(par, u, y));
  }

  /** Hence a forest has no self-loop anywhere. */
  lemma ForestNoSelfLoops(adj: Adj)
    requires Forest(adj)
    ensures forall v :: v !in Succ(adj, v)
  {
    forall v ensures v !in Succ(adj, v) {
      ForestNoSelfLoop(adj, v);
    }
  }

  /** A search that visited every vertex and left none open found a forest. */
  lemma CycForest(adj: Adj, visited: set<int>, par: map<int, Option<int>>, rank: map<int, nat>, clock: nat)
    requires CycState(adj, visited, {}, par, rank, clock) && adj.Keys <= visited
    ensures Forest(adj)
  {
    forall u, y | y in Succ(adj, u) ensures TreeEdge(par, u, y) {
      assert u in adj;
    }
  }

  /** Some adjacency list holds the same destination twice. */
  ghost predicate Repeated(adj: Adj)
  {
    exists u, i, j :: u in adj && 0 <= i < j < |adj[u]| && adj[u][i].dest == adj[u][j].dest
  }

  /** `c` is a ring: three or more distinct vertices, an entry from each to
      the next and one from the last back to the first. */
  ghost predicate Ring(adj: Adj, c: seq<int>)
  {
    && |c| >= 3 && Distinct(c)
    && (forall k :: 0 <= k < |c| - 1 ==> c[k + 1] in Succ(adj, c[k]))
    && c[0] in Succ(adj, c[|c| - 1])
  }

  /** What hasCycleDFS runs into in an undirected graph: a self-loop, a
      repeated entry or a ring. */
  ghost predicate CycleSeen(adj: Adj)
  {
    (exists v :: v in Succ(adj, v)) || Repeated(adj) || (exists c :: Ring(adj, c))
  }

  /** Some vertex of `c` is ranked at least as high as every other. */
  lemma HighestRanked(c: seq<int>, rank: map<int, nat>) returns (m: nat)
    requires |c| > 0 && forall k :: 0 <= k < |c| ==> c[k] in rank
    ensures m < |c| && forall k :: 0 <= k < |c| ==> rank[c[k]] <= rank[c[m]]
  {
    m := 0;
    for i := 1 to |c|
      invariant m < |c| && forall k :: 0 <= k < i ==> rank[c[k]] <= rank[c[m]]
    {
      if rank[c[m]] < rank[c[i]] {
        m := i;
      }
    }
  }

  /** A forest holds no ring: the highest-ranked vertex of a ring would need
      both of its neighbours on the ring as its parent. */
  lemma RingNotForest(adj: Adj, c: seq<int>)
    requires Ring(adj, c)
    ensures !Forest(adj)
  {
    var n := |c|;
    forall par: map<int, Option<int>>, rank: map<int, nat>, clock: nat | par.Keys == adj.Keys && Ranked(par, rank, clock)
      ensures exists u, y :: y in Succ(adj, u) && !TreeEdge(par, u, y)
    {
      forall k | 0 <= k < n ensures c[k] in rank {
        if k < n - 1 {
          assert c[k + 1] in Succ(adj, c[k]);
        } else {
          assert c[0] in Succ(adj, c[k]);
        }
      }
      var m := HighestRanked(c, rank);
      var before := if m == 0 then n - 1 else m - 1;
      var after := if m == n - 1 then 0 else m + 1;
      assert c[m] in Succ(adj, c[before]) && c[after] in Succ(adj, c[m]);
      assert c[before] != c[after];
      assert TreeEdge(par, c[before], c[m]) ==> par[c[m]] == Some(c[before]);
      assert TreeEdge(par, c[m], c[after]) ==> par[c[m]] == Some(c[after]);
      if TreeEdge(par, c[before], c[m]) {
        assert !TreeEdge(par, c[m], c[after]);
      }
    }
  }

  /** So what hasCycleDFS runs into is a repeated entry or shows the graph
      is no forest. */
  lemma SeenNotForest(adj: Adj)
    requires CycleSeen(adj)
    ensures Repeated(adj) || !Forest(adj)
  {
    if exists v :: v in Succ(adj, v) {
      var v :| v in Succ(adj, v);
      if Forest(adj) {
        ForestNoSelfLoop(adj, v);
      }
    } else if !Repeated(adj) {
      var c :| Ring(adj, c);
      RingNotForest(adj, c);
    }
  }
  /** In a directed graph a report need not mean a cycle: 1 -> 2 and
      3 -> 2 form a forest without repeated entries, yet hasCycle, after
      the search from 1 has visited 2, enters 3 with no parent and finds 2
      already visited. */
  lemma DirectedForestReported()
    ensures var adj := map[1 := [Entry(2, 1)], 2 := [], 3 := [Entry(2, 1)]];
            Forest(adj) && !Repeated(adj) && 2 in Succ(adj, 3) && 2 in Succ(adj, 1)
  {
    var adj := map[1 := [Entry(2, 1)], 2 := [], 3 := [Entry(2, 1)]];
    var par := map[1 := None, 2 := Some(1), 3 := Some(2)];
    var rank := map[1 := 0, 2 := 1, 3 := 2];
    assert Entry(2, 1) in adj[1] && Entry(2, 1) in adj[3];
    forall u, y | y in Succ(adj, u)
      ensures TreeEdge(par, u, y)
    {
      assert u == 1 || u == 3;
    }
    assert par.Keys == adj.Keys && Ranked(par, rank, 3);
  }


  /** The calls of hasCycleDFS still running, outermost first: a chain of
      entries ending with the entry `parent -> v` being followed. */
  ghost predicate Stack(adj: Adj, path: seq<int>, open: set<int>, v: int, parent: Option<int>)
  {
    && Distinct(path) && (forall x :: x in path <==> x in open) && v !in open
    && (forall k :: 0 <= k < |path| - 1 ==> path[k + 1] in Succ(adj, path[k]))
    && (path == [] ==> parent.None?)
    && (path != [] ==> parent == Some(path[|path| - 1]) && v in Succ(adj, path[|path| - 1]))
  }

  /** A recursive call of hasCycleDFS on the entry `v -> w`. */
  lemma StackPush(adj: Adj, path: seq<int>, open: set<int>, v: int, parent: Option<int>, w: int)
    requires Stack(adj, path, open, v, parent) && w in Succ(adj, v) && w !in open + {v}
    ensures Stack(adj, path + [v], open + {v}, w, Some(v))
  {
    var p := path + [v];
    forall k | 0 <= k < |p| - 1 ensures p[k + 1] in Succ(adj, p[k]) {
      if k < |path| - 1 {
        assert p[k] == path[k] && p[k + 1] == path[k + 1];
      }
    }
    assert forall x :: x in p <==> x in path || x == v;
  }

  /** The loop of hasCycleDFS(v, ...) has scanned the first `i` entries `es`
      of `v` without finding a cycle: `visited0`, `par0` are the state when
      `v` was entered. The vertices entered since all hang below `v`, and the
      children of `v` are destinations of the entries scanned. */
  ghost predicate CycScan(adj: Adj, v: int, parent: Option<int>, es: seq<Entry>, i: int, open: set<int>,
                          visited0: set<int>, par0: map<int, Option<int>>,
                          visited: set<int>, par: map<int, Option<int>>, rank: map<int, nat>, clock: nat)
  {
    && 0 <= i <= |es| && v !in par0
    && visited0 + {v} <= visited && CycState(adj, visited, open + {v}, par, rank, clock)
    && Keeps(par0, par) && v in par && par[v] == parent
    && (forall j :: 0 <= j < i ==> es[j].dest in visited && TreeEdge(par, v, es[j].dest))
    && (forall x :: x in par && x !in par0 && x != v ==> par[x].Some? && par[x].value !in par0)
    && (forall x :: x in par && par[x] == Some(v) ==> exists j :: 0 <= j < i && es[j].dest == x)
  }

  /** Entering `v`: nothing scanned yet. */
  lemma CycScanStart(adj: Adj, v: int, parent: Option<int>, es: seq<Entry>, open: set<int>,
                     visited0: set<int>, par0: map<int, Option<int>>, rank0: map<int, nat>, clock0: nat)
    requires CycState(adj, visited0, open, par0, rank0, clock0) && v in adj && v !in visited0
    requires parent.Some? ==> parent.value in visited0
    ensures CycScan(adj, v, parent, es, 0, open, visited0, par0, visited0 + {v}, par0[v := parent], rank0[v := clock0], clock0 + 1)
  {
    CycEnter(adj, visited0, open, par0, rank0, clock0, v, parent);
  }

  /** Passing the `i`-th entry of `v`, to its parent. */
  lemma CycScanParent(adj: Adj, v: int, parent: Option<int>, es: seq<Entry>, i: int, open: set<int>,
                      visited0: set<int>, par0: map<int, Option<int>>,
                      visited: set<int>, par: map<int, Option<int>>, rank: map<int, nat>, clock: nat)
    requires CycScan(adj, v, parent, es, i, open, visited0, par0, visited, par, rank, clock) && i < |es|
    requires es[i].dest in visited && Some(es[i].dest) == parent
    ensures CycScan(adj, v, parent, es, i + 1, open, visited0, par0, visited, par, rank, clock)
  {
  }

  /** After the recursive call of hasCycleDFS on the `i`-th entry of `v`,
      which entered `w` with `v` as its parent. */
  lemma CycScanChild(adj: Adj, v: int, parent: Option<int>, es: seq<Entry>, i: int, open: set<int>,
                     visited0: set<int>, par0: map<int, Option<int>>,
                     before: set<int>, parBefore: map<int, Option<int>>, rankBefore: map<int, nat>, clockBefore: nat,
                     visited: set<int>, par: map<int, Option<int>>, rank: map<int, nat>, clock: nat)
    requires CycScan(adj, v, parent, es, i, open, visited0, par0, before, parBefore, rankBefore, clockBefore) && i < |es|
    requires es[i].dest !in before
    requires before + {es[i].dest} <= visited && CycState(adj, visited, open + {v}, par, rank, clock)
    requires Keeps(parBefore, par) && es[i].dest in par && par[es[i].dest] == Some(v)
    requires forall x :: x in par && x !in parBefore && x != es[i].dest ==> par[x].Some? && par[x].value !in parBefore
    ensures CycScan(adj, v, parent, es, i + 1, open, visited0, par0, visited, par, rank, clock)
  {
    CycKept(es, i, v, parBefore, par);
    forall x | x in par0 ensures x in par && par[x] == par0[x] {
      assert x in parBefore;
    }
    forall x | x in par && x !in par0 && x != v ensures par[x].Some? && par[x].value !in par0 {
      if x in parBefore {
        assert par[x] == parBefore[x];
      } else if x != es[i].dest {
        var p := par[x].value;
        assert p !in parBefore;
        assert p in par0 ==> p in parBefore;
      } else {
        assert par[x] == Some(v);
      }
    }
    forall x | x in par && par[x] == Some(v) ensures exists j :: 0 <= j < i + 1 && es[j].dest == x {
      if x in parBefore {
        assert parBefore[x] == Some(v);
        var j :| 0 <= j < i && es[j].dest == x;
      } else if x == es[i].dest {
        assert es[i].dest == x;
      }
    }
    forall j | 0 <= j < i + 1 ensures es[j].dest in visited {
      if j < i {
        assert es[j].dest in before;
      }
    }
  }

  /** hasCycleDFS reporting the entry `v -> w` to a visited vertex other than
      the parent: in an undirected graph, `w` is `v` itself, a vertex on the
      stack (closing a ring through the stack), or a child `v` already
      entered through an earlier entry of its list. */
  lemma CycBack(adj: Adj, visited: set<int>, open: set<int>, path: seq<int>, par: map<int, Option<int>>, rank: map<int, nat>, clock: nat,
                v: int, parent: Option<int>, i: int)
    requires Symmetric(adj) && v in adj && 0 <= i < |adj[v]|
    requires CycState(adj, visited, open + {v}, par, rank, clock) && Stack(adj, path, open, v, parent)
    requires v in par && par[v] == parent
    requires forall x :: x in par && par[x] == Some(v) ==> exists j :: 0 <= j < i && adj[v][j].dest == x
    requires adj[v][i].dest in visited && Some(adj[v][i].dest) != parent
    ensures CycleSeen(adj)
  {
    var w := adj[v][i].dest;
    assert adj[v][i] in adj[v];
    if w == v {
      assert v in Succ(adj, v);
    } else if w in open {
      var k :| 0 <= k < |path| && path[k] == w;
      var c := path[k..] + [v];
      forall a | 0 <= a < |c| - 1 ensures c[a + 1] in Succ(adj, c[a]) {
        if a < |c| - 2 {
          assert c[a] == path[k + a] && c[a + 1] == path[k + a + 1];
        }
      }
      assert Ring(adj, c);
    } else {
      assert w in Succ(adj, v);
      assert v in Succ(adj, w);
      assert TreeEdge(par, w, v);
      var j :| 0 <= j < i && adj[v][j].dest == w;
      assert Repeated(adj);
    }
  }

  /** A graph that may hold a cycle; hasCycle searches for one. */
  class CyclicGraph {
    const g: Graph

    ghost predicate Valid()
      reads this, g
    {
      g.Valid() && !g.isWeighted
    }

    constructor (directed: bool)
      ensures Valid() && fresh(g) && g.vertices == {} && g.isDirected == directed
    {
      g := new Graph(directed, false);
    }

    /** hasCycleDFS(v, visited, parent): enters `v` from `parent` and
        reports a cycle at the first entry to a visited vertex other than
        `parent`; otherwise every entry of `v` and of the vertices newly
        reached from it joins a parent and a child. */
    method HasCycleDFS(v: int, visited0: set<int>, parent: Option<int>, ghost open: set<int>, ghost path: seq<int>,
                       ghost par0: map<int, Option<int>>, ghost rank0: map<int, nat>, ghost clock0: nat)
      returns (found: bool, visited: set<int>, ghost par: map<int, Option<int>>, ghost rank: map<int, nat>, ghost clock: nat)
      requires g.Valid()
      requires v in g.adjList && v !in visited0
      requires CycState(g.adjList, visited0, open, par0, rank0, clock0)
      requires parent.Some? ==> parent.value in visited0
      requires open <= visited0 && Stack(g.adjList, path, open, v, parent)
      ensures EdgeFree(g.adjList) ==> !found
      ensures found && !g.isDirected ==> CycleSeen(g.adjList)
      ensures !found ==> visited0 + {v} <= visited && CycState(g.adjList, visited, open, par, rank, clock)
      ensures !found ==> Keeps(par0, par) && v in par && par[v] == parent
      ensures !found ==> forall x :: x in par && x !in par0 && x != v ==> par[x].Some? && par[x].value !in par0
      decreases |g.adjList.Keys| - |visited0|
    {
      var adj := g.adjList;
      CycScanStart(adj, v, parent, adj[v], open, visited0, par0, rank0, clock0);
      visited := visited0 + {v};
      par, rank, clock := par0[v := parent], rank0[v := clock0], clock0 + 1;
      var es := adj[v];
      for i := 0 to |es|
        invariant CycScan(adj, v, parent, es, i, open, visited0, par0, visited, par, rank, clock)
      {
        var w := es[i].dest;
        assert w in Succ(adj, v);
        if w !in visited {
          DfsFewer(adj.Keys, visited0, v, visited);
          StackPush(adj, path, open, v, parent, w);
          var more: bool;
          ghost var before, parBefore, rankBefore, clockBefore := visited, par, rank, clock;
          more, visited, par, rank, clock := HasCycleDFS(w, visited, Some(v), open + {v}, path + [v], par, rank, clock);
          if more {
            return true, visited, par, rank, clock;
          }
          CycScanChild(adj, v, parent, es, i, open, visited0, par0, before, parBefore, rankBefore, clockBefore, visited, par, rank, clock);
        } else if Some(w) != parent {
          if !g.isDirected {
            CycBack(adj, visited, open, path, par, rank, clock, v, parent, i);
          }
          return true, visited, par, rank, clock;
        } else {
          CycScanParent(adj, v, parent, es, i, open, visited0, par0, visited, par, rank, clock);
        }
      }
      CycLeave(adj, visited, open, par, rank, clock, v);
      return false, visited, par, rank, clock;
    }

    /** The body of hasCycle's loop: a search from `v` unless an earlier
        one reached it. */
    method SearchRoot(v: int, visited0: set<int>, ghost par0: map<int, Option<int>>, ghost rank0: map<int, nat>, ghost clock0: nat)
      returns (found: bool, visited: set<int>, ghost par: map<int, Option<int>>, ghost rank: map<int, nat>, ghost clock: nat)
      requires g.Valid() && v in g.adjList
      requires CycState(g.adjList, visited0, {}, par0, rank0, clock0)
      ensures EdgeFree(g.adjList) ==> !found
      ensures found && !g.isDirected ==> CycleSeen(g.adjList)
      ensures !found ==> visited0 + {v} <= visited && CycState(g.adjList, visited, {}, par, rank, clock)
    {
      if v in visited0 {
        return false, visited0, par0, rank0, clock0;
      }
      found, visited, par, rank, clock := HasCycleDFS(v, visited0, None, {}, [], par0, rank0, clock0);
    }

    /** hasCycle: a search from each vertex not yet visited, in ascending
        order. When it finds no cycle, every entry of the graph is a tree
        entry of the search forest; a graph without entries has none, and
        a self-loop is always found. */
    method HasCycle() returns (found: bool)
      requires Valid()
      ensures !found ==> Forest(g.adjList)
      ensures EdgeFree(g.adjList) ==> !found
      ensures (exists v :: v in Succ(g.adjList, v)) ==> found
      ensures found && !g.isDirected ==> Repeated(g.adjList) || !Forest(g.adjList)
    {
      var ks := Ascending(g.vertices);
      var visited: set<int> := {};
      ghost var par: map<int, Option<int>> := map[];
      ghost var rank: map<int, nat> := map[];
      ghost var clock: nat := 0;
      for i := 0 to |ks|
        invariant CycState(g.adjList, visited, {}, par, rank, clock)
        invariant forall x :: x in ks[..i] ==> x in visited
      {
        found, visited, par, rank, clock := SearchRoot(ks[i], visited, par, rank, clock);
        if found {
          if !g.isDirected {
            SeenNotForest(g.adjList);
          }
          return;
        }
        PrefixStep(ks, i);
      }
      PrefixCovers(ks, g.adjList.Keys, visited);
      CycForest(g.adjList, visited, par, rank, clock);
      ForestNoSelfLoops(g.adjList);
      return false;
    }
  }
}

// The general graph of graphs/graphs.hpp: an adjacency-list graph over
// ordered vertices, directed or undirected, weighted or not.
module Graphs {
  import opened Wrappers
  import opened GraphSpec
  import opened GraphSearch
  import opened GraphUnion
  import opened GraphMetrics
  import opened GraphGirth
  import opened GraphDepth

  class Graph {
    var numVertices: int
    const isDirected: bool
    const isWeighted: bool
    var adjList: Adj
    var vertices: set<int>

    /** The vertex count matches the vertex set, every vertex has a list,
        every entry leads to a vertex, and an undirected graph keeps every
        entry mirrored. */
    ghost predicate Valid()
      reads this
    {
      && numVertices == |vertices|
      && adjList.Keys == vertices
      && Closed(adjList)
      && (!isDirected ==> Symmetric(adjList))
    }

    constructor (directed: bool, weighted: bool)
      ensures Valid()
      ensures isDirected == directed && isWeighted == weighted
      ensures vertices == {} && adjList == map[]
    {
      numVertices := 0;
      isDirected := directed;
      isWeighted := weighted;
      adjList := map[];
      vertices := {};
    }

    /** addVertex: adding a vertex twice is the same as adding it once. */
    method AddVertex(v: int)
      requires Valid()
      modifies this
      ensures Valid()
      ensures vertices == old(vertices) + {v}
      ensures adjList == AddVertexAdj(old(adjList), v)
      ensures v in old(vertices) ==> adjList == old(adjList) && numVertices == old(numVertices)
      ensures NumEdges(adjList, isDirected) == NumEdges(old(adjList), isDirected)
    {
      if v !in vertices {
        vertices := vertices + {v};
        adjList := adjList[v := []];
        numVertices := numVertices + 1;
        EntryCountNewVertex(old(adjList), v);
        forall u ensures Succ(adjList, u) == Succ(old(adjList), u) {
          if u == v {
            SuccEmpty(adjList, u);
          }
        }
      }
    }

    /** addEdge: both endpoints become vertices, `src` gets the entry
        (dest, weight), and in an undirected graph `dest` gets (src, weight). */
    method AddEdge(src: int, dest: int, weight: int)
      requires Valid()
      modifies this
      ensures Valid()
      ensures vertices == old(vertices) + {src, dest}
      ensures adjList == AddEdgeAdj(old(adjList), isDirected, src, dest, weight)
      ensures NumEdges(adjList, isDirected) == NumEdges(old(adjList), isDirected) + 1
      ensures dest in Succ(adjList, src) && (!isDirected ==> src in Succ(adjList, dest))
    {
      ghost var a0 := adjList;
      AddVertex(src);
      AddVertex(dest);
      assert adjList == AddVertexAdj(AddVertexAdj(a0, src), dest);
      adjList := PushEntries(adjList, isDirected, src, dest, weight);
      AddEdgeFacts(a0, isDirected, src, dest, weight);
    }

    /** deleteVertex: false and no change for an absent vertex; otherwise the
        vertex, its list and every entry leading to it are gone. */
    method DeleteVertex(v: int) returns (deleted: bool)
      requires Valid()
      modifies this
      ensures Valid()
      ensures deleted == (v in old(vertices))
      ensures !deleted ==> adjList == old(adjList) && vertices == old(vertices) && numVertices == old(numVertices)
      ensures deleted ==> vertices == old(vertices) - {v} && adjList == DeleteVertexAdj(old(adjList), v)
      ensures forall u :: u in adjList ==> v !in Succ(adjList, u)
    {
      if v !in vertices {
        DeleteVertexFacts(adjList, v);
        assert forall u :: u in adjList ==> v !in Succ(adjList, u) by {
          forall u | u in adjList ensures v !in Succ(adjList, u) {
            forall e | e in adjList[u] ensures e.dest != v {
              assert e.dest in adjList;
            }
          }
        }
        return false;
      }
      ghost var a0 := adjList;
      vertices := vertices - {v};
      numVertices := numVertices - 1;
      var m := RemoveVertexEntries(adjList - {v}, v);
      assert m == DeleteVertexAdj(a0, v);
      DeleteVertexFacts(a0, v);
      adjList := m;
      return true;
    }

    /** The loop of deleteVertex over the remaining lists, in key order,
        erasing every entry that leads to `v`. */
    static method RemoveVertexEntries(m0: Adj, v: int) returns (m: Adj)
      ensures m.Keys == m0.Keys
      ensures forall u :: u in m ==> m[u] == RemoveDest(m0[u], v)
    {
      m := m0;
      var rest := m0.Keys;
      while rest != {}
        invariant m.Keys == m0.Keys && rest <= m0.Keys
        invariant forall u :: u in rest ==> m[u] == m0[u]
        invariant forall u :: u in m && u !in rest ==> m[u] == RemoveDest(m0[u], v)
        decreases |rest|
      {
        var k := SetMin(rest);
        m := m[k := RemoveDest(m[k], v)];
        rest := rest - {k};
      }
    }

    /** deleteEdge: false and no change when an endpoint is absent; otherwise
        every src->dest entry is removed (and every dest->src entry when
        undirected), and the result says whether there was a src->dest entry. */
    method DeleteEdge(src: int, dest: int) returns (found: bool)
      requires Valid()
      modifies this
      ensures Valid()
      ensures vertices == old(vertices) && numVertices == old(numVertices)
      ensures src !in old(vertices) || dest !in old(vertices) ==> !found && adjList == old(adjList)
      ensures src in old(vertices) && dest in old(vertices) ==>
        && found == (dest in Succ(old(adjList), src))
        && adjList == DeleteEdgeAdj(old(adjList), isDirected, src, dest)
        && dest !in Succ(adjList, src)
        && (!isDirected ==> src !in Succ(adjList, dest))
    {
      if src !in vertices || dest !in vertices {
        return false;
      }
      found := false;
      var kept := RemoveDest(adjList[src], dest);
      if |kept| != |adjList[src]| {
        found := true;
      }
      adjList := adjList[src := kept];
      if !isDirected {
        adjList := adjList[dest := RemoveDest(adjList[dest], src)];
      }
      DeleteEdgeFacts(old(adjList), isDirected, src, dest);
      assert found == (dest in Succ(old(adjList), src)) by {
        if dest in Succ(old(adjList), src) {
          var e :| e in old(adjList)[src] && e.dest == dest;
        }
      }
    }

    /** join: throws logic_error, changing nothing, when the two graphs differ
        in directedness or weightedness; otherwise adds every vertex of
        `other`, then every entry of `other` that `this` lacks (an undirected
        entry only from its smaller end). */
    method Join(other: Graph) returns (out: Outcome)
      requires Valid() && other.Valid()
      modifies this
      ensures Valid()
      ensures isDirected != other.isDirected || isWeighted != other.isWeighted ==>
        out == Fail(LogicError) && adjList == old(adjList) && vertices == old(vertices) && numVertices == old(numVertices)
      ensures isDirected == other.isDirected && isWeighted == other.isWeighted ==>
        && out == Pass
        && vertices == old(vertices) + old(other.vertices)
        && adjList == JoinAdj(old(adjList), isDirected, old(other.adjList))
    {
      if isDirected != other.isDirected {
        return Fail(LogicError);
      }
      if isWeighted != other.isWeighted {
        return Fail(LogicError);
      }
      var oadj := other.adjList;
      AddVertexSet(other.vertices);
      var base := adjList;
      var ks := Ascending(oadj.Keys);
      for i := 0 to |ks|
        invariant Valid() && vertices == old(vertices) + oadj.Keys
        invariant adjList == JoinArcs(base, isDirected, ArcsFrom(oadj, ks[..i]))
      {
        ghost var before := adjList;
        assert ks[i] in ks;
        ListClosed(oadj, ks[i]);
        CopyEntries(ks[i], oadj[ks[i]]);
        JoinArcsFromStep(base, isDirected, oadj, ks, i);
      }
      PrefixFull(ks);
      return Pass;
    }

    /** The first loop of join: addVertex for every vertex of `vs`, in ascending order. */
    method AddVertexSet(vs: set<int>)
      requires Valid()
      modifies this
      ensures Valid() && vertices == old(vertices) + vs
      ensures adjList == AddVertices(old(adjList), vs)
    {
      var rest := vs;
      assert vs - rest == {};
      AddNoVertices(adjList);
      while rest != {}
        invariant Valid() && rest <= vs
        invariant vertices == old(vertices) + (vs - rest)
        invariant adjList == AddVertices(old(adjList), vs - rest)
        decreases |rest|
      {
        var x := SetMin(rest);
        AddVertex(x);
        AddVerticesStep(old(adjList), vs - rest, x);
        TakeOne(vs, rest, x);
        rest := rest - {x};
      }
      assert vs - rest == vs;
    }

    /** The second loop of join for one vertex `src` of the other graph: each
        entry is copied unless `src` already has an entry to its destination,
        or the graph is undirected and `src` is not below it. */
    method CopyEntries(src: int, es: seq<Entry>)
      requires Valid() && src in vertices
      requires forall e :: e in es ==> e.dest in vertices
      modifies this
      ensures Valid() && vertices == old(vertices)
      ensures adjList == JoinArcs(old(adjList), isDirected, ArcsOf(src, es))
    {
      for j := 0 to |es|
        invariant Valid() && vertices == old(vertices)
        invariant adjList == JoinArcs(old(adjList), isDirected, ArcsOf(src, es[..j]))
      {
        var dest := es[j].dest;
        var weight := es[j].weight;
        assert es[j] in es;
        JoinArcsEntry(old(adjList), isDirected, src, es, j);
        var present := HasEntryTo(src, dest);
        if !present && (isDirected || src < dest) {
          AddEdge(src, dest, weight);
        }
      }
      assert es[..|es|] == es;
    }

    /** operator+: a fresh graph holding a copy of this one joined with
        `other`; the join's logic_error propagates when the flags differ.
        Neither operand changes. */
    method Plus(other: Graph) returns (res: Result<Graph>)
      requires Valid() && other.Valid()
      ensures isDirected != other.isDirected || isWeighted != other.isWeighted ==> res == Err(LogicError)
      ensures isDirected == other.isDirected && isWeighted == other.isWeighted ==>
        && res.Ok? && fresh(res.value) && res.value.Valid()
        && res.value.isDirected == isDirected && res.value.isWeighted == isWeighted
        && res.value.vertices == vertices + other.vertices
        && res.value.adjList == PlusAdj(adjList, isDirected, other.adjList)
    {
      var g := Copy();
      var out := g.Join(other);
      if out.Fail? {
        return Err(out.error);
      }
      return Ok(g);
    }

    /** The first half of operator+: a fresh graph with the same flags, every
        vertex of this one, then addEdge for every entry (an undirected edge
        only from its smaller end). */
    method Copy() returns (g: Graph)
      requires Valid()
      ensures fresh(g) && g.Valid() && g.vertices == vertices
      ensures g.isDirected == isDirected && g.isWeighted == isWeighted
      ensures g.adjList == CopyAdj(adjList, isDirected)
    {
      g := new Graph(isDirected, isWeighted);
      g.AddVertexSet(vertices);
      assert g.adjList == AddVertices(map[], adjList.Keys);
      var ks := Ascending(adjList.Keys);
      g.AddEntriesFrom(adjList, ks);
    }

    /** The second loop of the copy: AddEntries for each vertex of `ks` in
        turn, with its list in `adj`. */
    method AddEntriesFrom(adj: Adj, ks: seq<int>)
      requires Valid() && Closed(adj) && adj.Keys <= vertices
      requires forall k :: k in ks ==> k in adj
      modifies this
      ensures Valid() && vertices == old(vertices)
      ensures adjList == CopyArcs(old(adjList), isDirected, ArcsFrom(adj, ks))
    {
      for i := 0 to |ks|
        invariant Valid() && vertices == old(vertices)
        invariant adjList == CopyArcs(old(adjList), isDirected, ArcsFrom(adj, ks[..i]))
      {
        assert ks[i] in ks;
        ListClosed(adj, ks[i]);
        AddEntries(ks[i], adj[ks[i]]);
        CopyArcsFromStep(old(adjList), isDirected, adj, ks, i);
      }
      PrefixFull(ks);
    }

    /** The copy loop of operator+ for one vertex `src`: addEdge for each
        entry, an undirected one only from its smaller end. */
    method AddEntries(src: int, es: seq<Entry>)
      requires Valid() && src in vertices
      requires forall e :: e in es ==> e.dest in vertices
      modifies this
      ensures Valid() && vertices == old(vertices)
      ensures adjList == CopyArcs(old(adjList), isDirected, ArcsOf(src, es))
    {
      for j := 0 to |es|
        invariant Valid() && vertices == old(vertices)
        invariant adjList == CopyArcs(old(adjList), isDirected, ArcsOf(src, es[..j]))
      {
        var dest := es[j].dest;
        var weight := es[j].weight;
        assert es[j] in es;
        CopyArcsSnoc(old(adjList), isDirected, src, es, j);
        if isDirected || src < dest {
          AddEdge(src, dest, weight);
        }
      }
      assert es[..|es|] == es;
    }

    /** BFS: invalid_argument for a missing start; otherwise the visiting
        order (the per-level printing loop is folded into one queue loop). */
    method BFS(start: int) returns (res: Result<seq<int>>)
      requires Valid()
      ensures start !in vertices ==> res == Err(InvalidArgument)
      ensures start in vertices ==> res.Ok? && BfsOrder(adjList, start, res.value)
    {
      if start !in vertices {
        return Err(InvalidArgument);
      }
      var traversal, visited := Traverse(start);
      return Ok(traversal);
    }

    /** isConnected: true for an empty graph; otherwise whether the search
        from the least vertex visits every vertex. In an undirected graph
        that is exactly connectivity. */
    method IsConnected() returns (connected: bool)
      requires Valid()
      ensures vertices == {} ==> connected
      ensures vertices != {} ==> (connected <==> forall t :: t in vertices ==> Reachable(adjList, SetMin(vertices), t))
      ensures !isDirected ==> (connected <==> Connected(adjList))
    {
      if vertices == {} {
        return true;
      }
      var start := SetMin(vertices);
      var traversal, visited := Traverse(start);
      connected := |visited| == |vertices|;
      forall t | Reachable(adjList, start, t) ensures t in vertices {
        ghost var k: nat :| HasWalk(adjList, start, t, k);
        WalkEndsInGraph(adjList, start, t, k);
      }
      if connected {
        assert visited == vertices by {
          SubsetCard(vertices - visited, vertices);
          assert |vertices - visited| == |vertices| - |visited|;
        }
      } else {
        assert visited != vertices;
      }
      if !isDirected {
        ReachAllConnected(adjList, start);
      }
    }

    /** The queue loop shared by BFS and isConnected: pop the front, record
        it, push every successor not yet visited. */
    method Traverse(start: int) returns (traversal: seq<int>, visited: set<int>)
      requires Valid() && start in vertices
      ensures BfsOrder(adjList, start, traversal)
      ensures visited == (set x | x in traversal) && visited <= vertices
    {
      var q := [start];
      traversal := [];
      visited := {start};
      ghost var level: map<int, nat> := map[start := 0];
      FrontierInit(adjList, start);
      while q != []
        invariant Frontier(adjList, start, traversal + q, |traversal|, visited, level)
        decreases |adjList.Keys| - |visited|, |q|
      {
        traversal, q, visited, level := Dequeue(start, traversal, q, visited, level);
      }
      assert traversal + q == traversal;
      FrontierOrder(adjList, start, traversal, visited, level);
    }

    /** The body of the BFS loop: pop the front of the queue, record it and
        expand it. */
    method Dequeue(ghost start: int, traversal0: seq<int>, q0: seq<int>, visited0: set<int>,
                   ghost level0: map<int, nat>)
      returns (traversal: seq<int>, q: seq<int>, visited: set<int>, ghost level: map<int, nat>)
      requires Valid() && q0 != []
      requires Frontier(adjList, start, traversal0 + q0, |traversal0|, visited0, level0)
      ensures Frontier(adjList, start, traversal + q, |traversal|, visited, level)
      ensures |visited| <= |adjList.Keys|
      ensures |visited| > |visited0| || (|visited| == |visited0| && |q| < |q0|)
    {
      var current := q0[0];
      PopFront(traversal0, q0);
      q := q0[1..];
      ghost var order := traversal0 + [current] + q;
      ScanBegin(adjList, start, order, |traversal0|, visited0, level0);
      q, visited, level := Expand(start, traversal0, current, q, visited0, level0);
      order := traversal0 + [current] + q;
      assert order[|traversal0|] == current;
      ScanEnd(adjList, start, order, |traversal0|, visited, level);
      SubsetCard(visited, adjList.Keys);
      traversal := traversal0 + [current];
      assert |traversal| == |traversal0| + 1;
    }

    /** One dequeue of the BFS loop: every successor of `current` not yet
        visited is marked visited and pushed, in list order. */
    method Expand(ghost start: int, ghost traversal: seq<int>, current: int, q0: seq<int>,
                  visited0: set<int>, ghost level0: map<int, nat>)
      returns (q: seq<int>, visited: set<int>, ghost level: map<int, nat>)
      requires Valid()
      requires Scanning(adjList, start, traversal + [current] + q0, |traversal|, visited0, level0, 0)
      ensures Scanning(adjList, start, traversal + [current] + q, |traversal|, visited, level, |adjList[current]|)
      ensures |visited| >= |visited0| && (|visited| == |visited0| ==> q == q0)
      ensures visited <= adjList.Keys
    {
      q, visited, level := q0, visited0, level0;
      assert (traversal + [current] + q)[|traversal|] == current;
      var nbrs := adjList[current];
      for i := 0 to |nbrs|
        invariant Scanning(adjList, start, traversal + [current] + q, |traversal|, visited, level, i)
        invariant |visited| >= |visited0| && (|visited| == |visited0| ==> q == q0)
      {
        q, visited, level := Visit(start, traversal, current, q, visited, level, i);
      }
    }

    /** The body of expand's loop for the `i`-th entry of `current`'s list. */
    method Visit(ghost start: int, ghost traversal: seq<int>, current: int, q0: seq<int>,
                 visited0: set<int>, ghost level0: map<int, nat>, i: nat)
      returns (q: seq<int>, visited: set<int>, ghost level: map<int, nat>)
      requires Valid()
      requires Scanning(adjList, start, traversal + [current] + q0, |traversal|, visited0, level0, i)
      requires i < |adjList[current]|
      ensures Scanning(adjList, start, traversal + [current] + q, |traversal|, visited, level, i + 1)
      ensures |visited| >= |visited0| && (|visited| == |visited0| ==> q == q0)
    {
      ghost var order := traversal + [current] + q0;
      assert order[|traversal|] == current;
      var w := adjList[current][i].dest;
      if w !in visited0 {
        ScanNewAt(adjList, start, order, |traversal|, visited0, level0, i, current, w);
        PushBack(traversal + [current], q0, w);
        q, visited, level := q0 + [w], visited0 + {w}, level0[w := level0[current] + 1];
      } else {
        ScanSeen(adjList, start, order, |traversal|, visited0, level0, i);
        q, visited, level := q0, visited0, level0;
      }
    }

    /** getDistance: invalid_argument when an endpoint is missing; 0 from a
        vertex to itself; otherwise the hop distance found by a BFS that
        stops as soon as `dest` is discovered, or -1 when `dest` is unreachable. */
    method GetDistance(src: int, dest: int) returns (res: Result<int>)
      requires Valid()
      ensures src !in vertices || dest !in vertices ==> res == Err(InvalidArgument)
      ensures src in vertices && dest in vertices ==>
        && res.Ok?
        && (res.value == -1 <==> !Reachable(adjList, src, dest))
        && (res.value != -1 ==> Reachable(adjList, src, dest) && res.value == Dist(adjList, src, dest))
    {
      if src !in vertices || dest !in vertices {
        return Err(InvalidArgument);
      }
      if src == dest {
        assert HasWalk(adjList, src, dest, 0);
        assert IsDist(adjList, src, dest, 0);
        DistUnique(adjList, src, dest, 0, Dist(adjList, src, dest));
        return Ok(0);
      }
      var distance: map<int, nat> := map[src := 0];
      var q := [src];
      var visited := {src};
      ghost var done: seq<int> := [];
      FrontierInit(adjList, src);
      while q != []
        invariant Frontier(adjList, src, done + q, |done|, visited, distance)
        invariant dest !in visited
        decreases |adjList.Keys| - |visited|, |q|
      {
        ghost var current := q[0];
        var found;
        q, visited, distance, found := SeekRound(src, done, q, visited, distance, dest);
        if found {
          DistUnique(adjList, src, dest, distance[dest], Dist(adjList, src, dest));
          return Ok(distance[dest]);
        }
        SubsetCard(visited, adjList.Keys);
        done := done + [current];
      }
      assert done + q == done;
      FrontierDone(adjList, src, done, visited, distance);
      return Ok(-1);
    }

    /** One round of getDistance's queue loop: pop the front and scan its
        list, stopping as soon as `dest` is discovered. */
    method SeekRound(ghost start: int, ghost done: seq<int>, q0: seq<int>,
                     visited0: set<int>, distance0: map<int, nat>, dest: int)
      returns (q: seq<int>, visited: set<int>, distance: map<int, nat>, found: bool)
      requires Valid() && q0 != [] && dest !in visited0
      requires Frontier(adjList, start, done + q0, |done|, visited0, distance0)
      ensures found ==> dest in distance && IsDist(adjList, start, dest, distance[dest])
      ensures !found ==> dest !in visited && Frontier(adjList, start, done + [q0[0]] + q, |done| + 1, visited, distance)
      ensures visited <= adjList.Keys
      ensures |visited| > |visited0| || (|visited| == |visited0| && |q| < |q0|)
    {
      var current := q0[0];
      PopFront(done, q0);
      ScanBegin(adjList, start, done + [current] + q0[1..], |done|, visited0, distance0);
      q, visited, distance, found := Seek(start, done, current, q0[1..], visited0, distance0, dest);
      if !found {
        ghost var order := done + [current] + q;
        assert order[|done|] == current;
        ScanEnd(adjList, start, order, |done|, visited, distance);
      }
    }

    /** The neighbour loop of getDistance for one dequeued vertex: like the
        BFS step, but it stops as soon as `dest` is discovered. */
    method Seek(ghost start: int, ghost done: seq<int>, current: int, q0: seq<int>,
                visited0: set<int>, distance0: map<int, nat>, dest: int)
      returns (q: seq<int>, visited: set<int>, distance: map<int, nat>, found: bool)
      requires Valid() && dest !in visited0
      requires Scanning(adjList, start, done + [current] + q0, |done|, visited0, distance0, 0)
      ensures found <==> dest in visited
      ensures found ==> dest in distance && IsDist(adjList, start, dest, distance[dest])
      ensures !found ==> Scanning(adjList, start, done + [current] + q, |done|, visited, distance, |adjList[current]|)
      ensures |visited| >= |visited0| && (|visited| == |visited0| ==> q == q0)
      ensures visited <= adjList.Keys
    {
      q, visited, distance, found := q0, visited0, distance0, false;
      var nbrs := adjList[current];
      var i := 0;
      while i < |nbrs| && !found
        invariant i <= |nbrs|
        invariant Scanning(adjList, start, done + [current] + q, |done|, visited, distance, i)
        invariant found <==> dest in visited
        invariant |visited| >= |visited0| && (|visited| == |visited0| ==> q == q0)
      {
        var w := nbrs[i].dest;
        var added;
        q, visited, distance, added := SeekVisit(start, done, current, q, visited, distance, i);
        found := added && w == dest;
        i := i + 1;
      }
    }

    /** The body of getDistance's neighbour loop for the `i`-th entry. */
    method SeekVisit(ghost start: int, ghost done: seq<int>, current: int, q0: seq<int>,
                     visited0: set<int>, distance0: map<int, nat>, i: nat)
      returns (q: seq<int>, visited: set<int>, distance: map<int, nat>, added: bool)
      requires Valid()
      requires Scanning(adjList, start, done + [current] + q0, |done|, visited0, distance0, i)
      requires i < |adjList[current]|
      ensures Scanning(adjList, start, done + [current] + q, |done|, visited, distance, i + 1)
      ensures added <==> adjList[current][i].dest !in visited0
      ensures visited == visited0 + {adjList[current][i].dest}
      ensures added ==> distance[adjList[current][i].dest] == distance0[current] + 1
      ensures |visited| >= |visited0| && (|visited| == |visited0| ==> q == q0)
    {
      ghost var order := done + [current] + q0;
      assert order[|done|] == current;
      var w := adjList[current][i].dest;
      added := w !in visited0;
      if added {
        ScanNewAt(adjList, start, order, |done|, visited0, distance0, i, current, w);
        PushBack(done + [current], q0, w);
        q, visited, distance := q0 + [w], visited0 + {w}, distance0[w := distance0[current] + 1];
      } else {
        ScanSeen(adjList, start, order, |done|, visited0, distance0, i);
        q, visited, distance := q0, visited0, distance0;
      }
    }

    /** The inner loop shared by getDiameter and getRadius: the largest
        getDistance from `src` to another vertex, vertices taken in ascending
        order, or -1 at the first vertex that `src` does not reach. */
    method Eccentricity(src: int) returns (e: int)
      requires Valid() && src in vertices
      ensures e == -1 <==> exists t :: t in adjList && !Reachable(adjList, src, t)
      ensures e != -1 ==> e >= 0 && IsEcc(adjList, src, e)
    {
      var ks := Ascending(vertices);
      e := 0;
      DistSelf(adjList, src);
      for j := 0 to |ks|
        invariant e >= 0
        invariant forall t :: t in ks[..j] ==> Reachable(adjList, src, t) && Dist(adjList, src, t) <= e
        invariant Attains(adjList, src, e)
      {
        var dest := ks[j];
        if src != dest {
          var dist := GetDistance(src, dest);
          if dist.value == -1 {
            return -1;
          }
          e := if e < dist.value then dist.value else e;
        }
        PrefixStep(ks, j);
      }
      PrefixFull(ks);
    }

    /** getDiameter: 0 with fewer than two vertices; -1 when some vertex does
        not reach another; otherwise the largest distance between two vertices.
        The maximum over each source's inner loop is taken through Eccentricity. */
    method GetDiameter() returns (d: int)
      requires Valid()
      ensures |vertices| <= 1 ==> d == 0
      ensures |vertices| >= 2 ==> (d == -1 <==> !Connected(adjList))
      ensures |vertices| >= 2 && d != -1 ==> d >= 0 && IsDiameter(adjList, d)
    {
      if |vertices| <= 1 {
        return 0;
      }
      var ks := Ascending(vertices);
      var diameter: nat := 0;
      DistSelf(adjList, ks[0]);
      assert Attains(adjList, ks[0], 0);
      for i := 0 to |ks|
        invariant forall s :: s in ks[..i] ==> Bounded(adjList, s, diameter)
        invariant exists s :: s in adjList && Attains(adjList, s, diameter)
      {
        var e := Eccentricity(ks[i]);
        if e == -1 {
          return -1;
        }
        diameter := DiameterStep(ks, i, diameter, e);
      }
      PrefixFull(ks);
      BoundedConnected(adjList, diameter);
      return diameter;
    }

    /** getRadius: 0 with fewer than two vertices; -1 when some vertex does
        not reach another; otherwise the least eccentricity. The INT_MAX the
        running minimum starts from is `None`. */
    method GetRadius() returns (r: int)
      requires Valid()
      ensures |vertices| <= 1 ==> r == 0
      ensures |vertices| >= 2 ==> (r == -1 <==> !Connected(adjList))
      ensures |vertices| >= 2 && r != -1 ==> r >= 0 && IsRadius(adjList, r)
    {
      if |vertices| <= 1 {
        return 0;
      }
      var ks := Ascending(vertices);
      var radius: Option<nat> := None;
      ghost var centre := ks[0];
      for i := 0 to |ks|
        invariant radius.None? <==> i == 0
        invariant forall s :: s in ks[..i] ==> Reaches(adjList, s)
        invariant radius.Some? ==> IsEcc(adjList, centre, radius.value)
        invariant radius.Some? ==> forall s :: s in ks[..i] ==> AtLeast(adjList, s, radius.value)
      {
        var e := Eccentricity(ks[i]);
        if e == -1 {
          return -1;
        }
        radius, centre := RadiusStep(ks, i, radius, centre, e);
      }
      PrefixFull(ks);
      LeastEcc(adjList, centre, radius.value);
      ReachesConnected(adjList);
      return radius.value;
    }

    /** One round of getDiameter's outer loop: the running maximum takes in
        the eccentricity `e` of `ks[i]`. */
    method DiameterStep(ks: seq<int>, i: nat, diameter0: nat, e: nat) returns (diameter: nat)
      requires Valid() && i < |ks| && IsEcc(adjList, ks[i], e)
      requires forall s :: s in ks[..i] ==> Bounded(adjList, s, diameter0)
      requires exists s :: s in adjList && Attains(adjList, s, diameter0)
      ensures forall s :: s in ks[..i + 1] ==> Bounded(adjList, s, diameter)
      ensures exists s :: s in adjList && Attains(adjList, s, diameter)
    {
      PrefixStep(ks, i);
      if diameter0 < e {
        forall s | s in ks[..i] ensures Bounded(adjList, s, e) {
          BoundedMono(adjList, s, diameter0, e);
        }
        diameter := e;
      } else {
        BoundedMono(adjList, ks[i], e, diameter0);
        diameter := diameter0;
      }
    }

    /** One round of getRadius's outer loop: the running minimum takes in
        the eccentricity `e` of `ks[i]`. */
    method RadiusStep(ks: seq<int>, i: nat, radius0: Option<nat>, ghost centre0: int, e: nat)
      returns (radius: Option<nat>, ghost centre: int)
      requires Valid() && i < |ks| && IsEcc(adjList, ks[i], e)
      requires radius0.None? <==> i == 0
      requires forall s :: s in ks[..i] ==> Reaches(adjList, s)
      requires radius0.Some? ==> IsEcc(adjList, centre0, radius0.value)
      requires radius0.Some? ==> forall s :: s in ks[..i] ==> AtLeast(adjList, s, radius0.value)
      ensures radius.Some? && IsEcc(adjList, centre, radius.value)
      ensures forall s :: s in ks[..i + 1] ==> Reaches(adjList, s)
      ensures forall s :: s in ks[..i + 1] ==> AtLeast(adjList, s, radius.value)
    {
      EccAtLeast(adjList, ks[i], e);
      PrefixStep(ks, i);
      if radius0.None? || e < radius0.value {
        forall s | s in ks[..i] ensures AtLeast(adjList, s, e) {
          AtLeastMono(adjList, s, radius0.value, e);
        }
        radius, centre := Some(e), ks[i];
      } else {
        AtLeastMono(adjList, ks[i], e, radius0.value);
        radius, centre := radius0, centre0;
      }
    }

    /** getNumVertices. */
    function NumVertices(): (n: int)
      reads this
      requires Valid()
      ensures n == |vertices|
    {
      numVertices
    }

    /** getNumEdges: the total length of the adjacency lists, halved when undirected. */
    method GetNumEdges() returns (n: int)
      requires Valid()
      ensures n == NumEdges(adjList, isDirected)
    {
      var count := 0;
      var rest := adjList.Keys;
      while rest != {}
        invariant rest <= adjList.Keys
        invariant count + CountOver(adjList, rest) == EntryCount(adjList)
        decreases |rest|
      {
        var k := SetMin(rest);
        count := count + |adjList[k]|;
        rest := rest - {k};
      }
      n := if isDirected then count else count / 2;
    }

    /** getDegree: invalid_argument for a missing vertex; otherwise the length
        of its adjacency list (its out-degree when directed). */
    method GetDegree(v: int) returns (res: Result<int>)
      requires Valid()
      ensures v !in vertices ==> res == Err(InvalidArgument)
      ensures v in vertices ==> res == Ok(|adjList[v]|) && |Succ(adjList, v)| <= res.value
    {
      if v !in vertices {
        return Err(InvalidArgument);
      }
      SuccBound(adjList[v]);
      return Ok(|adjList[v]|);
    }

    /** getInDegree: invalid_argument for a missing vertex; getDegree when
        undirected; otherwise the number of entries, over all lists, leading to `v`. */
    method GetInDegree(v: int) returns (res: Result<int>)
      requires Valid()
      ensures v !in vertices ==> res == Err(InvalidArgument)
      ensures v in vertices && !isDirected ==> res == Ok(|adjList[v]|)
      ensures v in vertices && isDirected ==>
        && res == Ok(InCountOver(adjList, v, adjList.Keys))
        && (res.value == 0 <==> forall u :: u in adjList ==> v !in Succ(adjList, u))
    {
      if v !in vertices {
        return Err(InvalidArgument);
      }
      if !isDirected {
        res := GetDegree(v);
        return;
      }
      var inDegree := 0;
      var rest := adjList.Keys;
      while rest != {}
        invariant rest <= adjList.Keys
        invariant inDegree + InCountOver(adjList, v, rest) == InCountOver(adjList, v, adjList.Keys)
        decreases |rest|
      {
        var k := SetMin(rest);
        var c := CountDest(adjList[k], v);
        inDegree := inDegree + c;
        rest := rest - {k};
      }
      InCountZero(adjList, v, adjList.Keys);
      return Ok(inDegree);
    }

    /** getMinDegree: 0 for an empty graph; otherwise the least getDegree.
        The INT_MAX the running minimum starts from is `None`. */
    method GetMinDegree() returns (r: int)
      requires Valid()
      ensures vertices == {} ==> r == 0
      ensures vertices != {} ==> (exists v :: v in vertices && r == |adjList[v]|)
      ensures forall v :: v in vertices ==> r <= |adjList[v]|
    {
      if vertices == {} {
        return 0;
      }
      var minDeg: Option<int> := None;
      var rest := vertices;
      while rest != {}
        invariant rest <= vertices
        invariant minDeg.None? <==> rest == vertices
        invariant minDeg.Some? ==> exists v :: v in vertices && minDeg.value == |adjList[v]|
        invariant minDeg.Some? ==> forall v :: v in vertices - rest ==> minDeg.value <= |adjList[v]|
        decreases |rest|
      {
        var v := SetMin(rest);
        var deg := GetDegree(v);
        if minDeg.None? || deg.value < minDeg.value {
          minDeg := Some(deg.value);
        }
        rest := rest - {v};
      }
      return minDeg.value;
    }

    /** getMaxDegree: 0 for an empty graph; otherwise the largest getDegree. */
    method GetMaxDegree() returns (r: int)
      requires Valid()
      ensures vertices == {} ==> r == 0
      ensures vertices != {} ==> (exists v :: v in vertices && r == |adjList[v]|)
      ensures forall v :: v in vertices ==> |adjList[v]| <= r
    {
      if vertices == {} {
        return 0;
      }
      var maxDeg := 0;
      var rest := vertices;
      ghost var best := SetMin(vertices);
      while rest != {}
        invariant rest <= vertices && best in vertices
        invariant rest != vertices ==> maxDeg == |adjList[best]|
        invariant rest == vertices ==> maxDeg == 0
        invariant forall v :: v in vertices - rest ==> |adjList[v]| <= maxDeg
        decreases |rest|
      {
        var v := SetMin(rest);
        var deg := GetDegree(v);
        if rest == vertices || maxDeg < deg.value {
          best := v;
        }
        maxDeg := if maxDeg < deg.value then deg.value else maxDeg;
        rest := rest - {v};
      }
      return maxDeg;
    }

    /** DFS: invalid_argument for a missing start; otherwise the vertices in
        the order DFSUtil discovers them. */
    method DFS(start: int) returns (res: Result<seq<int>>)
      requires Valid()
      ensures start !in vertices ==> res == Err(InvalidArgument)
      ensures start in vertices ==> res.Ok? && DfsOrder(adjList, start, res.value)
      ensures start in vertices ==> res.Ok? && res.value == DfsVisit(adjList, start, {}, []).1
    {
      if start !in vertices {
        return Err(InvalidArgument);
      }
      assert HasWalk(adjList, start, start, 0);
      var visited, traversal := DFSUtil(start, start, start, {}, [], {});
      forall t | Reachable(adjList, start, t) ensures t in traversal {
        ghost var k: nat :| HasWalk(adjList, start, t, k);
        ClosedSetHoldsWalks(adjList, visited, start, t, k);
      }
      return Ok(traversal);
    }

    /** DFSUtil: marks `v` visited, appends it to the traversal, then recurses
        on each neighbour not yet visited, in list order. `parent` is the
        vertex `v` was reached from and `open` the vertices whose call is
        still running. */
    method DFSUtil(ghost start: int, ghost parent: int, v: int, visited0: set<int>, traversal0: seq<int>, ghost open: set<int>)
      returns (visited: set<int>, traversal: seq<int>)
      requires Valid() && v in vertices && v !in visited0 && Reachable(adjList, start, v)
      requires (traversal0 == [] && visited0 == {} && v == start)
            || (DfsState(adjList, start, visited0, traversal0, open) && parent in visited0 && v in Succ(adjList, parent))
      ensures DfsState(adjList, start, visited, traversal, open)
      ensures visited0 + {v} <= visited && traversal0 + [v] <= traversal
      ensures (visited, traversal) == DfsVisit(adjList, v, visited0, traversal0)
      decreases |vertices| - |visited0|
    {
      DfsEnter(adjList, start, parent, v, visited0, traversal0, open);
      visited := visited0 + {v};
      traversal := traversal0 + [v];
      var es := adjList[v];
      for i := 0 to |es|
        invariant DfsState(adjList, start, visited, traversal, open + {v})
        invariant visited0 + {v} <= visited && traversal0 + [v] <= traversal
        invariant forall j :: 0 <= j < i ==> es[j].dest in visited
        invariant DfsScan(adjList, es[i..], visited, traversal) == DfsVisit(adjList, v, visited0, traversal0)
      {
        var w := es[i].dest;
        assert es[i] in adjList[v];
        assert es[i..][1..] == es[i + 1..];
        if w !in visited {
          ghost var k: nat :| HasWalk(adjList, start, v, k);
          WalkStep(adjList, start, v, w, k);
          DfsFewer(vertices, visited0, v, visited);
          ghost var before, tbefore := visited, traversal;
          visited, traversal := DFSUtil(start, v, w, visited, traversal, open + {v});
          DfsGrown(es, i, visited0 + {v}, traversal0 + [v], before, tbefore, visited, traversal);
        }
      }
      DfsLeave(adjList, start, v, visited, traversal, open);
    }

    /** getCircumference: -1 for an empty graph or when no start vertex closes
        a cycle; otherwise the longest cycle dfsLongestCycle finds, over all
        start vertices in ascending order. */
    method GetCircumference() returns (r: int)
      requires Valid()
      ensures r == -1 || (3 <= r <= |vertices| && exists v :: v in vertices && HasWalk(adjList, v, v, r))
      ensures r == -1 <==> vertices == {} || forall v :: v in vertices ==> CycleFrom(adjList, v) == 0
      ensures r != -1 ==> forall v :: v in vertices ==> CycleFrom(adjList, v) <= r
      ensures r != -1 ==> exists v :: v in vertices && CycleFrom(adjList, v) == r
    {
      if vertices == {} {
        return -1;
      }
      var circumference := 0;
      var rest := vertices;
      ghost var best := 0;
      while rest != {}
        invariant rest <= vertices
        invariant forall v :: v in vertices - rest ==> CycleFrom(adjList, v) <= circumference
        invariant circumference == 0 || (best in vertices - rest && CycleFrom(adjList, best) == circumference)
        decreases |rest|
      {
        var start := SetMin(rest);
        var c := CycleFrom(adjList, start);
        if circumference < c {
          circumference, best := c, start;
        }
        rest := rest - {start};
      }
      return if circumference == 0 then -1 else circumference;
    }

    /** getGirth: -1 for an empty graph or when no search finds a round;
        otherwise the shortest round a breadth-first search from some vertex
        closes through an entry to an already-reached vertex other than the
        parent it came from. In an undirected graph that round is a closed walk. */
    method GetGirth() returns (r: int)
      requires Valid()
      ensures r == -1 <==> vertices == {} || forall v :: v in vertices ==> GirthSearch(adjList, v).None?
      ensures r != -1 ==> forall v :: v in vertices && GirthSearch(adjList, v).Some? ==> r <= GirthSearch(adjList, v).value
      ensures r != -1 ==> exists v :: v in vertices && GirthSearch(adjList, v) == Some(r)
      ensures r == -1 || (r >= 2 && ClosedRound(adjList, r))
      ensures r != -1 && !isDirected ==> exists v :: HasWalk(adjList, v, v, r)
    {
      if vertices == {} {
        return -1;
      }
      var girth: Option<nat> := None;
      var rest := vertices;
      while rest != {}
        invariant rest <= vertices
        invariant girth.Some? ==> girth.value >= 2 && ClosedRound(adjList, girth.value)
        invariant Shortest(adjList, vertices - rest, girth)
        decreases |rest|
      {
        var start := SetMin(rest);
        ShortestStep(adjList, vertices - rest, girth, start);
        girth := GirthFrom(start, girth);
        assert vertices - (rest - {start}) == (vertices - rest) + {start};
        rest := rest - {start};
      }
      assert vertices - rest == vertices;
      if girth.None? {
        return -1;
      }
      if !isDirected {
        RoundIsClosedWalk(adjList, girth.value);
      }
      return girth.value;
    }

    /** One search of getGirth from `start`, lowering `girth0` to every round it closes. */
    method GirthFrom(start: int, girth0: Option<nat>) returns (girth: Option<nat>)
      requires Valid() && start in vertices
      requires girth0.Some? ==> girth0.value >= 2 && ClosedRound(adjList, girth0.value)
      ensures girth == Shorter(girth0, GirthSearch(adjList, start))
      ensures girth.Some? ==> girth.value >= 2 && ClosedRound(adjList, girth.value)
    {
      girth := girth0;
      var distance, q := GirthSeed(start);
      ghost var seeded := Search(distance, q, None);
      SeedGirth(start, adjList[start], Search(map[start := 0], [], None), girth0);
      DrainGirth(adjList, seeded.(girth := girth0));
      while q != []
        invariant distance.Keys <= vertices
        invariant Reached(adjList, start, distance) && Queued(q, distance)
        invariant girth.Some? ==> girth.value >= 2 && ClosedRound(adjList, girth.value)
        invariant Drain(adjList, Search(distance, q, girth)) == Shorter(girth0, GirthSearch(adjList, start))
        decreases |vertices| - |distance.Keys|, |q|
      {
        var current, parent := q[0].0, q[0].1;
        assert q[0] in q;
        ghost var d0 := distance;
        distance, q, girth := GirthExpand(start, current, parent, distance, q[1..], girth);
        SubsetCard(distance.Keys, vertices);
        SubsetCard(d0.Keys, distance.Keys);
      }
    }

    /** The first loop of a search of getGirth: every entry of `start`
        queues its destination one edge away. */
    method GirthSeed(start: int) returns (distance: map<int, nat>, q: seq<(int, int)>)
      requires Valid() && start in vertices
      ensures distance.Keys <= vertices && start in distance
      ensures Reached(adjList, start, distance) && Queued(q, distance)
      ensures Search(distance, q, None) == Seed(start, adjList[start], Search(map[start := 0], [], None))
    {
      distance, q := map[start := 0], [];
      assert HasWalk(adjList, start, start, 0);
      var nbrs := adjList[start];
      for i := 0 to |nbrs|
        invariant distance.Keys <= vertices && start in distance
        invariant Reached(adjList, start, distance) && Queued(q, distance)
        invariant Seed(start, nbrs[i..], Search(distance, q, None)) == Seed(start, nbrs, Search(map[start := 0], [], None))
      {
        var w := nbrs[i].dest;
        assert nbrs[i] in adjList[start];
        assert nbrs[i..][1..] == nbrs[i + 1..];
        ReachedStep(adjList, start, distance[start := 0], start, w);
        QueuedPush(q, distance, w, 1, start);
        q := q + [(w, start)];
        distance := distance[w := 1];
      }
    }

    /** The inner loop of a search of getGirth: the entries of `current`,
        in list order. */
    method GirthExpand(ghost start: int, current: int, parent: int,
                       distance0: map<int, nat>, q0: seq<(int, int)>, girth0: Option<nat>)
      returns (distance: map<int, nat>, q: seq<(int, int)>, girth: Option<nat>)
      requires Valid() && current in vertices
      requires distance0.Keys <= vertices && current in distance0 && distance0[current] >= 1
      requires Reached(adjList, start, distance0) && Queued(q0, distance0)
      requires girth0.Some? ==> girth0.value >= 2 && ClosedRound(adjList, girth0.value)
      ensures distance.Keys <= vertices && distance0.Keys <= distance.Keys
      ensures Reached(adjList, start, distance) && Queued(q, distance)
      ensures |q| - |q0| == |distance.Keys| - |distance0.Keys|
      ensures girth.Some? ==> girth.value >= 2 && ClosedRound(adjList, girth.value)
      ensures Search(distance, q, girth) == GraphGirth.Expand(current, parent, adjList[current], Search(distance0, q0, girth0))
    {
      distance, q, girth := distance0, q0, girth0;
      var es := adjList[current];
      for i := 0 to |es|
        invariant distance.Keys <= vertices && distance0.Keys <= distance.Keys
        invariant current in distance && distance[current] == distance0[current]
        invariant Reached(adjList, start, distance) && Queued(q, distance)
        invariant |q| - |q0| == |distance.Keys| - |distance0.Keys|
        invariant girth.Some? ==> girth.value >= 2 && ClosedRound(adjList, girth.value)
        invariant GraphGirth.Expand(current, parent, es[i..], Search(distance, q, girth)) == GraphGirth.Expand(current, parent, es, Search(distance0, q0, girth0))
      {
        assert es[i] in adjList[current];
        assert es[i..][1..] == es[i + 1..];
        distance, q, girth := GirthVisit(start, current, parent, es[i].dest, distance, q, girth);
      }
    }

    /** The body of the inner loop of getGirth for the entry `current -> w`:
        an unseen `w` is queued one level deeper; a seen `w` other than the
        parent closes a round, which may lower the girth. */
    method GirthVisit(ghost start: int, current: int, parent: int, w: int,
                      distance0: map<int, nat>, q0: seq<(int, int)>, girth0: Option<nat>)
      returns (distance: map<int, nat>, q: seq<(int, int)>, girth: Option<nat>)
      requires Valid() && w in Succ(adjList, current)
      requires distance0.Keys <= vertices && current in distance0 && distance0[current] >= 1
      requires Reached(adjList, start, distance0) && Queued(q0, distance0)
      requires girth0.Some? ==> girth0.value >= 2 && ClosedRound(adjList, girth0.value)
      ensures distance.Keys <= vertices && distance0.Keys <= distance.Keys
      ensures current in distance && distance[current] == distance0[current]
      ensures Reached(adjList, start, distance) && Queued(q, distance)
      ensures |q| - |q0| == |distance.Keys| - |distance0.Keys|
      ensures girth.Some? ==> girth.value >= 2 && ClosedRound(adjList, girth.value)
      ensures Search(distance, q, girth) == GraphGirth.Visit(current, parent, w, Search(distance0, q0, girth0))
    {
      distance, q, girth := distance0, q0, girth0;
      if w !in distance {
        ReachedStep(adjList, start, distance, current, w);
        QueuedPush(q, distance, w, distance[current] + 1, current);
        distance := distance[w := distance[current] + 1];
        q := q + [(w, current)];
      } else if w != parent {
        var cycleLength := distance[current] + distance[w] + 1;
        assert Closes(adjList, start, current, w, distance[current], distance[w]);
        if girth.None? || cycleLength < girth.value {
          girth := Some(cycleLength);
        }
      }
    }

    /** The scan join makes over the existing list of `src` before copying an entry. */
    method HasEntryTo(src: int, dest: int) returns (present: bool)
      requires Valid()
      ensures present == (dest in Succ(adjList, src))
    {
      present := false;
      if src !in adjList {
        return;
      }
      var cur := adjList[src];
      var k := 0;
      while k < |cur|
        invariant 0 <= k <= |cur|
        invariant !present
        invariant forall m :: 0 <= m < k ==> cur[m].dest != dest
      {
        if cur[k].dest == dest {
          present := true;
          assert cur[k] in cur;
          return;
        }
        k := k + 1;
      }
    }
  }
}

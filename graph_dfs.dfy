// The depth-first searches of graphs/graphs.hpp: what the order DFSUtil
// produces satisfies, and dfsLongestCycle, which puts `visited` back as it
// found it and so is a function of its arguments.
module GraphDepth {
  import opened GraphSpec
  import opened GraphSearch

  /** `r[i]` is a successor of a vertex listed before it. */
  ghost predicate FoundFrom(adj: Adj, r: seq<int>, i: int)
    requires 0 <= i < |r|
  {
    exists j :: 0 <= j < i && r[i] in Succ(adj, r[j])
  }

  /** Every vertex after the first was found as a successor of one listed before it. */
  ghost predicate Discovered(adj: Adj, r: seq<int>)
  {
    forall i :: 0 < i < |r| ==> FoundFrom(adj, r, i)
  }

  /** A depth-first visiting order from `start`: `start` first, no vertex
      twice, exactly the reachable vertices, each found from an earlier one. */
  ghost predicate DfsOrder(adj: Adj, start: int, r: seq<int>)
  {
    && |r| > 0 && r[0] == start
    && Distinct(r)
    && (forall t :: t in r <==> Reachable(adj, start, t))
    && Discovered(adj, r)
  }

  lemma DiscoveredSnoc(adj: Adj, r: seq<int>, p: int, v: int)
    requires Discovered(adj, r) && p in r && v in Succ(adj, p)
    ensures Discovered(adj, r + [v])
  {
    var pi :| 0 <= pi < |r| && r[pi] == p;
    var r' := r + [v];
    forall i | 0 < i < |r'| ensures FoundFrom(adj, r', i) {
      if i < |r| {
        assert FoundFrom(adj, r, i);
        var k :| 0 <= k < i && r[i] in Succ(adj, r[k]);
        assert r'[i] in Succ(adj, r'[k]);
      } else {
        assert r'[i] in Succ(adj, r'[pi]);
      }
    }
    assert Discovered(adj, r');
  }

  /** The state DFSUtil keeps: `visited` holds exactly the vertices of the
      traversal, listed once each from `start` on, each found from an earlier
      one and reachable from `start`; every visited vertex outside `open`
      (the calls still running) has all its neighbours visited. */
  ghost predicate DfsState(adj: Adj, start: int, visited: set<int>, traversal: seq<int>, open: set<int>)
  {
    && visited <= adj.Keys
    && (forall x :: x in visited <==> x in traversal)
    && Distinct(traversal) && Discovered(adj, traversal)
    && |traversal| > 0 && traversal[0] == start
    && (forall x :: x in visited ==> Reachable(adj, start, x))
    && (forall x :: x in visited ==> x in open || Succ(adj, x) <= visited)
  }

  /** DFSUtil marking and appending `v`, reached from `parent` (or the start vertex itself). */
  lemma DfsEnter(adj: Adj, start: int, parent: int, v: int, visited: set<int>, traversal: seq<int>, open: set<int>)
    requires v in adj && v !in visited && Reachable(adj, start, v)
    requires (traversal == [] && visited == {} && v == start)
          || (DfsState(adj, start, visited, traversal, open) && parent in visited && v in Succ(adj, parent))
    ensures DfsState(adj, start, visited + {v}, traversal + [v], open + {v})
  {
    if traversal != [] {
      DiscoveredSnoc(adj, traversal, parent, v);
      forall i | 0 <= i < |traversal| ensures traversal[i] != v {
        assert traversal[i] in visited;
      }
    }
    var t := traversal + [v];
    assert forall x :: x in t <==> x in traversal || x == v;
  }

  /** DFSUtil returning from `v` once every neighbour of `v` is visited. */
  lemma DfsLeave(adj: Adj, start: int, v: int, visited: set<int>, traversal: seq<int>, open: set<int>)
    requires DfsState(adj, start, visited, traversal, open + {v}) && Succ(adj, v) <= visited
    ensures DfsState(adj, start, visited, traversal, open)
  {
  }

  /** A recursive DFSUtil call visits a vertex not yet visited, so fewer remain. */
  lemma DfsFewer(keys: set<int>, visited0: set<int>, v: int, visited: set<int>)
    requires v !in visited0 && visited0 + {v} <= visited <= keys
    ensures 0 <= |keys| - |visited| < |keys| - |visited0|
  {
    SubsetCard(visited0 + {v}, visited);
    SubsetCard(visited, keys);
  }

  /** What a recursive DFSUtil call on the `i`-th entry keeps of the loop's progress. */
  lemma DfsGrown(es: seq<Entry>, i: nat, base: set<int>, pre: seq<int>, before: set<int>, tbefore: seq<int>, visited: set<int>, traversal: seq<int>)
    requires i < |es| && base <= before && pre <= tbefore
    requires forall j :: 0 <= j < i ==> es[j].dest in before
    requires before + {es[i].dest} <= visited && tbefore + [es[i].dest] <= traversal
    ensures base <= visited && pre <= traversal
    ensures forall j :: 0 <= j < i + 1 ==> es[j].dest in visited
  {
  }

  /** DFSUtil(v, visited, traversal) as a function: mark `v`, append it, then
      run the loop over its entries; the result is the visited set and the
      traversal it leaves. */
  function DfsVisit(adj: Adj, v: int, visited: set<int>, traversal: seq<int>): (r: (set<int>, seq<int>))
    requires Closed(adj) && v in adj && visited <= adj.Keys && v !in visited
    ensures visited + {v} <= r.0 <= adj.Keys && traversal + [v] <= r.1
    decreases Unvisited(adj, visited), 0, 0
  {
    SubsetCard(visited + {v}, adj.Keys);
    DfsScan(adj, adj[v], visited + {v}, traversal + [v])
  }

  /** The loop of DFSUtil over the entries `es` still to scan: a destination
      not yet visited is searched in full before the next entry is looked at. */
  function DfsScan(adj: Adj, es: seq<Entry>, visited: set<int>, traversal: seq<int>): (r: (set<int>, seq<int>))
    requires Closed(adj) && visited <= adj.Keys
    requires forall e :: e in es ==> e.dest in adj
    ensures visited <= r.0 <= adj.Keys && traversal <= r.1
    decreases Unvisited(adj, visited), 1, |es|
  {
    if es == [] then (visited, traversal)
    else
      var w := es[0].dest;
      assert es[0] in es;
      if w in visited then DfsScan(adj, es[1..], visited, traversal)
      else
        var next := DfsVisit(adj, w, visited, traversal);
        SubsetCard(visited, next.0);
        DfsScan(adj, es[1..], next.0, next.1)
  }

  /** Depth first, not breadth first: from 1 with lists 1: [2, 3] and
      2: [4], the search finishes 2 and 4 before it turns to 3. */
  lemma DfsVisitDepthFirst()
    ensures var adj := map[1 := [Entry(2, 1), Entry(3, 1)], 2 := [Entry(4, 1)], 3 := [], 4 := []];
            Closed(adj) && DfsVisit(adj, 1, {}, []).1 == [1, 2, 4, 3]
  {
    var adj := map[1 := [Entry(2, 1), Entry(3, 1)], 2 := [Entry(4, 1)], 3 := [], 4 := []];
    assert Closed(adj);
    assert adj[4] == [] && adj[3] == [];
    assert DfsScan(adj, [], {1, 2, 4}, [1, 2, 4]) == ({1, 2, 4}, [1, 2, 4]);
    assert {1, 2} + {4} == {1, 2, 4} && [1, 2] + [4] == [1, 2, 4];
    assert DfsVisit(adj, 4, {1, 2}, [1, 2]) == DfsScan(adj, adj[4], {1, 2, 4}, [1, 2, 4]);
    assert DfsScan(adj, [Entry(4, 1)], {1, 2}, [1, 2]) == ({1, 2, 4}, [1, 2, 4]);
    assert {1} + {2} == {1, 2} && [1] + [2] == [1, 2];
    assert DfsVisit(adj, 2, {1}, [1]) == ({1, 2, 4}, [1, 2, 4]);
    assert DfsScan(adj, [], {1, 2, 4, 3}, [1, 2, 4, 3]) == ({1, 2, 4, 3}, [1, 2, 4, 3]);
    assert {1, 2, 4} + {3} == {1, 2, 4, 3} && [1, 2, 4] + [3] == [1, 2, 4, 3];
    assert DfsVisit(adj, 3, {1, 2, 4}, [1, 2, 4]) == ({1, 2, 4, 3}, [1, 2, 4, 3]);
    assert DfsScan(adj, [Entry(3, 1)], {1, 2, 4}, [1, 2, 4]) == ({1, 2, 4, 3}, [1, 2, 4, 3]);
    assert DfsScan(adj, [Entry(2, 1), Entry(3, 1)], {1}, [1]) == ({1, 2, 4, 3}, [1, 2, 4, 3]);
    assert {} + {1} == {1} && [] + [1] == [1];
  }

  /** Every vertex that dfsLongestCycle is called on may still be visited:
      the vertices of the current path, `current` excluded, are `visited`. */
  function Unvisited(adj: Adj, visited: set<int>): (n: nat)
    requires visited <= adj.Keys
    ensures n == |adj.Keys| - |visited|
  {
    SubsetCard(visited, adj.Keys);
    |adj.Keys| - |visited|
  }

  /** dfsLongestCycle(start, current, visited, distance, dist): the longest
      cycle back to `start` (longer than two edges) found by extending the
      current path of `dist` edges, or 0. */
  function LongestCycle(adj: Adj, start: int, current: int, visited: set<int>, dist: nat): (r: nat)
    requires Closed(adj) && current in adj && visited <= adj.Keys && current !in visited
    requires HasWalk(adj, start, current, dist) && |visited| == dist
    ensures r == 0 || (3 <= r <= |adj.Keys| && HasWalk(adj, start, start, r))
    decreases Unvisited(adj, visited), 0, 0
  {
    SubsetCard(visited + {current}, adj.Keys);
    CycleScan(adj, start, current, visited + {current}, dist, adj[current])
  }

  /** The search getCircumference starts from `v`: dfsLongestCycle(v, v, {}, 0). */
  function CycleFrom(adj: Adj, v: int): (r: nat)
    requires Closed(adj) && v in adj
    ensures r == 0 || (3 <= r <= |adj.Keys| && HasWalk(adj, v, v, r))
  {
    assert HasWalk(adj, v, v, 0);
    LongestCycle(adj, v, v, {}, 0)
  }

  /** The loop of dfsLongestCycle over the entries `es` still to scan of `current`. */
  function CycleScan(adj: Adj, start: int, current: int, visited: set<int>, dist: nat, es: seq<Entry>): (r: nat)
    requires Closed(adj) && current in visited && visited <= adj.Keys
    requires forall e :: e in es ==> e in adj[current]
    requires HasWalk(adj, start, current, dist) && |visited| == dist + 1
    ensures r == 0 || (3 <= r <= |adj.Keys| && HasWalk(adj, start, start, r))
    decreases Unvisited(adj, visited), 1, |es|
  {
    if es == [] then 0
    else
      var w := es[0].dest;
      assert es[0] in adj[current];
      assert w in Succ(adj, current);
      var here :=
        if w == start && dist > 1 then
          WalkStep(adj, start, current, w, dist);
          SubsetCard(visited, adj.Keys);
          dist + 1
        else if w !in visited then
          WalkStep(adj, start, current, w, dist);
          LongestCycle(adj, start, w, visited, dist + 1)
        else 0;
      var rest := CycleScan(adj, start, current, visited, dist, es[1..]);
      if here < rest then rest else here
  }
}

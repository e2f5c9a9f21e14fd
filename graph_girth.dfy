// The breadth-first searches of getGirth (graphs/graphs.hpp), one per start
// vertex, as functions over the search state: the definition the loops of
// Graph.GirthFrom are proved to compute.
module GraphGirth {
  import opened Wrappers
  import opened GraphSpec
  import opened GraphSearch
  import opened GraphMetrics

  /** The state of one search: the distance of every vertex reached, the
      queue of (vertex, parent) pairs still to expand, and the shortest
      round closed so far. */
  datatype Search = Search(distance: map<int, nat>, q: seq<(int, int)>, girth: Option<nat>)

  /** The shorter of two rounds, either of which may be missing. */
  function Shorter(a: Option<nat>, b: Option<nat>): (r: Option<nat>)
    ensures r.None? <==> a.None? && b.None?
    ensures r.Some? ==> (r == a || r == b)
    ensures r.Some? && a.Some? ==> r.value <= a.value
    ensures r.Some? && b.Some? ==> r.value <= b.value
  {
    if a.None? then b else if b.None? then a else if b.value < a.value then b else a
  }

  /** The destinations of a list of entries. */
  function Dests(es: seq<Entry>): set<int>
  {
    set e | e in es :: e.dest
  }

  /** The first loop of a search from `start`: every entry of `start`
      queues its destination, one edge away, with `start` as its parent. */
  function Seed(start: int, es: seq<Entry>, st: Search): (r: Search)
    ensures st.distance.Keys <= r.distance.Keys <= st.distance.Keys + Dests(es)
    ensures Queued(st.q, st.distance) ==> Queued(r.q, r.distance)
    ensures r.girth == st.girth
    decreases |es|
  {
    if es == [] then st
    else
      var w := es[0].dest;
      var r := Seed(start, es[1..], Search(st.distance[w := 1], st.q + [(w, start)], st.girth));
      assert Dests(es) == {w} + Dests(es[1..]);
      r
  }

  /** The inner loop of a search for the entry current -> w: an unreached
      `w` is queued one edge further than `current`; a reached `w` other
      than the parent closes a round of both distances plus one edge. */
  function Visit(current: int, parent: int, w: int, st: Search): (r: Search)
    requires current in st.distance
    ensures r.distance.Keys == st.distance.Keys + {w}
    ensures forall x :: x in st.distance ==> r.distance[x] == st.distance[x]
    ensures |r.q| == |st.q| + |r.distance.Keys| - |st.distance.Keys|
    ensures Queued(st.q, st.distance) ==> Queued(r.q, r.distance)
  {
    if w !in st.distance then
      Search(st.distance[w := st.distance[current] + 1], st.q + [(w, current)], st.girth)
    else if w != parent then
      Search(st.distance, st.q, Shorter(st.girth, Some(st.distance[current] + st.distance[w] + 1)))
    else st
  }

  /** The inner loop over the entries `es` of `current`, in list order. */
  function Expand(current: int, parent: int, es: seq<Entry>, st: Search): (r: Search)
    requires current in st.distance
    ensures st.distance.Keys <= r.distance.Keys <= st.distance.Keys + Dests(es)
    ensures forall x :: x in st.distance ==> r.distance[x] == st.distance[x]
    ensures |r.q| == |st.q| + |r.distance.Keys| - |st.distance.Keys|
    ensures Queued(st.q, st.distance) ==> Queued(r.q, r.distance)
    decreases |es|
  {
    if es == [] then st
    else
      var w := es[0].dest;
      var next := Visit(current, parent, w, st);
      var r := Expand(current, parent, es[1..], next);
      assert Dests(es) == {w} + Dests(es[1..]);
      r
  }

  /** The number of vertices a search has not reached yet. */
  function Unreached(adj: Adj, distance: map<int, nat>): (n: nat)
    requires distance.Keys <= adj.Keys
    ensures n == |adj.Keys| - |distance.Keys|
  {
    SubsetCard(distance.Keys, adj.Keys);
    |adj.Keys| - |distance.Keys|
  }

  /** Every entry of a vertex leads into the graph. */
  lemma DestsIn(adj: Adj, u: int)
    requires Closed(adj) && u in adj
    ensures Dests(adj[u]) <= adj.Keys
  {
  }

  /** The outer loop of a search: expand the queue front until the queue is
      empty; the result is the shortest round found. */
  function Drain(adj: Adj, st: Search): Option<nat>
    requires Closed(adj) && st.distance.Keys <= adj.Keys && Queued(st.q, st.distance)
    decreases Unreached(adj, st.distance), |st.q|
  {
    if st.q == [] then st.girth
    else
      var current, parent := st.q[0].0, st.q[0].1;
      assert st.q[0] in st.q;
      DestsIn(adj, current);
      var next := Expand(current, parent, adj[current], Search(st.distance, st.q[1..], st.girth));
      SubsetCard(st.distance.Keys, next.distance.Keys);
      Drain(adj, next)
  }

  /** The search getGirth starts from `start`, before any other search has
      found a round: the shortest round it closes, if any. */
  function GirthSearch(adj: Adj, start: int): Option<nat>
    requires Closed(adj) && start in adj
  {
    DestsIn(adj, start);
    Drain(adj, Seed(start, adj[start], Search(map[start := 0], [], None)))
  }

  /** A search seeded the same way forgets nothing about the girth. */
  lemma {:induction false} SeedGirth(start: int, es: seq<Entry>, st: Search, g: Option<nat>)
    ensures Seed(start, es, st.(girth := g)) == Seed(start, es, st).(girth := g)
    decreases |es|
  {
    if es != [] {
      var w := es[0].dest;
      SeedGirth(start, es[1..], Search(st.distance[w := 1], st.q + [(w, start)], st.girth), g);
    }
  }

  /** The shorter of three rounds does not depend on the grouping. */
  lemma ShorterAssoc(a: Option<nat>, b: Option<nat>, c: Option<nat>)
    ensures Shorter(Shorter(a, b), c) == Shorter(a, Shorter(b, c))
  {
  }

  /** Expanding a vertex moves the same vertices whatever the girth so far,
      and the girth it leaves is the shorter of that girth and the rounds it
      closes itself. */
  lemma {:induction false} ExpandGirth(current: int, parent: int, es: seq<Entry>, st: Search)
    requires current in st.distance
    ensures Expand(current, parent, es, st).distance == Expand(current, parent, es, st.(girth := None)).distance
    ensures Expand(current, parent, es, st).q == Expand(current, parent, es, st.(girth := None)).q
    ensures Expand(current, parent, es, st).girth == Shorter(st.girth, Expand(current, parent, es, st.(girth := None)).girth)
    decreases |es|
  {
    if es != [] {
      var w := es[0].dest;
      var next := Visit(current, parent, w, st);
      var next0 := Visit(current, parent, w, st.(girth := None));
      assert next0.(girth := None) == next.(girth := None);
      assert next.girth == Shorter(st.girth, next0.girth);
      ExpandGirth(current, parent, es[1..], next);
      ExpandGirth(current, parent, es[1..], next0);
      ShorterAssoc(st.girth, next0.girth, Expand(current, parent, es[1..], next.(girth := None)).girth);
    }
  }

  /** A search started with a round already found ends with the shorter of
      that round and the one it finds on its own. */
  lemma {:induction false} DrainGirth(adj: Adj, st: Search)
    requires Closed(adj) && st.distance.Keys <= adj.Keys && Queued(st.q, st.distance)
    ensures Drain(adj, st) == Shorter(st.girth, Drain(adj, st.(girth := None)))
    decreases Unreached(adj, st.distance), |st.q|
  {
    if st.q != [] {
      var current, parent := st.q[0].0, st.q[0].1;
      assert st.q[0] in st.q;
      DestsIn(adj, current);
      var popped := Search(st.distance, st.q[1..], st.girth);
      var next := Expand(current, parent, adj[current], popped);
      var next0 := Expand(current, parent, adj[current], popped.(girth := None));
      ExpandGirth(current, parent, adj[current], popped);
      SubsetCard(st.distance.Keys, next.distance.Keys);
      DrainGirth(adj, next);
      DrainGirth(adj, next0);
      assert next.(girth := None) == next0.(girth := None);
      ShorterAssoc(st.girth, next0.girth, Drain(adj, next0.(girth := None)));
    }
  }

  /** `g` is the shortest round the searches from the vertices of `starts`
      find, and missing exactly when none of them finds one. */
  ghost predicate Shortest(adj: Adj, starts: set<int>, g: Option<nat>)
    requires Closed(adj) && starts <= adj.Keys
  {
    && (g.None? <==> forall v :: v in starts ==> GirthSearch(adj, v).None?)
    && (g.Some? ==> forall v :: v in starts && GirthSearch(adj, v).Some? ==> g.value <= GirthSearch(adj, v).value)
    && (g.Some? ==> exists v :: v in starts && GirthSearch(adj, v) == g)
  }

  /** One more search keeps the shortest round over the starts searched. */
  lemma ShortestStep(adj: Adj, starts: set<int>, g: Option<nat>, v: int)
    requires Closed(adj) && starts <= adj.Keys && v in adj
    requires Shortest(adj, starts, g)
    ensures Shortest(adj, starts + {v}, Shorter(g, GirthSearch(adj, v)))
  {
    var s, gv := starts + {v}, GirthSearch(adj, v);
    var r := Shorter(g, gv);
    forall u | u in s && GirthSearch(adj, u).Some?
      ensures r.Some? && r.value <= GirthSearch(adj, u).value
    {
      if u != v {
        assert u in starts;
      }
    }
    if r.Some? {
      if r == g {
        var u :| u in starts && GirthSearch(adj, u) == g;
        assert u in s;
      } else {
        assert v in s && gv == r;
      }
    }
  }
}

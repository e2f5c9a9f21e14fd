// Value-level description of the adjacency-list graph of graphs/graphs.hpp:
// the adjacency map, walks and distances over it, and the effect of each
// mutating operation as a function from the old adjacency map to the new one.
module GraphSpec {

  /** One adjacency entry: the neighbour it leads to and the edge weight. */
  datatype Entry = Entry(dest: int, weight: int)

  /** Adjacency lists: each vertex maps to its entries, in insertion order. */
  type Adj = map<int, seq<Entry>>

  /** One entry of one adjacency list, together with the vertex that owns it. */
  datatype Arc = Arc(src: int, dest: int, weight: int)

  // ---------------------------------------------------------------------
  // Ascending iteration over a set of vertices (std::set / std::map order)
  // ---------------------------------------------------------------------

  /** A set without members is the empty set; stated as an implication so
      that a caller holding a non-empty set can pick a member. */
  lemma NoMembers(s: set<int>)
    ensures (forall y :: y !in s) ==> s == {}
  {
    if forall y :: y !in s {
      assert s == {};
    }
  }

  lemma {:induction false} MinExists(s: set<int>)
    requires s != {}
    ensures exists m :: m in s && forall x :: x in s ==> m <= x
    decreases |s|
  {
    NoMembers(s);
    var y :| y in s;
    var s' := s - {y};
    if z :| z in s' {
      MinExists(s');
      var m :| m in s' && forall x :: x in s' ==> m <= x;
      if y < m {
        assert forall x :: x in s ==> y <= x by {
          forall x | x in s ensures y <= x { if x != y { assert x in s'; } }
        }
        assert y in s && forall x :: x in s ==> y <= x;
      } else {
        assert forall x :: x in s ==> m <= x by {
          forall x | x in s ensures m <= x { if x != y { assert x in s'; } }
        }
        assert m in s && forall x :: x in s ==> m <= x;
      }
    } else {
      NoMembers(s');
      assert s == s' + {y};
      assert forall x :: x in s ==> x == y;
      assert y in s && forall x :: x in s ==> y <= x;
    }
  }

  /** The least element of a non-empty set: `*s.begin()`. */
  function SetMin(s: set<int>): (m: int)
    requires s != {}
    ensures m in s && forall x :: x in s ==> m <= x
  {
    MinExists(s);
    var m :| m in s && forall x :: x in s ==> m <= x; m
  }

  /** The least element is the only element below all others. */
  lemma SetMinIs(s: set<int>, m: int)
    requires m in s && forall x :: x in s ==> m <= x
    ensures SetMin(s) == m
  {
    var n := SetMin(s);
    assert n <= m && m <= n;
  }

  /** The elements of `s` in the order a std::set or std::map visits them. */
  function Ascending(s: set<int>): (r: seq<int>)
    ensures |r| == |s|
    ensures forall x :: x in r <==> x in s
    ensures forall i, j :: 0 <= i < j < |r| ==> r[i] < r[j]
    decreases |s|
  {
    if s == {} then []
    else
      var m := SetMin(s);
      [m] + Ascending(s - {m})
  }

  // ---------------------------------------------------------------------
  // Shape of an adjacency map
  // ---------------------------------------------------------------------

  /** Vertices that `u` has an adjacency entry towards. */
  function Succ(adj: Adj, u: int): set<int>
  {
    if u in adj then set e | e in adj[u] :: e.dest else {}
  }

  /** Every entry leads to a vertex of the graph. */
  ghost predicate Closed(adj: Adj)
  {
    forall u, e :: u in adj && e in adj[u] ==> e.dest in adj
  }

  /** The shape an undirected graph keeps: every entry has a reverse entry. */
  ghost predicate Symmetric(adj: Adj)
  {
    forall u, v :: v in Succ(adj, u) ==> u in Succ(adj, v)
  }

  /** Number of entries of `s` leading to `d`. */
  function DestCount(s: seq<Entry>, d: int): (n: nat)
    ensures n <= |s|
    ensures n == 0 <==> forall e :: e in s ==> e.dest != d
  {
    if s == [] then 0
    else (if s[0].dest == d then 1 else 0) + DestCount(s[1..], d)
  }

  /** A list has at least as many entries as distinct neighbours. */
  lemma {:induction false} SuccBound(s: seq<Entry>)
    ensures |set e | e in s :: e.dest| <= |s|
    decreases |s|
  {
    if s != [] {
      SuccBound(s[1..]);
      var rest := set e | e in s[1..] :: e.dest;
      assert (set e | e in s :: e.dest) == rest + {s[0].dest};
    }
  }

  // ---------------------------------------------------------------------
  // Counting entries: getNumEdges, getInDegree
  // ---------------------------------------------------------------------

  /** Total length of the adjacency lists of the vertices in `ks`, taken in ascending order. */
  function CountOver(adj: Adj, ks: set<int>): nat
    requires ks <= adj.Keys
    decreases |ks|
  {
    if ks == {} then 0
    else
      var m := SetMin(ks);
      |adj[m]| + CountOver(adj, ks - {m})
  }

  /** Sum of |adj[k]| over all vertices. */
  function EntryCount(adj: Adj): nat
  {
    CountOver(adj, adj.Keys)
  }

  /** The number of edges getNumEdges reports: every entry, halved when undirected. */
  function NumEdges(adj: Adj, directed: bool): nat
  {
    if directed then EntryCount(adj) else EntryCount(adj) / 2
  }

  /** Any element can be taken out first: the sum does not depend on the order. */
  lemma {:induction false} CountOverPick(adj: Adj, ks: set<int>, k: int)
    requires ks <= adj.Keys && k in ks
    ensures CountOver(adj, ks) == |adj[k]| + CountOver(adj, ks - {k})
    decreases |ks|
  {
    var m := SetMin(ks);
    if k != m {
      CountOverPick(adj, ks - {m}, k);
      assert ks - {m} - {k} == ks - {k} - {m};
      SetMinIs(ks - {k}, m);
    }
  }

  /** Two maps that agree on the lists of `ks` have the same sum over `ks`. */
  lemma {:induction false} CountOverAgree(a: Adj, b: Adj, ks: set<int>)
    requires ks <= a.Keys && ks <= b.Keys
    requires forall k :: k in ks ==> |a[k]| == |b[k]|
    ensures CountOver(a, ks) == CountOver(b, ks)
    decreases |ks|
  {
    if ks != {} {
      CountOverAgree(a, b, ks - {SetMin(ks)});
    }
  }

  /** Replacing one adjacency list changes the total by the difference in length. */
  lemma EntryCountUpdate(adj: Adj, k: int, l: seq<Entry>)
    requires k in adj
    ensures EntryCount(adj[k := l]) + |adj[k]| == EntryCount(adj) + |l|
  {
    var b := adj[k := l];
    assert b.Keys == adj.Keys;
    CountOverPick(adj, adj.Keys, k);
    CountOverPick(b, b.Keys, k);
    CountOverAgree(adj, b, adj.Keys - {k});
  }

  /** A new vertex with an empty list adds no entries. */
  lemma EntryCountNewVertex(adj: Adj, v: int)
    requires v !in adj
    ensures EntryCount(adj[v := []]) == EntryCount(adj)
  {
    var b := adj[v := []];
    CountOverPick(b, b.Keys, v);
    assert b.Keys - {v} == adj.Keys;
    CountOverAgree(adj, b, adj.Keys);
  }

  /** The inner loop of getInDegree: the entries of one list leading to `v`. */
  method CountDest(es: seq<Entry>, v: int) returns (c: nat)
    ensures c == DestCount(es, v)
  {
    c := 0;
    for j := 0 to |es|
      invariant c == DestCount(es[..j], v)
    {
      DestCountAppend(es[..j], es[j], v);
      assert es[..j + 1] == es[..j] + [es[j]];
      if es[j].dest == v {
        c := c + 1;
      }
    }
    assert es[..|es|] == es;
  }

  /** Number of entries, over the lists of `ks`, that lead to `v`. */
  function InCountOver(adj: Adj, v: int, ks: set<int>): nat
    requires ks <= adj.Keys
    decreases |ks|
  {
    if ks == {} then 0
    else
      var m := SetMin(ks);
      DestCount(adj[m], v) + InCountOver(adj, v, ks - {m})
  }

  /** In-degree of `v` in a directed graph: entries leading to `v` over all lists. */
  lemma {:induction false} InCountZero(adj: Adj, v: int, ks: set<int>)
    requires ks <= adj.Keys
    ensures InCountOver(adj, v, ks) == 0 <==> forall u :: u in ks ==> v !in Succ(adj, u)
    decreases |ks|
  {
    if ks != {} {
      var m := SetMin(ks);
      InCountZero(adj, v, ks - {m});
      if DestCount(adj[m], v) != 0 {
        var e :| e in adj[m] && e.dest == v;
        assert v in Succ(adj, m);
      }
    }
  }

  // ---------------------------------------------------------------------
  // Walks and hop distances
  // ---------------------------------------------------------------------

  /** There is a walk of exactly `k` edges from `s` to `t`. */
  ghost predicate HasWalk(adj: Adj, s: int, t: int, k: nat)
    decreases k
  {
    if k == 0 then s == t
    else exists u :: HasWalk(adj, s, u, k - 1) && t in Succ(adj, u)
  }

  ghost predicate Reachable(adj: Adj, s: int, t: int)
  {
    exists k: nat :: HasWalk(adj, s, t, k)
  }

  /** `d` is the least number of edges on a walk from `s` to `t`. */
  ghost predicate IsDist(adj: Adj, s: int, t: int, d: nat)
  {
    HasWalk(adj, s, t, d) && forall k: nat :: k < d ==> !HasWalk(adj, s, t, k)
  }

  lemma DistUnique(adj: Adj, s: int, t: int, d1: nat, d2: nat)
    requires IsDist(adj, s, t, d1) && IsDist(adj, s, t, d2)
    ensures d1 == d2
  {
  }

  /** A walk extended by one entry. */
  lemma WalkStep(adj: Adj, s: int, u: int, v: int, k: nat)
    requires HasWalk(adj, s, u, k) && v in Succ(adj, u)
    ensures HasWalk(adj, s, v, k + 1)
  {
  }

  /** A set that holds `s` and every successor of its members holds every vertex reachable from `s`. */
  lemma {:induction false} ClosedSetHoldsWalks(adj: Adj, vs: set<int>, s: int, t: int, k: nat)
    requires s in vs
    requires forall x :: x in vs ==> Succ(adj, x) <= vs
    requires HasWalk(adj, s, t, k)
    ensures t in vs
    decreases k
  {
    if k > 0 {
      var u :| HasWalk(adj, s, u, k - 1) && t in Succ(adj, u);
      ClosedSetHoldsWalks(adj, vs, s, u, k - 1);
    }
  }

  /** Walks stay inside a closed adjacency map. */
  lemma {:induction false} WalkEndsInGraph(adj: Adj, s: int, t: int, k: nat)
    requires Closed(adj) && s in adj && HasWalk(adj, s, t, k)
    ensures t in adj
    decreases k
  {
    if k > 0 {
      var u :| HasWalk(adj, s, u, k - 1) && t in Succ(adj, u);
      WalkEndsInGraph(adj, s, u, k - 1);
      var e :| e in adj[u] && e.dest == t;
    }
  }

  /** A walk whose first edge is named, so that walks can be reversed and joined. */
  lemma {:induction false} WalkPrepend(adj: Adj, s: int, u: int, t: int, k: nat)
    requires u in Succ(adj, s) && HasWalk(adj, u, t, k)
    ensures HasWalk(adj, s, t, k + 1)
    decreases k
  {
    if k == 0 {
      assert HasWalk(adj, s, s, 0);
    } else {
      var w :| HasWalk(adj, u, w, k - 1) && t in Succ(adj, w);
      WalkPrepend(adj, s, u, w, k - 1);
    }
  }

  /** Two walks joined end to start. */
  lemma {:induction false} WalkConcat(adj: Adj, s: int, u: int, t: int, j: nat, k: nat)
    requires HasWalk(adj, s, u, j) && HasWalk(adj, u, t, k)
    ensures HasWalk(adj, s, t, j + k)
    decreases k
  {
    if k > 0 {
      var w :| HasWalk(adj, u, w, k - 1) && t in Succ(adj, w);
      WalkConcat(adj, s, u, w, j, k - 1);
    }
  }

  /** In a symmetric map every walk can be walked backwards. */
  lemma {:induction false} WalkReverse(adj: Adj, s: int, t: int, k: nat)
    requires Symmetric(adj) && HasWalk(adj, s, t, k)
    ensures HasWalk(adj, t, s, k)
    decreases k
  {
    if k > 0 {
      var u :| HasWalk(adj, s, u, k - 1) && t in Succ(adj, u);
      WalkReverse(adj, s, u, k - 1);
      WalkPrepend(adj, t, u, s, k - 1);
    }
  }

  /** A walk can be shortened to a shortest one. */
  lemma {:induction false} ShortestWalk(adj: Adj, s: int, t: int, k: nat)
    requires HasWalk(adj, s, t, k)
    ensures exists d: nat :: d <= k && IsDist(adj, s, t, d)
    decreases k
  {
    if exists j: nat :: j < k && HasWalk(adj, s, t, j) {
      var j: nat :| j < k && HasWalk(adj, s, t, j);
      ShortestWalk(adj, s, t, j);
    } else {
      assert IsDist(adj, s, t, k);
    }
  }

  /** The hop distance from `s` to `t`, when `t` is reachable. */
  ghost function Dist(adj: Adj, s: int, t: int): (d: nat)
    requires Reachable(adj, s, t)
    ensures IsDist(adj, s, t, d)
  {
    var k: nat :| HasWalk(adj, s, t, k);
    ShortestWalk(adj, s, t, k);
    var d: nat :| IsDist(adj, s, t, d); d
  }

  /** Every vertex reaches every vertex. */
  ghost predicate Connected(adj: Adj)
  {
    forall s, t :: s in adj && t in adj ==> Reachable(adj, s, t)
  }

  /** In a symmetric map, one vertex reaching every vertex is the same as connectivity. */
  lemma ReachAllConnected(adj: Adj, start: int)
    requires Symmetric(adj) && start in adj
    ensures (forall t :: t in adj ==> Reachable(adj, start, t)) <==> Connected(adj)
  {
    if forall t :: t in adj ==> Reachable(adj, start, t) {
      forall s, t | s in adj && t in adj ensures Reachable(adj, s, t) {
        var j: nat :| HasWalk(adj, start, s, j);
        var k: nat :| HasWalk(adj, start, t, k);
        WalkReverse(adj, start, s, j);
        WalkConcat(adj, s, start, t, j, k);
      }
    }
  }

  // ---------------------------------------------------------------------
  // Mutations, as functions of the old adjacency map
  // ---------------------------------------------------------------------

  /** addVertex: a new vertex gets an empty list; an existing one is left alone. */
  function AddVertexAdj(adj: Adj, v: int): (r: Adj)
    ensures r.Keys == adj.Keys + {v}
    ensures forall u :: u in adj ==> r[u] == adj[u]
    ensures v !in adj ==> r[v] == []
  {
    if v in adj then adj else adj[v := []]
  }

  /** addEdge: both endpoints become vertices; `src` gets the entry (dest, w),
      and when undirected `dest` also gets (src, w). */
  function AddEdgeAdj(adj: Adj, directed: bool, src: int, dest: int, w: int): (r: Adj)
    ensures r.Keys == adj.Keys + {src, dest}
  {
    PushEntries(AddVertexAdj(AddVertexAdj(adj, src), dest), directed, src, dest, w)
  }

  /** The push_back calls of addEdge, once both endpoints are vertices. */
  function PushEntries(a: Adj, directed: bool, src: int, dest: int, w: int): (r: Adj)
    requires src in a && dest in a
    ensures r.Keys == a.Keys
  {
    var b := a[src := a[src] + [Entry(dest, w)]];
    if directed then b else b[dest := b[dest] + [Entry(src, w)]]
  }

  /** std::remove_if followed by erase: drops the entries leading to `d`, keeping the order of the rest. */
  function RemoveDest(s: seq<Entry>, d: int): (r: seq<Entry>)
    ensures forall e :: e in r <==> e in s && e.dest != d
    ensures |r| == |s| - DestCount(s, d)
  {
    if s == [] then []
    else (if s[0].dest == d then [] else [s[0]]) + RemoveDest(s[1..], d)
  }

  lemma {:induction false} RemoveDestAbsent(s: seq<Entry>, d: int)
    requires forall e :: e in s ==> e.dest != d
    ensures RemoveDest(s, d) == s
  {
    if s != [] {
      RemoveDestAbsent(s[1..], d);
    }
  }

  lemma {:induction false} RemoveDestAppend(l: seq<Entry>, e: Entry, d: int)
    ensures RemoveDest(l + [e], d) == RemoveDest(l, d) + (if e.dest == d then [] else [e])
    decreases |l|
  {
    if l == [] {
      assert l + [e] == [e] && [e][1..] == [];
      assert RemoveDest([e], d) == (if e.dest == d then [] else [e]) + RemoveDest([], d);
    } else {
      var head := if l[0].dest == d then [] else [l[0]];
      assert (l + [e])[0] == l[0];
      assert (l + [e])[1..] == l[1..] + [e];
      assert RemoveDest(l + [e], d) == head + RemoveDest(l[1..] + [e], d);
      RemoveDestAppend(l[1..], e, d);
      var tail := if e.dest == d then [] else [e];
      assert RemoveDest(l, d) == head + RemoveDest(l[1..], d);
      EntriesAssoc(head, RemoveDest(l[1..], d), tail);
    }
  }

  lemma EntriesAssoc(a: seq<Entry>, b: seq<Entry>, c: seq<Entry>)
    ensures a + (b + c) == (a + b) + c
  {
  }

  /** deleteVertex (vertex present): its list goes, and every entry leading to it goes. */
  function DeleteVertexAdj(adj: Adj, v: int): (r: Adj)
    ensures r.Keys == adj.Keys - {v}
  {
    map u | u in adj && u != v :: RemoveDest(adj[u], v)
  }

  /** deleteEdge (both endpoints present): every src->dest entry goes, and every
      dest->src entry too when the graph is undirected. */
  function DeleteEdgeAdj(adj: Adj, directed: bool, src: int, dest: int): (r: Adj)
    requires src in adj && dest in adj
    ensures r.Keys == adj.Keys
  {
    var a := adj[src := RemoveDest(adj[src], dest)];
    if directed then a else a[dest := RemoveDest(a[dest], src)]
  }

  // ---------------------------------------------------------------------
  // What each mutation does to successors, shape and edge count
  // ---------------------------------------------------------------------

  lemma SuccEmpty(adj: Adj, u: int)
    requires u in adj && adj[u] == []
    ensures Succ(adj, u) == {}
  {
    forall x ensures x !in Succ(adj, u) {
    }
  }

  lemma SuccAppend(adj: Adj, u: int, e: Entry)
    requires u in adj
    ensures Succ(adj[u := adj[u] + [e]], u) == Succ(adj, u) + {e.dest}
  {
    var l := adj[u] + [e];
    forall x ensures x in Succ(adj[u := l], u) <==> x in Succ(adj, u) + {e.dest} {
      if x in Succ(adj, u) {
        var f :| f in adj[u] && f.dest == x;
        assert f in l;
      }
      assert e in l;
    }
  }

  lemma SuccRemove(adj: Adj, u: int, d: int)
    requires u in adj
    ensures Succ(adj[u := RemoveDest(adj[u], d)], u) == Succ(adj, u) - {d}
  {
    var l := RemoveDest(adj[u], d);
    forall x ensures x in Succ(adj[u := l], u) <==> x in Succ(adj, u) - {d} {
      if x in Succ(adj, u) && x != d {
        var f :| f in adj[u] && f.dest == x;
        assert f in l;
      }
    }
  }

  /** Successors of any vertex after addEdge. */
  lemma AddEdgeSucc(adj: Adj, directed: bool, src: int, dest: int, w: int, x: int)
    ensures Succ(AddEdgeAdj(adj, directed, src, dest, w), x)
         == Succ(adj, x) + (if x == src then {dest} else {}) + (if x == dest && !directed then {src} else {})
  {
    var a0 := AddVertexAdj(adj, src);
    var a := AddVertexAdj(a0, dest);
    AddVertexSucc(adj, src, x);
    AddVertexSucc(a0, dest, x);
    var b := a[src := a[src] + [Entry(dest, w)]];
    if x == src {
      SuccAppend(a, src, Entry(dest, w));
    } else {
      SuccOther(a, src, a[src] + [Entry(dest, w)], x);
    }
    if !directed {
      if x == dest {
        SuccAppend(b, dest, Entry(src, w));
      } else {
        SuccOther(b, dest, b[dest] + [Entry(src, w)], x);
      }
    }
  }

  /** Adding a vertex gives it no successor and changes no other successors. */
  lemma AddVertexSucc(adj: Adj, v: int, x: int)
    ensures Succ(AddVertexAdj(adj, v), x) == Succ(adj, x)
  {
    if v !in adj && x == v {
      assert AddVertexAdj(adj, v)[x] == [];
    }
  }

  /** Replacing the list of `u` changes no other vertex's successors. */
  lemma SuccOther(adj: Adj, u: int, l: seq<Entry>, x: int)
    requires x != u
    ensures Succ(adj[u := l], x) == Succ(adj, x)
  {
    if x in adj {
      assert adj[u := l][x] == adj[x];
    }
  }

  /** addEdge adds exactly one edge to the count getNumEdges reports. */
  lemma AddEdgeCount(adj: Adj, directed: bool, src: int, dest: int, w: int)
    ensures NumEdges(AddEdgeAdj(adj, directed, src, dest, w), directed) == NumEdges(adj, directed) + 1
  {
    var a0 := AddVertexAdj(adj, src);
    var a := AddVertexAdj(a0, dest);
    assert EntryCount(a) == EntryCount(adj) by {
      if src !in adj { EntryCountNewVertex(adj, src); }
      if dest !in a0 { EntryCountNewVertex(a0, dest); }
    }
    var b := a[src := a[src] + [Entry(dest, w)]];
    EntryCountUpdate(a, src, a[src] + [Entry(dest, w)]);
    if !directed {
      EntryCountUpdate(b, dest, b[dest] + [Entry(src, w)]);
    }
  }

  /** addEdge makes `dest` a successor of `src` (and the reverse when
      undirected), leaves every other list alone, keeps the shape and adds one edge. */
  lemma AddEdgeFacts(adj: Adj, directed: bool, src: int, dest: int, w: int)
    requires Closed(adj) && (!directed ==> Symmetric(adj))
    ensures var r := AddEdgeAdj(adj, directed, src, dest, w);
      && Closed(r)
      && (!directed ==> Symmetric(r))
      && Succ(r, src) == Succ(adj, src) + {dest}
      && (!directed ==> Succ(r, dest) == Succ(adj, dest) + {src})
      && (forall u :: u in adj && u != src && (directed || u != dest) ==> r[u] == adj[u])
      && NumEdges(r, directed) == NumEdges(adj, directed) + 1
  {
    AddEdgeCount(adj, directed, src, dest, w);
    AddEdgeClosed(adj, directed, src, dest, w);
    if !directed {
      AddEdgeSymmetric(adj, src, dest, w);
    }
    AddEdgeSucc(adj, directed, src, dest, w, src);
    AddEdgeSucc(adj, directed, src, dest, w, dest);
    AddEdgeOthers(adj, directed, src, dest, w);
  }

  lemma AddEdgeClosed(adj: Adj, directed: bool, src: int, dest: int, w: int)
    requires Closed(adj)
    ensures Closed(AddEdgeAdj(adj, directed, src, dest, w))
  {
    var r := AddEdgeAdj(adj, directed, src, dest, w);
    forall u, e: Entry | u in r && e in r[u] ensures e.dest in r {
      AddEdgeSucc(adj, directed, src, dest, w, u);
      assert e.dest in Succ(r, u);
      if e.dest != src && e.dest != dest {
        assert e.dest in Succ(adj, u);
        var f :| f in adj[u] && f.dest == e.dest;
      }
    }
  }

  lemma AddEdgeSymmetric(adj: Adj, src: int, dest: int, w: int)
    requires Symmetric(adj)
    ensures Symmetric(AddEdgeAdj(adj, false, src, dest, w))
  {
    var r := AddEdgeAdj(adj, false, src, dest, w);
    forall u, v | v in Succ(r, u) ensures u in Succ(r, v) {
      AddEdgeSucc(adj, false, src, dest, w, u);
      AddEdgeSucc(adj, false, src, dest, w, v);
    }
  }

  lemma AddEdgeOthers(adj: Adj, directed: bool, src: int, dest: int, w: int)
    ensures forall u :: u in adj && u != src && (directed || u != dest) ==> AddEdgeAdj(adj, directed, src, dest, w)[u] == adj[u]
  {
  }

  /** deleteVertex leaves no entry leading to the deleted vertex and removes nothing else. */
  lemma DeleteVertexFacts(adj: Adj, v: int)
    requires Closed(adj)
    ensures var r := DeleteVertexAdj(adj, v);
      && Closed(r)
      && (Symmetric(adj) ==> Symmetric(r))
      && (forall u :: u in r ==> Succ(r, u) == Succ(adj, u) - {v})
      && (forall u :: u in r ==> v !in Succ(r, u))
  {
    var r := DeleteVertexAdj(adj, v);
    forall u | u in r ensures Succ(r, u) == Succ(adj, u) - {v} {
      assert r == r[u := RemoveDest(adj[u], v)];
      SuccRemove(adj, u, v);
    }
  }

  /** Successors of any vertex after deleteEdge. */
  lemma DeleteEdgeSucc(adj: Adj, directed: bool, src: int, dest: int, x: int)
    requires src in adj && dest in adj
    ensures Succ(DeleteEdgeAdj(adj, directed, src, dest), x)
         == Succ(adj, x) - (if x == src then {dest} else {}) - (if x == dest && !directed then {src} else {})
  {
    var a := adj[src := RemoveDest(adj[src], dest)];
    SuccRemove(adj, src, dest);
    assert forall u :: u != src ==> Succ(a, u) == Succ(adj, u);
    if !directed {
      var r := a[dest := RemoveDest(a[dest], src)];
      SuccRemove(a, dest, src);
      assert forall u :: u != dest ==> Succ(r, u) == Succ(a, u);
    }
  }

  /** deleteEdge removes `dest` from the successors of `src` (and the reverse
      when undirected), leaves every other list alone and keeps the shape. */
  lemma DeleteEdgeFacts(adj: Adj, directed: bool, src: int, dest: int)
    requires src in adj && dest in adj
    requires Closed(adj) && (!directed ==> Symmetric(adj))
    ensures var r := DeleteEdgeAdj(adj, directed, src, dest);
      && Closed(r)
      && (!directed ==> Symmetric(r))
      && Succ(r, src) == Succ(adj, src) - {dest}
      && (!directed ==> Succ(r, dest) == Succ(adj, dest) - {src})
      && (forall u :: u in adj && u != src && (directed || u != dest) ==> r[u] == adj[u])
  {
    var r := DeleteEdgeAdj(adj, directed, src, dest);
    forall x ensures Succ(r, x) == Succ(adj, x) - (if x == src then {dest} else {}) - (if x == dest && !directed then {src} else {}) {
      DeleteEdgeSucc(adj, directed, src, dest, x);
    }
    FewerSuccClosed(adj, r);
  }

  /** A graph on the same vertices whose successors are among the old ones stays closed. */
  lemma FewerSuccClosed(adj: Adj, r: Adj)
    requires Closed(adj) && r.Keys == adj.Keys
    requires forall x :: Succ(r, x) <= Succ(adj, x)
    ensures Closed(r)
  {
    forall u, e: Entry | u in r && e in r[u] ensures e.dest in r {
      assert e.dest in Succ(r, u);
      assert e.dest in Succ(adj, u);
      var f :| f in adj[u] && f.dest == e.dest;
    }
  }

  /** The adjacency lists of `ks`, in order, flattened into arcs. */
  function ArcsOf(src: int, es: seq<Entry>): (r: seq<Arc>)
    ensures |r| == |es|
    ensures forall i :: 0 <= i < |es| ==> r[i] == Arc(src, es[i].dest, es[i].weight)
  {
    if es == [] then [] else [Arc(src, es[0].dest, es[0].weight)] + ArcsOf(src, es[1..])
  }

  function ArcsFrom(adj: Adj, ks: seq<int>): seq<Arc>
    requires forall k :: k in ks ==> k in adj
  {
    if ks == [] then [] else ArcsOf(ks[0], adj[ks[0]]) + ArcsFrom(adj, ks[1..])
  }

  /** Every entry of every list, vertices taken in ascending order. */
  function AllArcs(adj: Adj): seq<Arc>
  {
    ArcsFrom(adj, Ascending(adj.Keys))
  }

  /** Every vertex of `vs` added with addVertex, in any order. */
  function AddVertices(adj: Adj, vs: set<int>): (r: Adj)
    ensures r.Keys == adj.Keys + vs
  {
    map u | u in adj.Keys + vs :: if u in adj then adj[u] else []
  }

  /** A prefix of a sequence grown by one element. */
  lemma PrefixStep(s: seq<int>, j: nat)
    requires j < |s|
    ensures forall t :: t in s[..j + 1] <==> t in s[..j] || t == s[j]
  {
    assert s[..j + 1] == s[..j] + [s[j]];
  }

  lemma PrefixFull(s: seq<int>)
    ensures s[..|s|] == s
  {
  }

  /** A set whose elements all lie in a sequence that `done` covers is covered. */
  lemma PrefixCovers(ks: seq<int>, vs: set<int>, done: set<int>)
    requires forall x :: x in ks[..|ks|] ==> x in done
    requires forall x :: x in ks <==> x in vs
    ensures vs <= done
  {
    assert ks[..|ks|] == ks;
    forall x | x in vs ensures x in done {
      assert x in ks[..|ks|];
    }
  }

  /** Moving one element from the unvisited part of `vs` to the visited one. */
  lemma TakeOne(vs: set<int>, rest: set<int>, x: int)
    requires x in rest && rest <= vs
    ensures rest - {x} <= vs && |rest - {x}| < |rest|
    ensures vs - (rest - {x}) == (vs - rest) + {x}
  {
  }

  lemma AddNoVertices(adj: Adj)
    ensures AddVertices(adj, {}) == adj
  {
  }

  /** One step of join: the arc is added unless `src` already has an entry to
      `dest`, or the graph is undirected and `src` is not below `dest`. */
  function JoinStep(adj: Adj, directed: bool, a: Arc): Adj
  {
    if a.dest in Succ(adj, a.src) || !(directed || a.src < a.dest) then adj
    else AddEdgeAdj(adj, directed, a.src, a.dest, a.weight)
  }

  function JoinArcs(adj: Adj, directed: bool, arcs: seq<Arc>): Adj
    decreases |arcs|
  {
    if arcs == [] then adj else JoinArcs(JoinStep(adj, directed, arcs[0]), directed, arcs[1..])
  }

  /** join: every vertex of `other` is added, then every arc of `other` in order. */
  function JoinAdj(adj: Adj, directed: bool, other: Adj): Adj
  {
    JoinArcs(AddVertices(adj, other.Keys), directed, AllArcs(other))
  }

  // ---------------------------------------------------------------------
  // join
  // ---------------------------------------------------------------------

  lemma AddVerticesStep(adj: Adj, vs: set<int>, x: int)
    ensures AddVertexAdj(AddVertices(adj, vs), x) == AddVertices(adj, vs + {x})
  {
  }

  lemma {:induction false} JoinArcsSnoc(adj: Adj, directed: bool, arcs: seq<Arc>, a: Arc)
    ensures JoinArcs(adj, directed, arcs + [a]) == JoinStep(JoinArcs(adj, directed, arcs), directed, a)
    decreases |arcs|
  {
    if arcs == [] {
      assert [a][1..] == [];
    } else {
      assert (arcs + [a])[1..] == arcs[1..] + [a];
      JoinArcsSnoc(JoinStep(adj, directed, arcs[0]), directed, arcs[1..], a);
    }
  }

  /** The join of one more entry of `src`'s list. */
  lemma JoinArcsEntry(adj: Adj, directed: bool, src: int, es: seq<Entry>, j: nat)
    requires j < |es|
    ensures JoinArcs(adj, directed, ArcsOf(src, es[..j + 1]))
         == JoinStep(JoinArcs(adj, directed, ArcsOf(src, es[..j])), directed, Arc(src, es[j].dest, es[j].weight))
  {
    var a := Arc(src, es[j].dest, es[j].weight);
    JoinArcsSnoc(adj, directed, ArcsOf(src, es[..j]), a);
    assert ArcsOf(src, es[..j]) + [a] == ArcsOf(src, es[..j + 1]);
  }

  lemma {:induction false} JoinArcsAppend(adj: Adj, directed: bool, xs: seq<Arc>, ys: seq<Arc>)
    ensures JoinArcs(adj, directed, xs + ys) == JoinArcs(JoinArcs(adj, directed, xs), directed, ys)
    decreases |xs|
  {
    if xs == [] {
      assert xs + ys == ys;
    } else {
      assert (xs + ys)[1..] == xs[1..] + ys;
      JoinArcsAppend(JoinStep(adj, directed, xs[0]), directed, xs[1..], ys);
    }
  }

  lemma {:induction false} ArcsFromSnoc(adj: Adj, ks: seq<int>, i: nat)
    requires i < |ks| && forall k :: k in ks ==> k in adj
    ensures ArcsFrom(adj, ks[..i + 1]) == ArcsFrom(adj, ks[..i]) + ArcsOf(ks[i], adj[ks[i]])
    decreases i
  {
    if i > 0 {
      ArcsFromSnoc(adj, ks[1..], i - 1);
      assert ks[1..][..i] == ks[..i + 1][1..];
      assert ks[1..][..i - 1] == ks[..i][1..];
    }
  }

  /** The join of the lists of one more vertex of `ks`. */
  lemma JoinArcsFromStep(base: Adj, directed: bool, adj: Adj, ks: seq<int>, i: nat)
    requires i < |ks| && forall k :: k in ks ==> k in adj
    ensures JoinArcs(base, directed, ArcsFrom(adj, ks[..i + 1]))
         == JoinArcs(JoinArcs(base, directed, ArcsFrom(adj, ks[..i])), directed, ArcsOf(ks[i], adj[ks[i]]))
  {
    ArcsFromSnoc(adj, ks, i);
    JoinArcsAppend(base, directed, ArcsFrom(adj, ks[..i]), ArcsOf(ks[i], adj[ks[i]]));
  }

  /** Every entry of a list of a closed graph leads to a vertex. */
  lemma ListClosed(adj: Adj, u: int)
    requires Closed(adj) && u in adj
    ensures forall e :: e in adj[u] ==> e.dest in adj
  {
  }

  lemma {:induction false} ArcsFromHas(adj: Adj, ks: seq<int>, u: int, e: Entry)
    requires forall k :: k in ks ==> k in adj
    requires u in ks && e in adj[u]
    ensures Arc(u, e.dest, e.weight) in ArcsFrom(adj, ks)
    decreases |ks|
  {
    if ks[0] == u {
      var j :| 0 <= j < |adj[u]| && adj[u][j] == e;
      assert ArcsOf(u, adj[u])[j] == Arc(u, e.dest, e.weight);
    } else {
      ArcsFromHas(adj, ks[1..], u, e);
    }
  }

  lemma {:induction false} ArcsFromFrom(adj: Adj, ks: seq<int>, a: Arc)
    requires forall k :: k in ks ==> k in adj
    requires a in ArcsFrom(adj, ks)
    ensures a.src in ks && a.dest in Succ(adj, a.src)
    decreases |ks|
  {
    var h := ArcsOf(ks[0], adj[ks[0]]);
    if a in h {
      var j :| 0 <= j < |h| && h[j] == a;
      assert adj[ks[0]][j] in adj[ks[0]];
    } else {
      ArcsFromFrom(adj, ks[1..], a);
    }
  }

  lemma {:induction false} DestCountAppend(l: seq<Entry>, e: Entry, v: int)
    ensures DestCount(l + [e], v) == DestCount(l, v) + (if e.dest == v then 1 else 0)
    decreases |l|
  {
    if l == [] {
      assert [e][1..] == [];
    } else {
      assert (l + [e])[1..] == l[1..] + [e];
      DestCountAppend(l[1..], e, v);
    }
  }

  /** What a join run keeps: the shape, the old lists as prefixes, and the
      number of entries between any two vertices already linked. */
  ghost predicate JoinKeeps(adj: Adj, directed: bool, r: Adj)
  {
    && r.Keys == adj.Keys
    && Closed(r)
    && (!directed ==> Symmetric(r))
    && (forall u :: u in adj ==> adj[u] <= r[u])
    && (forall u, v :: v in Succ(adj, u) ==> DestCount(r[u], v) == DestCount(adj[u], v))
  }

  lemma JoinStepKeeps(adj: Adj, directed: bool, a: Arc)
    requires Closed(adj) && (!directed ==> Symmetric(adj))
    requires a.src in adj && a.dest in adj
    ensures JoinKeeps(adj, directed, JoinStep(adj, directed, a))
    ensures a.dest in Succ(JoinStep(adj, directed, a), a.src) || !(directed || a.src < a.dest)
  {
    var r := JoinStep(adj, directed, a);
    if r != adj {
      AddEdgeFacts(adj, directed, a.src, a.dest, a.weight);
      forall u, v | v in Succ(adj, u) ensures DestCount(r[u], v) == DestCount(adj[u], v) {
        if u == a.src {
          DestCountAppend(adj[u], Entry(a.dest, a.weight), v);
        }
        if u == a.dest && !directed {
          assert a.src !in Succ(adj, a.dest);
          DestCountAppend(adj[u], Entry(a.src, a.weight), v);
        }
      }
    }
  }

  lemma {:induction false} JoinArcsKeeps(adj: Adj, directed: bool, arcs: seq<Arc>)
    requires Closed(adj) && (!directed ==> Symmetric(adj))
    requires forall a :: a in arcs ==> a.src in adj && a.dest in adj
    ensures JoinKeeps(adj, directed, JoinArcs(adj, directed, arcs))
    ensures forall a :: a in arcs && (directed || a.src < a.dest) ==> a.dest in Succ(JoinArcs(adj, directed, arcs), a.src)
    decreases |arcs|
  {
    if arcs != [] {
      var b := JoinStep(adj, directed, arcs[0]);
      JoinStepKeeps(adj, directed, arcs[0]);
      JoinArcsKeeps(b, directed, arcs[1..]);
      var r := JoinArcs(b, directed, arcs[1..]);
      forall u, v | v in Succ(adj, u) ensures DestCount(r[u], v) == DestCount(adj[u], v) {
        assert b[u] <= r[u];
        var e :| e in adj[u] && e.dest == v;
        assert e in b[u];
      }
      forall a | a in arcs && (directed || a.src < a.dest) ensures a.dest in Succ(r, a.src) {
        if a == arcs[0] {
          var e: Entry :| e in b[a.src] && e.dest == a.dest;
          assert e in r[a.src];
        } else {
          assert a in arcs[1..];
        }
      }
    }
  }

  lemma JoinBase(adj: Adj, directed: bool, other: Adj)
    requires Closed(adj) && (!directed ==> Symmetric(adj))
    ensures var base := AddVertices(adj, other.Keys);
      && Closed(base) && (!directed ==> Symmetric(base))
      && (forall u :: u in adj ==> base[u] == adj[u])
      && (forall u :: Succ(base, u) == Succ(adj, u))
  {
    var base := AddVertices(adj, other.Keys);
    forall u ensures Succ(base, u) == Succ(adj, u) {
      if u in base && u !in adj {
        SuccEmpty(base, u);
      }
    }
    forall u, e: Entry | u in base && e in base[u] ensures e.dest in base {
      assert u in adj;
    }
  }

  lemma JoinArcsInBase(adj: Adj, other: Adj)
    requires Closed(other)
    ensures forall a :: a in AllArcs(other) ==> a.src in other && a.dest in other
  {
    forall a | a in AllArcs(other) ensures a.src in other && a.dest in other {
      ArcsFromFrom(other, Ascending(other.Keys), a);
      var e: Entry :| e in other[a.src] && e.dest == a.dest;
    }
  }

  /** join: the vertex set becomes the union; every old list survives as a
      prefix of the new one; an entry already present is never duplicated;
      every arc of `other` that the source copies is present afterwards; the
      shape is kept. */
  lemma JoinFacts(adj: Adj, directed: bool, other: Adj)
    requires Closed(adj) && (!directed ==> Symmetric(adj))
    requires Closed(other)
    ensures var r := JoinAdj(adj, directed, other);
      && r.Keys == adj.Keys + other.Keys
      && Closed(r)
      && (!directed ==> Symmetric(r))
      && (forall u :: u in adj ==> adj[u] <= r[u])
      && (forall u, v :: v in Succ(adj, u) ==> DestCount(r[u], v) == DestCount(adj[u], v))
      && (forall u, v :: v in Succ(other, u) && (directed || u < v) ==> v in Succ(r, u))
  {
    var base := AddVertices(adj, other.Keys);
    var r := JoinAdj(adj, directed, other);
    JoinBase(adj, directed, other);
    JoinArcsInBase(adj, other);
    JoinArcsKeeps(base, directed, AllArcs(other));
    assert JoinKeeps(base, directed, r);
    KeepsFromBase(adj, base, directed, r);
    JoinCovers(adj, directed, other);
  }

  /** What a join keeps of the vertex-extended graph it keeps of the original. */
  lemma KeepsFromBase(adj: Adj, base: Adj, directed: bool, r: Adj)
    requires JoinKeeps(base, directed, r)
    requires forall u :: u in adj ==> u in base && base[u] == adj[u]
    ensures forall u :: u in adj ==> adj[u] <= r[u]
    ensures forall u, v :: v in Succ(adj, u) ==> DestCount(r[u], v) == DestCount(adj[u], v)
  {
    forall u, v | v in Succ(adj, u) ensures DestCount(r[u], v) == DestCount(adj[u], v) {
      assert u in adj && Succ(base, u) == Succ(adj, u);
    }
  }

  lemma JoinCovers(adj: Adj, directed: bool, other: Adj)
    requires Closed(adj) && (!directed ==> Symmetric(adj))
    requires Closed(other)
    ensures forall u, v :: v in Succ(other, u) && (directed || u < v) ==> v in Succ(JoinAdj(adj, directed, other), u)
  {
    var ks := Ascending(other.Keys);
    var base := AddVertices(adj, other.Keys);
    var r := JoinAdj(adj, directed, other);
    JoinBase(adj, directed, other);
    JoinArcsInBase(adj, other);
    JoinArcsKeeps(base, directed, AllArcs(other));
    forall u, v | v in Succ(other, u) && (directed || u < v) ensures v in Succ(r, u) {
      var e: Entry :| e in other[u] && e.dest == v;
      ArcsFromHas(other, ks, u, e);
    }
  }

  /** Undirected join with a symmetric graph: every edge of `other` between two
      distinct vertices is present afterwards. */
  lemma JoinCoversUndirected(adj: Adj, other: Adj)
    requires Closed(adj) && Symmetric(adj)
    requires Closed(other) && Symmetric(other)
    ensures forall u, v :: v in Succ(other, u) && u != v ==> v in Succ(JoinAdj(adj, false, other), u)
  {
    var r := JoinAdj(adj, false, other);
    JoinFacts(adj, false, other);
    forall u, v | v in Succ(other, u) && u != v ensures v in Succ(r, u) {
      if v < u {
        assert u in Succ(other, v);
        assert u in Succ(r, v);
      }
    }
  }

  /** A graph joined with itself is unchanged. */
  lemma JoinSelf(adj: Adj, directed: bool)
    requires Closed(adj) && (!directed ==> Symmetric(adj))
    ensures JoinAdj(adj, directed, adj) == adj
  {
    var ks := Ascending(adj.Keys);
    assert AddVertices(adj, adj.Keys) == adj;
    forall a | a in AllArcs(adj) ensures a.dest in Succ(adj, a.src) {
      ArcsFromFrom(adj, ks, a);
    }
    JoinArcsPresent(adj, directed, AllArcs(adj));
  }

  lemma {:induction false} JoinArcsPresent(adj: Adj, directed: bool, arcs: seq<Arc>)
    requires forall a :: a in arcs ==> a.dest in Succ(adj, a.src)
    ensures JoinArcs(adj, directed, arcs) == adj
    decreases |arcs|
  {
    if arcs != [] {
      JoinArcsPresent(adj, directed, arcs[1..]);
    }
  }
}

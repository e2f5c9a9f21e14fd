// The state of the breadth-first searches of graphs/graphs.hpp (BFS,
// isConnected, getDistance) and the facts each loop step keeps: every
// vertex in the queue or already dequeued is at its true hop distance, the
// distances never decrease along the visiting order, and a dequeued vertex
// has all its neighbours discovered.
module GraphSearch {
  import opened GraphSpec

  ghost predicate Distinct(s: seq<int>)
  {
    forall i, j :: 0 <= i < j < |s| ==> s[i] != s[j]
  }

  /** Every vertex in `seen` has its hop distance from `start` in `lvl`. */
  ghost predicate Dists(adj: Adj, start: int, seen: set<int>, lvl: map<int, nat>)
  {
    lvl.Keys == seen && forall v :: v in seen ==> IsDist(adj, start, v, lvl[v])
  }

  /** The levels never decrease along `order`. */
  ghost predicate Levels(order: seq<int>, lvl: map<int, nat>)
  {
    && (forall i :: 0 <= i < |order| ==> order[i] in lvl)
    && (forall i, j :: 0 <= i < j < |order| ==> lvl[order[i]] <= lvl[order[j]])
  }

  /** The first `done` vertices of `order` have all their successors in `seen`. */
  ghost predicate Expanded(adj: Adj, order: seq<int>, done: nat, seen: set<int>)
  {
    done <= |order| && forall j :: 0 <= j < done ==> Succ(adj, order[j]) <= seen
  }

  /** Every vertex with a walk from `start` shorter than `d` is in `prefix`. */
  ghost predicate Nearer(adj: Adj, start: int, prefix: seq<int>, d: nat)
  {
    forall w, k: nat :: HasWalk(adj, start, w, k) && k < d ==> w in prefix
  }

  /** The first `i` entries of `u`'s list lead into `seen`. */
  ghost predicate Scanned(adj: Adj, u: int, i: nat, seen: set<int>)
  {
    u in adj && i <= |adj[u]| && forall j :: 0 <= j < i ==> adj[u][j].dest in seen
  }

  /** The search so far: `order` lists every discovered vertex in discovery
      order, its first `done` entries have been dequeued and the rest form
      the queue; `seen` is the visited set and `lvl` the level of each. */
  ghost predicate Frontier(adj: Adj, start: int, order: seq<int>, done: nat,
                           seen: set<int>, lvl: map<int, nat>)
  {
    && |order| > 0 && order[0] == start
    && Distinct(order)
    && seen == (set x | x in order)
    && seen <= adj.Keys
    && Dists(adj, start, seen, lvl)
    && Levels(order, lvl)
    && Expanded(adj, order, done, seen)
    && (done < |order| ==> lvl[order[|order| - 1]] <= lvl[order[done]] + 1)
    && (done < |order| ==> Nearer(adj, start, order[..done], lvl[order[done]]))
  }

  /** The middle of a dequeue: `order[done]` is being expanded and its first
      `i` entries have been looked at. */
  ghost predicate Scanning(adj: Adj, start: int, order: seq<int>, done: nat,
                           seen: set<int>, lvl: map<int, nat>, i: nat)
  {
    && done < |order|
    && order[0] == start
    && Distinct(order)
    && seen == (set x | x in order)
    && seen <= adj.Keys
    && Dists(adj, start, seen, lvl)
    && Levels(order, lvl)
    && Expanded(adj, order, done, seen)
    && lvl[order[|order| - 1]] <= lvl[order[done]] + 1
    && Scanned(adj, order[done], i, seen)
    && Nearer(adj, start, order[..done], lvl[order[done]])
  }

  lemma ScanningIntro(adj: Adj, start: int, order: seq<int>, done: nat,
                      seen: set<int>, lvl: map<int, nat>, i: nat)
    requires done < |order|
    requires order[0] == start
    requires Distinct(order)
    requires seen == (set x | x in order)
    requires seen <= adj.Keys
    requires Dists(adj, start, seen, lvl)
    requires Levels(order, lvl)
    requires Expanded(adj, order, done, seen)
    requires lvl[order[|order| - 1]] <= lvl[order[done]] + 1
    requires Scanned(adj, order[done], i, seen)
    requires Nearer(adj, start, order[..done], lvl[order[done]])
    ensures Scanning(adj, start, order, done, seen, lvl, i)
  {
  }

  lemma FrontierInit(adj: Adj, start: int)
    requires start in adj
    ensures Frontier(adj, start, [start], 0, {start}, map[start := 0])
  {
    assert IsDist(adj, start, start, 0);
    assert (set x | x in [start]) == {start};
  }

  lemma ScanBegin(adj: Adj, start: int, order: seq<int>, done: nat, seen: set<int>, lvl: map<int, nat>)
    requires Frontier(adj, start, order, done, seen, lvl) && done < |order|
    ensures Scanning(adj, start, order, done, seen, lvl, 0)
  {
    assert order[done] in seen;
  }

  /** An entry leading to a vertex already seen changes nothing. */
  lemma ScanSeen(adj: Adj, start: int, order: seq<int>, done: nat, seen: set<int>, lvl: map<int, nat>, i: nat)
    requires Scanning(adj, start, order, done, seen, lvl, i)
    requires i < |adj[order[done]]| && adj[order[done]][i].dest in seen
    ensures Scanning(adj, start, order, done, seen, lvl, i + 1)
  {
  }

  /** A vertex first met as a neighbour of the vertex being expanded lies one
      hop further than it, and no shorter walk reaches it. */
  lemma {:induction false} NewVertexDist(adj: Adj, start: int, order: seq<int>, done: nat,
                                         seen: set<int>, lvl: map<int, nat>, i: nat)
    requires Scanning(adj, start, order, done, seen, lvl, i)
    requires i < |adj[order[done]]| && adj[order[done]][i].dest !in seen
    ensures IsDist(adj, start, adj[order[done]][i].dest, lvl[order[done]] + 1)
  {
    var u := order[done];
    var v := adj[u][i].dest;
    var d := lvl[u];
    assert v in Succ(adj, u);
    assert u in seen;
    WalkStep(adj, start, u, v, d);
    assert v != start by { assert start in seen; }
    forall k: nat | k < d + 1 ensures !HasWalk(adj, start, v, k) {
      if k > 0 {
        forall w | HasWalk(adj, start, w, k - 1) ensures v !in Succ(adj, w) {
          assert w in order[..done];
          var p :| 0 <= p < done && order[p] == w;
          assert Succ(adj, order[p]) <= seen;
        }
      }
    }
  }

  /** An entry leading to an unseen vertex appends it to the queue one level deeper. */
  lemma AppendSet(order: seq<int>, v: int)
    ensures (set x | x in order + [v]) == (set x | x in order) + {v}
  {
    forall x ensures x in order + [v] <==> x in order || x == v {
    }
  }

  /** Appending a vertex one level below the last keeps the levels non-decreasing. */
  lemma AppendMonotone(order: seq<int>, lvl: map<int, nat>, v: int, n: nat)
    requires |order| > 0 && v !in order
    requires Levels(order, lvl)
    requires lvl[order[|order| - 1]] <= n
    ensures Levels(order + [v], lvl[v := n])
  {
    var order', lvl' := order + [v], lvl[v := n];
    forall p | 0 <= p < |order'| ensures order'[p] in lvl' {
      if p < |order| {
        assert order'[p] == order[p];
      }
    }
    forall p, q | 0 <= p < q < |order'| ensures lvl'[order'[p]] <= lvl'[order'[q]] {
      assert order'[p] == order[p] && order[p] in order;
      if q == |order| {
        assert lvl[order[p]] <= lvl[order[|order| - 1]];
      } else {
        assert order'[q] == order[q] && order[q] in order;
      }
    }
  }

  /** An entry leading to an unseen vertex appends it to the queue one level deeper. */
  lemma ScanNew(adj: Adj, start: int, order: seq<int>, done: nat, seen: set<int>, lvl: map<int, nat>, i: nat, v: int)
    requires Scanning(adj, start, order, done, seen, lvl, i)
    requires i < |adj[order[done]]| && v == adj[order[done]][i].dest && v !in seen
    requires Closed(adj)
    ensures Scanning(adj, start, order + [v], done, seen + {v}, lvl[v := lvl[order[done]] + 1], i + 1)
  {
    NewVertexDist(adj, start, order, done, seen, lvl, i);
    assert v in adj by { assert adj[order[done]][i] in adj[order[done]]; }
    AppendSet(order, v);
    assert order[done] in seen && order[done] != v;
    assert (order + [v])[done] == order[done] && (order + [v])[|order|] == v;
    assert lvl[v := lvl[order[done]] + 1][order[done]] == lvl[order[done]];
    AppendMonotone(order, lvl, v, lvl[order[done]] + 1);
    AppendDistinct(order, v);
    ExtendDists(adj, start, seen, lvl, v, lvl[order[done]] + 1);
    ExtendDone(adj, order, done, seen, v);
    ExtendWalks(adj, start, order, done, lvl[order[done]], v);
    ExtendScanned(adj, order, done, seen, i, v);
    ScanningIntro(adj, start, order + [v], done, seen + {v}, lvl[v := lvl[order[done]] + 1], i + 1);
  }

  /** A vertex found at its distance joins the vertices known at theirs. */
  lemma ExtendDists(adj: Adj, start: int, seen: set<int>, lvl: map<int, nat>, v: int, n: nat)
    requires Dists(adj, start, seen, lvl)
    requires IsDist(adj, start, v, n)
    ensures Dists(adj, start, seen + {v}, lvl[v := n])
  {
  }

  /** The entry just looked at leads to a vertex now seen. */
  lemma ExtendScanned(adj: Adj, order: seq<int>, done: nat, seen: set<int>, i: nat, v: int)
    requires done < |order| && Scanned(adj, order[done], i, seen) && i < |adj[order[done]]|
    requires v == adj[order[done]][i].dest
    ensures Scanned(adj, (order + [v])[done], i + 1, seen + {v})
  {
    assert (order + [v])[done] == order[done];
  }

  /** Appending to the queue leaves the dequeued part and its successors alone. */
  lemma ExtendDone(adj: Adj, order: seq<int>, done: nat, seen: set<int>, v: int)
    requires Expanded(adj, order, done, seen)
    ensures Expanded(adj, order + [v], done, seen + {v})
  {
    forall j | 0 <= j < done ensures Succ(adj, (order + [v])[j]) <= seen + {v} {
      assert (order + [v])[j] == order[j];
    }
  }

  /** Appending to the queue leaves the dequeued part as it is. */
  lemma ExtendWalks(adj: Adj, start: int, order: seq<int>, done: nat, d: nat, v: int)
    requires done <= |order|
    requires Nearer(adj, start, order[..done], d)
    ensures Nearer(adj, start, (order + [v])[..done], d)
  {
    assert (order + [v])[..done] == order[..done];
  }

  lemma AppendDistinct(order: seq<int>, v: int)
    requires Distinct(order) && v !in order
    ensures Distinct(order + [v])
  {
    var o := order + [v];
    forall p, q | 0 <= p < q < |o| ensures o[p] != o[q] {
      assert o[p] == order[p] && order[p] in order;
    }
  }

  /** ScanNew, with the dequeued vertex `u` named by the caller. */
  lemma ScanNewAt(adj: Adj, start: int, order: seq<int>, done: nat, seen: set<int>, lvl: map<int, nat>, i: nat, u: int, v: int)
    requires Scanning(adj, start, order, done, seen, lvl, i) && u == order[done]
    requires i < |adj[u]| && v == adj[u][i].dest && v !in seen
    requires Closed(adj)
    ensures Scanning(adj, start, order + [v], done, seen + {v}, lvl[v := lvl[u] + 1], i + 1)
  {
    ScanNew(adj, start, order, done, seen, lvl, i, v);
  }

  /** Once every entry of the vertex being expanded has been looked at, it counts as dequeued. */
  lemma {:induction false} ScanEnd(adj: Adj, start: int, order: seq<int>, done: nat, seen: set<int>, lvl: map<int, nat>)
    requires done < |order| && order[done] in adj
    requires Scanning(adj, start, order, done, seen, lvl, |adj[order[done]]|)
    ensures Frontier(adj, start, order, done + 1, seen, lvl)
  {
    var u := order[done];
    var d := lvl[u];
    assert Succ(adj, u) <= seen by {
      forall v | v in Succ(adj, u) ensures v in seen {
        var e :| e in adj[u] && e.dest == v;
        var j :| 0 <= j < |adj[u]| && adj[u][j] == e;
      }
    }
    if done + 1 < |order| {
      var f := lvl[order[done + 1]];
      forall w, k: nat | HasWalk(adj, start, w, k) && k < f ensures w in order[..done + 1] {
        if k < d {
          assert w in order[..done];
        } else {
          assert k == d;
          assert w in seen by {
            if k == 0 {
              assert w == start;
            } else {
              var x :| HasWalk(adj, start, x, k - 1) && w in Succ(adj, x);
              assert x in order[..done];
              var p :| 0 <= p < done && order[p] == x;
              assert Succ(adj, order[p]) <= seen;
            }
          }
          assert lvl[w] <= k;
          var p :| 0 <= p < |order| && order[p] == w;
          assert forall q :: done + 1 <= q < |order| ==> f <= lvl[order[q]];
          assert p <= done;
          assert order[..done + 1][p] == w;
        }
      }
    }
  }

  /** When the queue is empty the visited set is exactly what `start` reaches. */
  lemma FrontierDone(adj: Adj, start: int, order: seq<int>, seen: set<int>, lvl: map<int, nat>)
    requires Frontier(adj, start, order, |order|, seen, lvl)
    ensures forall t :: t in seen <==> Reachable(adj, start, t)
  {
    assert start in seen;
    forall x | x in seen ensures Succ(adj, x) <= seen {
      var p :| 0 <= p < |order| && order[p] == x;
    }
    forall t | Reachable(adj, start, t) ensures t in seen {
      var k: nat :| HasWalk(adj, start, t, k);
      ClosedSetHoldsWalks(adj, seen, start, t, k);
    }
  }

  /** What BFS returns: `start` first, then every vertex reachable from
      `start` exactly once, in non-decreasing hop distance from `start`. */
  ghost predicate BfsOrder(adj: Adj, start: int, r: seq<int>)
  {
    && |r| > 0 && r[0] == start
    && Distinct(r)
    && (forall t :: t in r <==> Reachable(adj, start, t))
    && (forall i, j, di: nat, dj: nat :: 0 <= i < j < |r| && IsDist(adj, start, r[i], di) && IsDist(adj, start, r[j], dj) ==> di <= dj)
  }

  lemma FrontierOrder(adj: Adj, start: int, order: seq<int>, seen: set<int>, lvl: map<int, nat>)
    requires Frontier(adj, start, order, |order|, seen, lvl)
    ensures BfsOrder(adj, start, order)
  {
    FrontierDone(adj, start, order, seen, lvl);
    forall i, j, di: nat, dj: nat | 0 <= i < j < |order| && IsDist(adj, start, order[i], di) && IsDist(adj, start, order[j], dj)
      ensures di <= dj
    {
      assert order[i] in seen && order[j] in seen;
      DistUnique(adj, start, order[i], di, lvl[order[i]]);
      DistUnique(adj, start, order[j], dj, lvl[order[j]]);
    }
  }

  lemma {:induction false} DistinctCard(s: seq<int>)
    requires Distinct(s)
    ensures |set x | x in s| == |s|
  {
    if s != [] {
      var t := s[..|s| - 1];
      assert Distinct(t);
      DistinctCard(t);
      assert s == t + [s[|s| - 1]];
      AppendSet(t, s[|s| - 1]);
    }
  }

  /** The search never holds more vertices than the graph. */
  lemma FrontierSize(adj: Adj, start: int, order: seq<int>, done: nat, seen: set<int>, lvl: map<int, nat>)
    requires Frontier(adj, start, order, done, seen, lvl)
    ensures |order| <= |adj.Keys|
  {
    DistinctCard(order);
    SubsetCard(seen, adj.Keys);
  }

  lemma {:induction false} SubsetCard(a: set<int>, b: set<int>)
    requires a <= b
    ensures |a| <= |b|
    decreases |a|
  {
    if a != {} {
      var x := SetMin(a);
      SubsetCard(a - {x}, b - {x});
    }
  }

  /** Popping the front of the queue moves it to the end of the visited prefix. */
  lemma PopFront(t: seq<int>, q: seq<int>)
    requires q != []
    ensures t + q == t + [q[0]] + q[1..]
  {
    assert q == [q[0]] + q[1..];
  }

  /** Pushing onto the back of the queue appends to the whole order. */
  lemma PushBack(t: seq<int>, q: seq<int>, w: int)
    ensures t + q + [w] == t + (q + [w])
  {
  }
}

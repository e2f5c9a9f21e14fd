// Distance-based measures of a graph (getDiameter, getRadius of
// graphs/graphs.hpp), stated relationally over hop distances.
module GraphMetrics {
  import opened GraphSpec

  /** Every vertex is reachable from `s` within `e` edges. */
  ghost predicate Bounded(adj: Adj, s: int, e: nat)
  {
    forall t {:trigger Reachable(adj, s, t)} :: t in adj ==> Reachable(adj, s, t) && Dist(adj, s, t) <= e
  }

  /** Some vertex is exactly `e` edges away from `s`. */
  ghost predicate Attains(adj: Adj, s: int, e: nat)
  {
    exists t :: t in adj && Reachable(adj, s, t) && Dist(adj, s, t) == e
  }

  /** `e` is the eccentricity of `s`: the largest hop distance from `s` to a vertex. */
  ghost predicate IsEcc(adj: Adj, s: int, e: nat)
  {
    s in adj && Bounded(adj, s, e) && Attains(adj, s, e)
  }

  /** `d` is the largest hop distance between two vertices, all pairs being reachable. */
  ghost predicate IsDiameter(adj: Adj, d: nat)
  {
    && (forall s :: s in adj ==> Bounded(adj, s, d))
    && (exists s :: s in adj && Attains(adj, s, d))
  }

  /** `r` is the least eccentricity of a vertex. */
  ghost predicate IsRadius(adj: Adj, r: nat)
  {
    && (exists s :: IsEcc(adj, s, r))
    && (forall s, e: nat :: IsEcc(adj, s, e) ==> r <= e)
  }

  lemma BoundedMono(adj: Adj, s: int, e: nat, e': nat)
    requires Bounded(adj, s, e) && e <= e'
    ensures Bounded(adj, s, e')
  {
    forall t | t in adj ensures Reachable(adj, s, t) && Dist(adj, s, t) <= e' {
      assert Reachable(adj, s, t);
    }
  }

  /** Vertices that each reach every vertex make a connected graph. */
  lemma BoundedConnected(adj: Adj, e: nat)
    requires forall s :: s in adj ==> Bounded(adj, s, e)
    ensures Connected(adj)
  {
    forall s, t | s in adj && t in adj ensures Reachable(adj, s, t) {
      assert Bounded(adj, s, e);
    }
  }

  /** Every vertex is reachable from `s`. */
  ghost predicate Reaches(adj: Adj, s: int)
  {
    forall t {:trigger Reachable(adj, s, t)} :: t in adj ==> Reachable(adj, s, t)
  }

  /** The eccentricity of `s`, if it has one, is at least `r`: some vertex is
      not within `r - 1` edges of `s`. */
  ghost predicate AtLeast(adj: Adj, s: int, r: nat)
  {
    r == 0 || !Bounded(adj, s, r - 1)
  }

  lemma AtLeastMono(adj: Adj, s: int, r: nat, r': nat)
    requires AtLeast(adj, s, r) && r' <= r
    ensures AtLeast(adj, s, r')
  {
    if r' > 0 {
      var t :| t in adj && !(Reachable(adj, s, t) && Dist(adj, s, t) <= r - 1);
      assert !(Reachable(adj, s, t) && Dist(adj, s, t) <= r' - 1);
    }
  }

  lemma EccAtLeast(adj: Adj, s: int, e: nat)
    requires IsEcc(adj, s, e)
    ensures AtLeast(adj, s, e) && Reaches(adj, s)
  {
    if e > 0 {
      var t :| t in adj && Reachable(adj, s, t) && Dist(adj, s, t) == e;
      assert !(Reachable(adj, s, t) && Dist(adj, s, t) <= e - 1);
    }
    forall t | t in adj ensures Reachable(adj, s, t) {
      assert Bounded(adj, s, e);
    }
  }

  /** An eccentricity that no vertex's eccentricity is below is the radius. */
  lemma LeastEcc(adj: Adj, c: int, r: nat)
    requires IsEcc(adj, c, r) && forall s :: s in adj ==> AtLeast(adj, s, r)
    ensures IsRadius(adj, r)
  {
    forall s, e: nat | IsEcc(adj, s, e) ensures r <= e {
      if r > 0 {
        assert AtLeast(adj, s, r);
        var t :| t in adj && !(Reachable(adj, s, t) && Dist(adj, s, t) <= r - 1);
        assert Reachable(adj, s, t);
      }
    }
  }

  /** Vertices that each reach every vertex make a connected graph. */
  lemma ReachesConnected(adj: Adj)
    requires forall s :: s in adj ==> Reaches(adj, s)
    ensures Connected(adj)
  {
    forall s, t | s in adj && t in adj ensures Reachable(adj, s, t) {
      assert Reaches(adj, s);
    }
  }

  lemma DistSelf(adj: Adj, s: int)
    ensures Reachable(adj, s, s) && Dist(adj, s, s) == 0
  {
    assert HasWalk(adj, s, s, 0);
    assert IsDist(adj, s, s, 0);
    DistUnique(adj, s, s, 0, Dist(adj, s, s));
  }

  /** A vertex has one eccentricity. */
  lemma EccUnique(adj: Adj, s: int, e1: nat, e2: nat)
    requires IsEcc(adj, s, e1) && IsEcc(adj, s, e2)
    ensures e1 == e2
  {
    var t1 :| t1 in adj && Reachable(adj, s, t1) && Dist(adj, s, t1) == e1;
    var t2 :| t2 in adj && Reachable(adj, s, t2) && Dist(adj, s, t2) == e2;
    assert Dist(adj, s, t1) <= e2 && Dist(adj, s, t2) <= e1;
  }

  /** A walk of `k` edges bounds the distance. */
  lemma DistAtMost(adj: Adj, s: int, t: int, k: nat)
    requires HasWalk(adj, s, t, k)
    ensures Reachable(adj, s, t) && Dist(adj, s, t) <= k
  {
  }

  /** In an undirected graph (a symmetric adjacency map) walks from `c` to
      `x` and to `y` join into a walk from `x` to `y`. */
  lemma {:induction false} JoinedThrough(adj: Adj, c: int, x: int, y: int, j: nat, k: nat)
    requires Symmetric(adj) && HasWalk(adj, c, x, j) && HasWalk(adj, c, y, k)
    ensures Reachable(adj, x, y) && Dist(adj, x, y) <= j + k
  {
    WalkReverse(adj, c, x, j);
    WalkConcat(adj, x, c, y, j, k);
    DistAtMost(adj, x, y, j + k);
  }

  /** In an undirected graph two vertices are joined through any vertex `c`
      by at most twice its eccentricity. */
  lemma ThroughCentre(adj: Adj, c: int, e: nat, x: int, y: int)
    requires Symmetric(adj) && IsEcc(adj, c, e) && x in adj && y in adj
    ensures Reachable(adj, x, y) && Dist(adj, x, y) <= 2 * e
  {
    assert Reachable(adj, c, x) && Reachable(adj, c, y);
    JoinedThrough(adj, c, x, y, Dist(adj, c, x), Dist(adj, c, y));
  }

  /** The radius is at most the diameter, and in an undirected graph the
      diameter is at most twice the radius. */
  lemma RadiusDiameter(adj: Adj, r: nat, d: nat)
    requires IsRadius(adj, r) && IsDiameter(adj, d)
    ensures r <= d
    ensures Symmetric(adj) ==> d <= 2 * r
  {
    var c :| IsEcc(adj, c, r);
    assert r <= d by {
      var t :| t in adj && Reachable(adj, c, t) && Dist(adj, c, t) == r;
      assert Bounded(adj, c, d);
    }
    if Symmetric(adj) {
      var x :| x in adj && Attains(adj, x, d);
      var y :| y in adj && Reachable(adj, x, y) && Dist(adj, x, y) == d;
      ThroughCentre(adj, c, r, x, y);
    }
  }

  /** A search from `s` that reached `x` in `i` edges and `y` in `j` edges
      finds the entry x -> y and so closes a round of i + j + 1 edges. */
  ghost predicate Closes(adj: Adj, s: int, x: int, y: int, i: nat, j: nat)
  {
    HasWalk(adj, s, x, i) && HasWalk(adj, s, y, j) && y in Succ(adj, x)
  }

  /** Some search closes a round of exactly `r` edges. */
  ghost predicate ClosedRound(adj: Adj, r: nat)
  {
    exists s, x, y, i: nat, j: nat :: Closes(adj, s, x, y, i, j) && r == i + j + 1
  }

  /** In an undirected graph such a round is a closed walk. */
  lemma RoundIsClosedWalk(adj: Adj, r: nat)
    requires Symmetric(adj) && ClosedRound(adj, r)
    ensures exists v :: HasWalk(adj, v, v, r)
  {
    var s, x, y, i: nat, j: nat :| Closes(adj, s, x, y, i, j) && r == i + j + 1;
    RoundWalk(adj, s, x, y, i, j);
  }

  /** The walk to `x`, the entry to `y` and the walk from `y` back to `s`. */
  lemma RoundWalk(adj: Adj, s: int, x: int, y: int, i: nat, j: nat)
    requires Symmetric(adj) && Closes(adj, s, x, y, i, j)
    ensures HasWalk(adj, s, s, i + j + 1)
  {
    WalkStep(adj, s, x, y, i);
    WalkReverse(adj, s, y, j);
    WalkConcat(adj, s, y, s, i + 1, j);
    assert i + 1 + j == i + j + 1;
  }

  /** Every vertex getGirth has a distance for is reached from `s` by a walk of that length. */
  ghost predicate Reached(adj: Adj, s: int, distance: map<int, nat>)
  {
    forall x :: x in distance ==> HasWalk(adj, s, x, distance[x])
  }

  /** Recording a successor of a reached vertex one edge further keeps the distances walk lengths. */
  lemma ReachedStep(adj: Adj, s: int, distance: map<int, nat>, u: int, w: int)
    requires Reached(adj, s, distance) && u in distance && w in Succ(adj, u)
    ensures Reached(adj, s, distance[w := distance[u] + 1])
  {
    WalkStep(adj, s, u, w, distance[u]);
  }

  /** Every queued vertex of getGirth has a distance of at least one. */
  ghost predicate Queued(q: seq<(int, int)>, distance: map<int, nat>)
  {
    forall p :: p in q ==> p.0 in distance && distance[p.0] >= 1
  }

  lemma QueuedPush(q: seq<(int, int)>, distance: map<int, nat>, w: int, d: nat, parent: int)
    requires Queued(q, distance) && d >= 1
    ensures Queued(q + [(w, parent)], distance[w := d])
  {
  }
}

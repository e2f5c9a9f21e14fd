// What the cycle and colouring checks of the graph variants of
// graphs/graphs.hpp decide: directed acyclicity (DirectedAcyclicGraph) and
// two-colourability (BipartiteGraph), with the facts their searches leave.
module GraphCycles {
  import opened GraphSpec

  // ---------------------------------------------------------------------
  // Directed cycles
  // ---------------------------------------------------------------------

  /** No vertex lies on a closed walk of one edge or more. */
  ghost predicate Acyclic(adj: Adj)
  {
    forall v, k: nat :: v in adj && k >= 1 ==> !HasWalk(adj, v, v, k)
  }

  /** There is a walk of at least one edge from `s` to `t`. */
  ghost predicate Reach1(adj: Adj, s: int, t: int)
  {
    exists k: nat :: k >= 1 && HasWalk(adj, s, t, k)
  }

  /** A depth-first finishing order: every successor of a finished vertex finished before it. */
  ghost predicate Finished(adj: Adj, fin: seq<int>)
  {
    forall i, y :: 0 <= i < |fin| && y in Succ(adj, fin[i]) ==> y in fin[..i]
  }

  lemma Reach1Step(adj: Adj, s: int, u: int, t: int)
    requires (s == u || Reach1(adj, s, u)) && t in Succ(adj, u)
    ensures Reach1(adj, s, t)
  {
    if s == u {
      assert HasWalk(adj, s, u, 0);
      assert HasWalk(adj, s, t, 1);
    } else {
      var k: nat :| k >= 1 && HasWalk(adj, s, u, k);
      assert HasWalk(adj, s, t, k + 1);
    }
  }

  /** An entry back to a vertex that reaches the current one closes a cycle. */
  lemma BackEntryCycle(adj: Adj, s: int, u: int)
    requires s in adj && (s == u || Reach1(adj, s, u)) && s in Succ(adj, u)
    ensures !Acyclic(adj)
  {
    Reach1Step(adj, s, u, s);
    var k: nat :| k >= 1 && HasWalk(adj, s, s, k);
  }

  /** Along a finishing order, a walk of one edge or more leads to an earlier vertex. */
  lemma {:induction false} FinishedWalk(adj: Adj, fin: seq<int>, i: nat, t: int, k: nat)
    requires Finished(adj, fin) && i < |fin| && k >= 1 && HasWalk(adj, fin[i], t, k)
    ensures exists j :: 0 <= j < i && fin[j] == t
    decreases k
  {
    var u :| HasWalk(adj, fin[i], u, k - 1) && t in Succ(adj, u);
    if k == 1 {
      assert t in fin[..i];
    } else {
      FinishedWalk(adj, fin, i, u, k - 1);
      var j :| 0 <= j < i && fin[j] == u;
      assert t in fin[..j];
      var j' :| 0 <= j' < j && fin[..j][j'] == t;
      assert fin[j'] == t;
    }
  }

  lemma {:induction false} NoClosedWalkAt(adj: Adj, fin: seq<int>, i: nat, k: nat)
    requires Finished(adj, fin) && i < |fin| && k >= 1
    ensures !HasWalk(adj, fin[i], fin[i], k)
    decreases i
  {
    if HasWalk(adj, fin[i], fin[i], k) {
      FinishedWalk(adj, fin, i, fin[i], k);
      var j :| 0 <= j < i && fin[j] == fin[i];
      NoClosedWalkAt(adj, fin, j, k);
    }
  }

  /** A finishing order of every vertex shows the graph has no cycle. */
  lemma FinishedAcyclic(adj: Adj, fin: seq<int>)
    requires Finished(adj, fin) && forall v :: v in adj ==> v in fin
    ensures Acyclic(adj)
  {
    forall v, k: nat | v in adj && k >= 1 ensures !HasWalk(adj, v, v, k) {
      var i :| 0 <= i < |fin| && fin[i] == v;
      NoClosedWalkAt(adj, fin, i, k);
    }
  }

  /** Walks only depend on the successor sets. */
  lemma {:induction false} SameSuccWalks(a: Adj, b: Adj, s: int, t: int, k: nat)
    requires forall u :: Succ(a, u) == Succ(b, u)
    ensures HasWalk(a, s, t, k) <==> HasWalk(b, s, t, k)
    decreases k
  {
    if k > 0 {
      if HasWalk(a, s, t, k) {
        var u :| HasWalk(a, s, u, k - 1) && t in Succ(a, u);
        SameSuccWalks(a, b, s, u, k - 1);
      }
      if HasWalk(b, s, t, k) {
        var u :| HasWalk(b, s, u, k - 1) && t in Succ(b, u);
        SameSuccWalks(a, b, s, u, k - 1);
      }
    }
  }

  // ---------------------------------------------------------------------
  // Two-colourings
  // ---------------------------------------------------------------------

  /** `c` gives the two ends of every entry the colours 0 and 1, one each. */
  ghost predicate ProperTwo(adj: Adj, c: map<int, int>)
  {
    forall u, y :: y in Succ(adj, u) ==> ProperEdge(c, u, y)
  }

  /** `u` and `y` have the colours 0 and 1, one each. */
  ghost predicate ProperEdge(c: map<int, int>, u: int, y: int)
  {
    u in c && y in c && (c[u] == 0 || c[u] == 1) && (c[y] == 0 || c[y] == 1) && c[u] != c[y]
  }

  /** The graph is bipartite: some colouring in two colours is proper. */
  ghost predicate TwoColourable(adj: Adj)
  {
    exists c :: ProperTwo(adj, c)
  }

  /** Along a walk the colour of a proper colouring alternates. */
  lemma {:induction false} WalkColour(adj: Adj, c: map<int, int>, s: int, t: int, k: nat)
    requires ProperTwo(adj, c) && HasWalk(adj, s, t, k) && s in c && (c[s] == 0 || c[s] == 1)
    ensures t in c && c[t] == (c[s] + k) % 2
    decreases k
  {
    if k > 0 {
      var u :| HasWalk(adj, s, u, k - 1) && t in Succ(adj, u);
      WalkColour(adj, c, s, u, k - 1);
    }
  }

  /** Two walks from `s` of the same parity ending at the two ends of an
      entry make the graph not bipartite. */
  lemma OddRound(adj: Adj, s: int, x: int, y: int, kx: nat, ky: nat)
    requires HasWalk(adj, s, x, kx) && HasWalk(adj, s, y, ky) && y in Succ(adj, x)
    requires kx % 2 == ky % 2
    ensures !TwoColourable(adj)
  {
    if c :| ProperTwo(adj, c) {
      var c' := c[s := if s in c && (c[s] == 0 || c[s] == 1) then c[s] else 0];
      forall u, z | z in Succ(adj, u) ensures ProperEdge(c', u, z) {
        ProperPair(adj, c, u, z);
      }
      assert ProperTwo(adj, c');
      WalkColour(adj, c', s, x, kx);
      WalkColour(adj, c', s, y, ky);
      ProperPair(adj, c', x, y);
    }
  }

  lemma ProperPair(adj: Adj, c: map<int, int>, u: int, y: int)
    requires ProperTwo(adj, c) && y in Succ(adj, u)
    ensures u in c && y in c && (c[u] == 0 || c[u] == 1) && (c[y] == 0 || c[y] == 1) && c[u] != c[y]
  {
  }

  /** Bipartiteness only depends on the successor sets. */
  lemma SameSuccColourable(a: Adj, b: Adj)
    requires forall u :: Succ(a, u) == Succ(b, u)
    ensures TwoColourable(a) <==> TwoColourable(b)
  {
    if c :| ProperTwo(a, c) {
      ProperTransfer(a, b, c);
    }
    if c :| ProperTwo(b, c) {
      ProperTransfer(b, a, c);
    }
  }

  lemma ProperTransfer(a: Adj, b: Adj, c: map<int, int>)
    requires forall u :: Succ(a, u) == Succ(b, u)
    requires ProperTwo(a, c)
    ensures ProperTwo(b, c)
  {
    forall u, y | y in Succ(b, u) ensures ProperEdge(c, u, y) {
      assert y in Succ(a, u);
    }
  }

  /** Every vertex of `vs` has each of its successors inside `vs`. */
  ghost predicate ClosedUnder(adj: Adj, vs: set<int>)
  {
    forall u, y :: u in vs && y in Succ(adj, u) ==> y in vs
  }
}

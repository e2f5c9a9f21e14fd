// What join and operator+ of graphs/graphs.hpp do to the successor sets.
// operator+ first copies the left operand into a fresh graph (every vertex,
// then every entry, an undirected edge only from its smaller end), then
// joins the right operand into it.
module GraphUnion {
  import opened GraphSpec

  /** Whether the copy and join loops take arc `a` at all. */
  predicate Copied(directed: bool, a: Arc)
  {
    directed || a.src < a.dest
  }

  /** Adding arc `a` makes `y` a successor of `x`. */
  predicate Links(directed: bool, a: Arc, x: int, y: int)
  {
    (a.src == x && a.dest == y) || (!directed && a.src == y && a.dest == x)
  }

  /** Some arc of `arcs` that the loops take links `x` to `y`. */
  ghost predicate CopiedTo(directed: bool, arcs: seq<Arc>, x: int, y: int)
  {
    exists a :: a in arcs && Copied(directed, a) && Links(directed, a, x, y)
  }

  /** One step of the copy loop of operator+: addEdge without any check for an existing entry. */
  function CopyStep(adj: Adj, directed: bool, a: Arc): Adj
  {
    if Copied(directed, a) then AddEdgeAdj(adj, directed, a.src, a.dest, a.weight) else adj
  }

  function CopyArcs(adj: Adj, directed: bool, arcs: seq<Arc>): Adj
    decreases |arcs|
  {
    if arcs == [] then adj else CopyArcs(CopyStep(adj, directed, arcs[0]), directed, arcs[1..])
  }

  /** The copy of the left operand that operator+ builds before joining. */
  function CopyAdj(adj: Adj, directed: bool): Adj
  {
    CopyArcs(AddVertices(map[], adj.Keys), directed, AllArcs(adj))
  }

  /** operator+: the copy of the left operand joined with the right one. */
  function PlusAdj(adj: Adj, directed: bool, other: Adj): Adj
  {
    JoinAdj(CopyAdj(adj, directed), directed, other)
  }

  lemma CopiedToCons(directed: bool, arcs: seq<Arc>, x: int, y: int)
    requires arcs != []
    ensures CopiedTo(directed, arcs, x, y)
        <==> (Copied(directed, arcs[0]) && Links(directed, arcs[0], x, y)) || CopiedTo(directed, arcs[1..], x, y)
  {
    if CopiedTo(directed, arcs, x, y) {
      var a :| a in arcs && Copied(directed, a) && Links(directed, a, x, y);
      var i :| 0 <= i < |arcs| && arcs[i] == a;
      if i > 0 {
        assert arcs[1..][i - 1] == a;
      }
    }
    if CopiedTo(directed, arcs[1..], x, y) {
      var a :| a in arcs[1..] && Copied(directed, a) && Links(directed, a, x, y);
      assert a in arcs;
    }
  }

  /** The copy of the lists of one more vertex of `ks`. */
  lemma CopyArcsFromStep(base: Adj, directed: bool, adj: Adj, ks: seq<int>, i: nat)
    requires i < |ks| && forall k :: k in ks ==> k in adj
    ensures CopyArcs(base, directed, ArcsFrom(adj, ks[..i + 1]))
         == CopyArcs(CopyArcs(base, directed, ArcsFrom(adj, ks[..i])), directed, ArcsOf(ks[i], adj[ks[i]]))
  {
    ArcsFromSnoc(adj, ks, i);
    CopyArcsAppend(base, directed, ArcsFrom(adj, ks[..i]), ArcsOf(ks[i], adj[ks[i]]));
  }

  /** The copy of one more entry of `src`'s list. */
  lemma CopyArcsSnoc(adj: Adj, directed: bool, src: int, es: seq<Entry>, j: nat)
    requires j < |es|
    ensures CopyArcs(adj, directed, ArcsOf(src, es[..j + 1]))
         == CopyStep(CopyArcs(adj, directed, ArcsOf(src, es[..j])), directed, Arc(src, es[j].dest, es[j].weight))
  {
    var a := Arc(src, es[j].dest, es[j].weight);
    CopyArcsAppend(adj, directed, ArcsOf(src, es[..j]), [a]);
    assert ArcsOf(src, es[..j]) + [a] == ArcsOf(src, es[..j + 1]);
  }

  lemma {:induction false} CopyArcsAppend(adj: Adj, directed: bool, xs: seq<Arc>, ys: seq<Arc>)
    ensures CopyArcs(adj, directed, xs + ys) == CopyArcs(CopyArcs(adj, directed, xs), directed, ys)
    decreases |xs|
  {
    if xs == [] {
      assert xs + ys == ys;
    } else {
      assert (xs + ys)[1..] == xs[1..] + ys;
      CopyArcsAppend(CopyStep(adj, directed, xs[0]), directed, xs[1..], ys);
    }
  }

  /** The copy loop links exactly the pairs its arcs link. */
  lemma {:induction false} CopyArcsSucc(adj: Adj, directed: bool, arcs: seq<Arc>, x: int, y: int)
    ensures y in Succ(CopyArcs(adj, directed, arcs), x) <==> y in Succ(adj, x) || CopiedTo(directed, arcs, x, y)
    decreases |arcs|
  {
    if arcs != [] {
      var a := arcs[0];
      CopyArcsSucc(CopyStep(adj, directed, a), directed, arcs[1..], x, y);
      if Copied(directed, a) {
        AddEdgeSucc(adj, directed, a.src, a.dest, a.weight, x);
      }
      CopiedToCons(directed, arcs, x, y);
    }
  }

  /** The copy loop never adds a vertex when every arc joins two vertices. */
  lemma {:induction false} CopyArcsKeys(adj: Adj, directed: bool, arcs: seq<Arc>)
    requires forall a :: a in arcs ==> a.src in adj && a.dest in adj
    ensures CopyArcs(adj, directed, arcs).Keys == adj.Keys
    decreases |arcs|
  {
    if arcs != [] {
      assert arcs[0] in arcs;
      CopyArcsKeys(CopyStep(adj, directed, arcs[0]), directed, arcs[1..]);
    }
  }

  /** The join loop links exactly the pairs its arcs link: an arc it skips
      because `src` already has an entry to `dest` is already linked both ways. */
  lemma {:induction false} JoinArcsSucc(adj: Adj, directed: bool, arcs: seq<Arc>, x: int, y: int)
    requires Closed(adj) && (!directed ==> Symmetric(adj))
    ensures y in Succ(JoinArcs(adj, directed, arcs), x) <==> y in Succ(adj, x) || CopiedTo(directed, arcs, x, y)
    decreases |arcs|
  {
    if arcs != [] {
      var a := arcs[0];
      var b := JoinStep(adj, directed, a);
      if Copied(directed, a) && a.dest !in Succ(adj, a.src) {
        AddEdgeFacts(adj, directed, a.src, a.dest, a.weight);
        AddEdgeSucc(adj, directed, a.src, a.dest, a.weight, x);
      } else if Copied(directed, a) && Links(directed, a, x, y) && !(a.src == x && a.dest == y) {
        assert x in Succ(adj, y);
      }
      JoinArcsSucc(b, directed, arcs[1..], x, y);
      CopiedToCons(directed, arcs, x, y);
    }
  }

  /** The arcs of a graph that the loops take link `x` to `y` exactly when
      `y` is a successor of `x`, except that an undirected self-loop is never taken. */
  lemma ArcsCopiedTo(adj: Adj, directed: bool, x: int, y: int)
    requires Closed(adj) && (!directed ==> Symmetric(adj))
    ensures CopiedTo(directed, AllArcs(adj), x, y) <==> y in Succ(adj, x) && (directed || x != y)
  {
    var ks := Ascending(adj.Keys);
    var arcs := AllArcs(adj);
    if CopiedTo(directed, arcs, x, y) {
      var a :| a in arcs && Copied(directed, a) && Links(directed, a, x, y);
      ArcsFromFrom(adj, ks, a);
      if !(a.src == x && a.dest == y) {
        assert x in Succ(adj, y);
      }
    }
    if y in Succ(adj, x) && (directed || x != y) {
      var e: Entry :| e in adj[x] && e.dest == y;
      ArcsFromHas(adj, ks, x, e);
      if directed || x < y {
        assert Links(directed, Arc(x, y, e.weight), x, y);
      } else {
        assert x in Succ(adj, y);
        var f: Entry :| f in adj[y] && f.dest == x;
        ArcsFromHas(adj, ks, y, f);
        assert Links(directed, Arc(y, x, f.weight), x, y);
      }
    }
  }

  /** The copy built by operator+ has the same vertices and the same
      successors, except that an undirected self-loop is dropped. */
  lemma CopyAdjFacts(adj: Adj, directed: bool)
    requires Closed(adj) && (!directed ==> Symmetric(adj))
    ensures var r := CopyAdj(adj, directed);
      && r.Keys == adj.Keys
      && (forall x, y :: y in Succ(r, x) <==> y in Succ(adj, x) && (directed || x != y))
      && Closed(r) && (!directed ==> Symmetric(r))
  {
    CopyKeys(adj, directed);
    CopySuccs(adj, directed);
    CopyClosed(adj, directed);
    if !directed {
      CopySymmetric(adj);
    }
  }

  lemma CopyKeys(adj: Adj, directed: bool)
    requires Closed(adj)
    ensures CopyAdj(adj, directed).Keys == adj.Keys
  {
    var base := AddVertices(map[], adj.Keys);
    assert base.Keys == adj.Keys by {
      forall x | x in base.Keys ensures x in adj.Keys {
        assert x !in base || x in adj;
      }
    }
    ArcsInBase(adj);
    CopyArcsKeys(base, directed, AllArcs(adj));
  }

  lemma CopyClosed(adj: Adj, directed: bool)
    requires Closed(adj) && (!directed ==> Symmetric(adj))
    ensures Closed(CopyAdj(adj, directed))
  {
    var r := CopyAdj(adj, directed);
    CopyKeys(adj, directed);
    CopySuccs(adj, directed);
    forall u, e: Entry | u in r && e in r[u] ensures e.dest in r {
      assert e.dest in Succ(r, u);
    }
  }

  lemma CopySymmetric(adj: Adj)
    requires Closed(adj) && Symmetric(adj)
    ensures Symmetric(CopyAdj(adj, false))
  {
    CopySuccs(adj, false);
  }

  /** Every arc of a closed graph joins two of its vertices. */
  lemma ArcsInBase(adj: Adj)
    requires Closed(adj)
    ensures forall a :: a in AllArcs(adj) ==> a.src in AddVertices(map[], adj.Keys) && a.dest in AddVertices(map[], adj.Keys)
  {
    JoinArcsInBase(map[], adj);
  }

  lemma CopySuccs(adj: Adj, directed: bool)
    requires Closed(adj) && (!directed ==> Symmetric(adj))
    ensures forall x, y :: y in Succ(CopyAdj(adj, directed), x) <==> y in Succ(adj, x) && (directed || x != y)
  {
    var base := AddVertices(map[], adj.Keys);
    ArcsInBase(adj);
    forall x, y ensures y in Succ(CopyAdj(adj, directed), x) <==> y in Succ(adj, x) && (directed || x != y) {
      CopyArcsSucc(base, directed, AllArcs(adj), x, y);
      ArcsCopiedTo(adj, directed, x, y);
      if x in base {
        SuccEmpty(base, x);
      }
    }
  }

  /** join, edge by edge: afterwards `y` is a successor of `x` exactly when
      it was before or it is one in `other` (an undirected self-loop of
      `other` is not copied). */
  lemma JoinSucc(adj: Adj, directed: bool, other: Adj, x: int, y: int)
    requires Closed(adj) && (!directed ==> Symmetric(adj))
    requires Closed(other) && (!directed ==> Symmetric(other))
    ensures y in Succ(JoinAdj(adj, directed, other), x)
        <==> y in Succ(adj, x) || (y in Succ(other, x) && (directed || x != y))
  {
    JoinBase(adj, directed, other);
    JoinArcsSucc(AddVertices(adj, other.Keys), directed, AllArcs(other), x, y);
    ArcsCopiedTo(other, directed, x, y);
  }

  /** operator+, edge by edge: the vertices of both operands, and `y` is a
      successor of `x` exactly when it is one in either operand (an
      undirected self-loop is lost). */
  lemma PlusFacts(adj: Adj, directed: bool, other: Adj)
    requires Closed(adj) && (!directed ==> Symmetric(adj))
    requires Closed(other) && (!directed ==> Symmetric(other))
    ensures PlusAdj(adj, directed, other).Keys == adj.Keys + other.Keys
    ensures forall x, y ::
      (y in Succ(PlusAdj(adj, directed, other), x) <==> (y in Succ(adj, x) || y in Succ(other, x)) && (directed || x != y))
  {
    var c := CopyAdj(adj, directed);
    CopyAdjFacts(adj, directed);
    JoinFacts(c, directed, other);
    forall x, y ensures y in Succ(PlusAdj(adj, directed, other), x)
        <==> (y in Succ(adj, x) || y in Succ(other, x)) && (directed || x != y) {
      JoinSucc(c, directed, other, x, y);
    }
  }
}

// Key/value pairs and the map they stand for, shared by the three map classes
// of maps/maps.hpp (HashMap, TreeMap, LinkedListMap). Keys and values are
// `int`; V() is 0.
module MapSpecs {

  type Pair = (int, int)

  /** The map that inserting the pairs in order builds: a later pair replaces
      an earlier one with the same key. */
  function ToMap(ps: seq<Pair>): (m: map<int, int>)
    ensures forall k :: k in m <==> exists x :: x in ps && x.0 == k
    ensures forall k :: k in m ==> (k, m[k]) in ps
  {
    if ps == [] then map[]
    else
      var init, last := ps[..|ps| - 1], ps[|ps| - 1];
      assert ps == init + [last];
      assert forall x :: x in ps <==> x in init || x == last;
      ToMap(init)[last.0 := last.1]
  }

  /** Inserting a + b is inserting a, then b. */
  lemma {:induction false} ToMapAppend(a: seq<Pair>, b: seq<Pair>)
    ensures ToMap(a + b) == ToMap(a) + ToMap(b)
    decreases |b|
  {
    if b == [] {
      assert a + b == a;
    } else {
      var init, last := b[..|b| - 1], b[|b| - 1];
      var ab := a + b;
      assert ab[..|ab| - 1] == a + init;
      calc {
        ToMap(ab);
        ToMap(a + init)[last.0 := last.1];
        { ToMapAppend(a, init); }
        (ToMap(a) + ToMap(init))[last.0 := last.1];
        { UnionUpdate(ToMap(a), ToMap(init), last.0, last.1); }
        ToMap(a) + ToMap(init)[last.0 := last.1];
        ToMap(a) + ToMap(b);
      }
    }
  }

  /** Every pair of `y` inserted into an empty map gives `y`. */
  lemma EmptyUnion(y: map<int, int>)
    ensures map[] + y == y
  {
  }

  lemma UnionUpdate(x: map<int, int>, y: map<int, int>, k: int, v: int)
    ensures x + y[k := v] == (x + y)[k := v]
  {
  }

  /** One more pair inserted. */
  lemma ToMapSnoc(ps: seq<Pair>, i: int)
    requires 0 <= i < |ps|
    ensures ToMap(ps[..i + 1]) == ToMap(ps[..i])[ps[i].0 := ps[i].1]
  {
    assert ps[..i + 1][..i] == ps[..i];
  }

  /** Inserting one more pair of `ps` over the map `m`. */
  lemma UnionSnoc(m: map<int, int>, ps: seq<Pair>, i: int)
    requires 0 <= i < |ps|
    ensures m + ToMap(ps[..i + 1]) == (m + ToMap(ps[..i]))[ps[i].0 := ps[i].1]
  {
    ToMapSnoc(ps, i);
  }

  /** Every pair holds the map's value for its key, and every key of the map
      has its pair: the pairs list the map, in some order. */
  ghost predicate Agrees(ps: seq<Pair>, m: map<int, int>)
  {
    && (forall x :: x in ps ==> x.0 in m && m[x.0] == x.1)
    && (forall k :: k in m ==> (k, m[k]) in ps)
  }

  /** Pairs that list a map rebuild it, whatever their order. */
  lemma AgreesToMap(ps: seq<Pair>, m: map<int, int>)
    requires Agrees(ps, m)
    ensures ToMap(ps) == m
  {
    var r := ToMap(ps);
    forall k | k in r ensures k in m && r[k] == m[k] {
      assert (k, r[k]) in ps;
    }
    forall k | k in m ensures k in r {
      assert (k, m[k]) in ps;
    }
  }

  /** No two pairs share a key. */
  ghost predicate Distinct(ps: seq<Pair>)
  {
    forall i, j :: 0 <= i < j < |ps| ==> ps[i].0 != ps[j].0
  }

  /** A new key put in front of the pairs (insert of LinkedListMap, and of
      a HashMap chain). */
  lemma AgreesPrepend(ps: seq<Pair>, m: map<int, int>, k: int, v: int)
    requires Distinct(ps) && Agrees(ps, m) && k !in m
    ensures Distinct([(k, v)] + ps) && Agrees([(k, v)] + ps, m[k := v])
  {
    var r := [(k, v)] + ps;
    forall i, j | 0 <= i < j < |r| ensures r[i].0 != r[j].0 {
      if i == 0 {
        assert r[j] == ps[j - 1] && r[j] in ps;
      } else {
        assert r[i] == ps[i - 1] && r[j] == ps[j - 1];
      }
    }
    forall x | x in r ensures x.0 in m[k := v] && m[k := v][x.0] == x.1 {
      if x != (k, v) {
        assert x in ps;
      }
    }
  }

  /** A new value for the key of the pair at i. */
  lemma AgreesReplace(ps: seq<Pair>, m: map<int, int>, i: int, v: int)
    requires Distinct(ps) && Agrees(ps, m) && 0 <= i < |ps|
    ensures Distinct(ps[i := (ps[i].0, v)]) && Agrees(ps[i := (ps[i].0, v)], m[ps[i].0 := v])
  {
    var k := ps[i].0;
    var r := ps[i := (k, v)];
    var m' := m[k := v];
    assert ps[i] in ps;
    forall x | x in r ensures x.0 in m' && m'[x.0] == x.1 {
      var j :| 0 <= j < |r| && r[j] == x;
      if j != i {
        assert x == ps[j] && x in ps;
      }
    }
    forall k' | k' in m' ensures (k', m'[k']) in r {
      if k' == k {
        assert r[i] == (k, v);
      } else {
        assert (k', m[k']) in ps;
        var j :| 0 <= j < |ps| && ps[j] == (k', m[k']);
        assert r[j] == ps[j];
      }
    }
  }

  /** The pair at i unlinked (erase). */
  lemma AgreesRemove(ps: seq<Pair>, m: map<int, int>, i: int)
    requires Distinct(ps) && Agrees(ps, m) && 0 <= i < |ps|
    ensures Distinct(ps[..i] + ps[i + 1..]) && Agrees(ps[..i] + ps[i + 1..], m - {ps[i].0})
  {
    var k := ps[i].0;
    var r := ps[..i] + ps[i + 1..];
    RemoveAt(ps, i);
    forall x | x in r ensures x.0 in m - {k} && (m - {k})[x.0] == x.1 {
      var j :| 0 <= j < |r| && r[j] == x;
      var j' := if j < i then j else j + 1;
      assert x == ps[j'] && x in ps;
    }
    forall k' | k' in m - {k} ensures (k', m[k']) in r {
      assert (k', m[k']) in ps;
      var j :| 0 <= j < |ps| && ps[j] == (k', m[k']);
      assert r[if j < i then j else j - 1] == ps[j];
    }
  }

  /** Unlinking the pair at i shifts the later pairs down by one and keeps
      the keys distinct. */
  lemma RemoveAt(ps: seq<Pair>, i: int)
    requires Distinct(ps) && 0 <= i < |ps|
    ensures |ps[..i] + ps[i + 1..]| == |ps| - 1
    ensures forall j :: 0 <= j < |ps| - 1 ==> (ps[..i] + ps[i + 1..])[j] == if j < i then ps[j] else ps[j + 1]
    ensures Distinct(ps[..i] + ps[i + 1..])
  {
    var r := ps[..i] + ps[i + 1..];
    assert forall j :: 0 <= j < |r| ==> r[j] == if j < i then ps[j] else ps[j + 1];
  }

  /** A key held by no pair is not in the map. */
  lemma AgreesAbsent(ps: seq<Pair>, m: map<int, int>, k: int)
    requires Agrees(ps, m) && forall j :: 0 <= j < |ps| ==> ps[j].0 != k
    ensures k !in m
  {
  }

  /** Two distinct lists with no key in common make a distinct list, and
      they list the union of their maps. */
  lemma AgreesAppend(a: seq<Pair>, ma: map<int, int>, c: seq<Pair>, mc: map<int, int>)
    requires Distinct(a) && Agrees(a, ma) && Distinct(c) && Agrees(c, mc)
    requires forall k :: k in ma ==> k !in mc
    ensures Distinct(a + c) && Agrees(a + c, ma + mc)
  {
    var r := a + c;
    forall i, j | 0 <= i < j < |r| ensures r[i].0 != r[j].0 {
      if i < |a| && j >= |a| {
        assert r[i] in a && r[j] in c;
      }
    }
  }

  /** A distinct list has one pair per key of the map it lists. */
  lemma {:induction false} DistinctAgreesCard(ps: seq<Pair>, m: map<int, int>)
    requires Distinct(ps) && Agrees(ps, m)
    ensures |ps| == |m|
    decreases |ps|
  {
    if ps == [] {
      assert forall k :: k !in m;
      assert m.Keys == {};
    } else {
      var n := |ps| - 1;
      AgreesRemove(ps, m, n);
      assert ps[..n] + ps[n + 1..] == ps[..n];
      DistinctAgreesCard(ps[..n], m - {ps[n].0});
    }
  }

  /** The pair at position i of a distinct list is new to the map its
      predecessors build. */
  lemma FreshKey(ps: seq<Pair>, i: int)
    requires Distinct(ps) && 0 <= i < |ps|
    ensures ps[i].0 !in ToMap(ps[..i])
  {
  }

  /** A map with a key fewer than another that contains it is smaller. */
  lemma SmallerMap(a: map<int, int>, b: map<int, int>, k: int)
    requires forall x :: x in a ==> x in b
    requires k in b && k !in a
    ensures |a| < |b|
  {
    forall x | x in a.Keys ensures x in b.Keys - {k} {
      assert x in a;
    }
    SubsetCard(a.Keys, b.Keys - {k});
  }

  lemma SubsetCard(x: set<int>, y: set<int>)
    requires x <= y
    ensures |x| <= |y|
  {
    assert y == x + (y - x);
    assert x * (y - x) == {};
  }

  /** No pair of a distinct list occurs twice. */
  lemma {:induction false} DistinctOnce(ps: seq<Pair>, x: Pair)
    requires Distinct(ps)
    ensures multiset(ps)[x] <= 1
    decreases |ps|
  {
    if ps != [] {
      var init, last := ps[..|ps| - 1], ps[|ps| - 1];
      assert ps == init + [last];
      DistinctOnce(init, x);
      if x == last {
        forall j | 0 <= j < |init| ensures init[j] != x {
          assert ps[j] == init[j];
        }
      }
    }
  }

  /** A pair at two places occurs twice. */
  lemma Twice(ps: seq<Pair>, i: int, j: int)
    requires 0 <= i < j < |ps| && ps[i] == ps[j]
    ensures multiset(ps)[ps[i]] >= 2
  {
    assert ps == ps[..j] + [ps[j]] + ps[j + 1..];
    assert ps[i] in ps[..j];
  }

  /** A permutation of pairs with distinct keys has distinct keys. */
  lemma PermutationDistinct(ps: seq<Pair>, qs: seq<Pair>)
    requires Distinct(ps) && multiset(ps) == multiset(qs)
    ensures Distinct(qs)
  {
    forall i, j | 0 <= i < j < |qs| ensures qs[i].0 != qs[j].0 {
      assert qs[i] in multiset(ps) && qs[j] in multiset(ps);
      var a :| 0 <= a < |ps| && ps[a] == qs[i];
      var b :| 0 <= b < |ps| && ps[b] == qs[j];
      if a == b {
        Twice(qs, i, j);
        DistinctOnce(ps, qs[i]);
        assert false;
      }
    }
  }

  /** The pairs in reverse order. */
  function Reverse(ps: seq<Pair>): (r: seq<Pair>)
    ensures |r| == |ps| && forall i :: 0 <= i < |ps| ==> r[i] == ps[|ps| - 1 - i]
  {
    if ps == [] then [] else Reverse(ps[1..]) + [ps[0]]
  }

  /** The keys of the pairs, in order. */
  function KeySeq(ps: seq<Pair>): (r: seq<int>)
    ensures |r| == |ps| && forall i :: 0 <= i < |ps| ==> r[i] == ps[i].0
  {
    if ps == [] then [] else [ps[0].0] + KeySeq(ps[1..])
  }

  /** The values of the pairs, in order. */
  function ValueSeq(ps: seq<Pair>): (r: seq<int>)
    ensures |r| == |ps| && forall i :: 0 <= i < |ps| ==> r[i] == ps[i].1
  {
    if ps == [] then [] else [ps[0].1] + ValueSeq(ps[1..])
  }

  lemma KeySeqAppend(a: seq<Pair>, b: seq<Pair>)
    ensures KeySeq(a + b) == KeySeq(a) + KeySeq(b)
  {
  }

  lemma ValueSeqAppend(a: seq<Pair>, b: seq<Pair>)
    ensures ValueSeq(a + b) == ValueSeq(a) + ValueSeq(b)
  {
  }

  /** The keys of a distinct list of a map's pairs are the map's keys, each
      once. */
  lemma KeySeqAgrees(ps: seq<Pair>, m: map<int, int>)
    requires Distinct(ps) && Agrees(ps, m)
    ensures forall k :: k in KeySeq(ps) <==> k in m
    ensures forall i, j :: 0 <= i < j < |ps| ==> KeySeq(ps)[i] != KeySeq(ps)[j]
  {
    var r := KeySeq(ps);
    forall k | k in r ensures k in m {
      var i :| 0 <= i < |r| && r[i] == k;
      assert ps[i] in ps;
    }
    forall k | k in m ensures k in r {
      var i :| 0 <= i < |ps| && ps[i] == (k, m[k]);
      assert r[i] == k;
    }
  }

  /** The values of a list of a map's pairs are the map's values. */
  lemma ValueSeqAgrees(ps: seq<Pair>, m: map<int, int>)
    requires Agrees(ps, m)
    ensures forall v :: v in ValueSeq(ps) <==> exists k :: k in m && m[k] == v
  {
    var r := ValueSeq(ps);
    forall v | v in r ensures exists k :: k in m && m[k] == v {
      var i :| 0 <= i < |r| && r[i] == v;
      assert ps[i] in ps;
      var k := ps[i].0;
      assert k in m && m[k] == v;
    }
    forall k | k in m ensures m[k] in r {
      var i :| 0 <= i < |ps| && ps[i] == (k, m[k]);
      assert r[i] == m[k];
    }
  }

  /** Keys strictly increasing from the first pair to the last. */
  ghost predicate KeysIncreasing(ps: seq<Pair>)
  {
    forall i, j :: 0 <= i < j < |ps| ==> ps[i].0 < ps[j].0
  }

  /** A map has one listing with its keys in increasing order. */
  lemma {:induction false} IncreasingUnique(a: seq<Pair>, b: seq<Pair>, m: map<int, int>)
    requires KeysIncreasing(a) && Agrees(a, m) && KeysIncreasing(b) && Agrees(b, m)
    ensures a == b
    decreases |a|
  {
    if a == [] || b == [] {
      EmptyListing(a, m);
      EmptyListing(b, m);
    } else {
      SmallestFirst(a, b, m);
      IncreasingTail(a, m);
      IncreasingTail(b, m);
      IncreasingUnique(a[1..], b[1..], m - {a[0].0});
      assert a == [a[0]] + a[1..] && b == [b[0]] + b[1..];
    }
  }

  lemma EmptyListing(a: seq<Pair>, m: map<int, int>)
    requires Agrees(a, m)
    ensures a == [] <==> m == map[]
  {
    if a != [] {
      assert a[0] in a;
    } else {
      assert forall k :: k !in m;
      assert m.Keys == {};
    }
  }

  /** Both listings start with the smallest key of the map. */
  lemma SmallestFirst(a: seq<Pair>, b: seq<Pair>, m: map<int, int>)
    requires KeysIncreasing(a) && Agrees(a, m) && KeysIncreasing(b) && Agrees(b, m)
    requires a != [] && b != []
    ensures a[0] == b[0]
  {
    assert a[0] in a && b[0] in b;
    var i :| 0 <= i < |b| && b[i] == (a[0].0, m[a[0].0]);
    var j :| 0 <= j < |a| && a[j] == (b[0].0, m[b[0].0]);
    assert a[0].0 <= a[j].0;
  }

  /** Past its first pair, an increasing listing lists the rest of the map. */
  lemma IncreasingTail(a: seq<Pair>, m: map<int, int>)
    requires KeysIncreasing(a) && Agrees(a, m) && a != []
    ensures KeysIncreasing(a[1..]) && Agrees(a[1..], m - {a[0].0})
  {
    var m' := m - {a[0].0};
    forall x | x in a[1..] ensures x.0 in m' && m'[x.0] == x.1 {
      var p :| 0 <= p < |a| - 1 && a[1..][p] == x;
      assert a[p + 1] == x && x in a;
    }
    forall k | k in m' ensures (k, m'[k]) in a[1..] {
      var p :| 0 <= p < |a| && a[p] == (k, m[k]);
      assert a[1..][p - 1] == a[p];
    }
  }

  /** The loop of keys() over a vector of pairs, or over one chain: the
      keys copied out one by one. */
  method CollectKeys(ps: seq<Pair>) returns (r: seq<int>)
    ensures r == KeySeq(ps)
  {
    r := [];
    var j := 0;
    while j < |ps|
      invariant 0 <= j <= |ps| && r == KeySeq(ps[..j])
    {
      assert ps[..j + 1] == ps[..j] + [ps[j]];
      KeySeqAppend(ps[..j], [ps[j]]);
      r := r + [ps[j].0];
      j := j + 1;
    }
    assert ps[..j] == ps;
  }

  /** The loop of values(): the values copied out one by one. */
  method CollectValues(ps: seq<Pair>) returns (r: seq<int>)
    ensures r == ValueSeq(ps)
  {
    r := [];
    var j := 0;
    while j < |ps|
      invariant 0 <= j <= |ps| && r == ValueSeq(ps[..j])
    {
      assert ps[..j + 1] == ps[..j] + [ps[j]];
      ValueSeqAppend(ps[..j], [ps[j]]);
      r := r + [ps[j].1];
      j := j + 1;
    }
    assert ps[..j] == ps;
  }

  /** std::find over a vector of values: whether `v` occurs. */
  method Occurs(vals: seq<int>, v: int) returns (b: bool)
    ensures b <==> v in vals
  {
    var i := 0;
    while i < |vals|
      invariant 0 <= i <= |vals|
      invariant forall j :: 0 <= j < i ==> vals[j] != v
    {
      if vals[i] == v {
        return true;
      }
      i := i + 1;
    }
    return false;
  }

  /** The pairs (keys[i], values[i]). */
  function Zip(keys: seq<int>, values: seq<int>): (r: seq<Pair>)
    requires |keys| == |values|
    ensures |r| == |keys| && forall i :: 0 <= i < |keys| ==> r[i] == (keys[i], values[i])
  {
    if keys == [] then [] else [(keys[0], values[0])] + Zip(keys[1..], values[1..])
  }

  /** The map without the keys listed. */
  function Without(m: map<int, int>, ks: seq<int>): (r: map<int, int>)
    ensures forall k :: k in r <==> k in m && k !in ks
    ensures forall k :: k in r ==> r[k] == m[k]
  {
    map k | k in m && k !in ks :: m[k]
  }

  /** Erasing one more key. */
  lemma WithoutSnoc(m: map<int, int>, ks: seq<int>, i: int)
    requires 0 <= i < |ks|
    ensures Without(m, ks[..i + 1]) == Without(m, ks[..i]) - {ks[i]}
  {
    assert ks[..i + 1] == ks[..i] + [ks[i]];
  }

  // ---------------------------------------------------------------------
  // The orders sort_by sorts the pairs in.

  /** key, key-reverse, value and value-reverse. */
  datatype Order = KeyAsc | KeyDesc | ValueAsc | ValueDesc

  predicate Le(a: Pair, b: Pair, o: Order)
  {
    match o
    case KeyAsc => a.0 <= b.0
    case KeyDesc => a.0 >= b.0
    case ValueAsc => a.1 <= b.1
    case ValueDesc => a.1 >= b.1
  }

  /** The reverse order. */
  function Flip(o: Order): (r: Order)
    ensures forall a, b :: Le(a, b, r) <==> Le(b, a, o)
  {
    match o
    case KeyAsc => KeyDesc
    case KeyDesc => KeyAsc
    case ValueAsc => ValueDesc
    case ValueDesc => ValueAsc
  }

  predicate SortedBy(ps: seq<Pair>, o: Order)
  {
    forall i, j :: 0 <= i < j < |ps| ==> Le(ps[i], ps[j], o)
  }

  /** Read backwards, a sorted sequence is sorted by the flipped order. */
  lemma SortedReverse(ps: seq<Pair>, o: Order)
    requires SortedBy(ps, o)
    ensures SortedBy(Reverse(ps), Flip(o))
  {
    var r := Reverse(ps);
    forall i, j | 0 <= i < j < |r| ensures Le(r[i], r[j], Flip(o)) {
      assert Le(ps[|ps| - 1 - j], ps[|ps| - 1 - i], o);
    }
  }

  /** Every element of x :: s comes after x in the order. */
  lemma SortedCons(x: Pair, s: seq<Pair>, o: Order)
    requires SortedBy(s, o) && (forall y :: y in s ==> Le(x, y, o))
    ensures SortedBy([x] + s, o)
  {
    var r := [x] + s;
    forall i, j | 0 <= i < j < |r| ensures Le(r[i], r[j], o) {
      if i == 0 {
        assert r[j] == s[j - 1] && r[j] in s;
      } else {
        assert r[i] == s[i - 1] && r[j] == s[j - 1];
      }
    }
  }

  /** One step of an insertion sort: x goes before the first element it is
      not after. */
  function InsertSorted(x: Pair, s: seq<Pair>, o: Order): (r: seq<Pair>)
    requires SortedBy(s, o)
    ensures SortedBy(r, o) && multiset(r) == multiset(s) + multiset{x}
    decreases |s|
  {
    if s == [] || Le(x, s[0], o) then
      assert forall y :: y in s ==> Le(s[0], y, o) by {
        forall y | y in s ensures Le(s[0], y, o) {
          var j :| 0 <= j < |s| && s[j] == y;
          assert j == 0 || Le(s[0], s[j], o);
        }
      }
      SortedCons(x, s, o);
      [x] + s
    else
      assert s == [s[0]] + s[1..];
      var rest := InsertSorted(x, s[1..], o);
      forall y | y in rest ensures Le(s[0], y, o) {
        assert y in multiset(rest);
        if y != x {
          assert y in multiset(s[1..]);
          var j :| 0 <= j < |s[1..]| && s[1..][j] == y;
          assert s[j + 1] == y;
        }
      }
      SortedCons(s[0], rest, o);
      [s[0]] + rest
  }

  /** The order std::sort leaves the pairs in; where the order ties, this is
      the order an insertion sort picks. */
  function SortPairs(ps: seq<Pair>, o: Order): (r: seq<Pair>)
    ensures SortedBy(r, o) && multiset(r) == multiset(ps)
  {
    if ps == [] then []
    else
      assert ps == [ps[0]] + ps[1..];
      InsertSorted(ps[0], SortPairs(ps[1..], o), o)
  }

  /** A permutation lists the same map. */
  lemma PermutedAgrees(ps: seq<Pair>, qs: seq<Pair>, m: map<int, int>)
    requires Agrees(ps, m) && multiset(ps) == multiset(qs)
    ensures Agrees(qs, m)
  {
    forall x | x in qs ensures x.0 in m && m[x.0] == x.1 {
      assert x in multiset(qs);
    }
    forall k | k in m ensures (k, m[k]) in qs {
      assert (k, m[k]) in multiset(ps);
    }
  }
}

// HashMap of maps/maps.hpp: separate chaining over a table of `capacity`
// bucket chains, each chain listed from its head. std::hash is the
// constructor parameter `hash`; the map the table stands for is the ghost
// `contents`.
module HashMaps {
  import opened Wrappers
  import opened MapSpecs

  /** hashFunction: the bucket of key k. */
  function BucketOf(h: int -> nat, k: int, cap: int): (b: int)
    requires cap > 0
    ensures 0 <= b < cap
  {
    h(k) % cap
  }

  /** The part of m whose keys hash to bucket b. */
  ghost function Bucket(m: map<int, int>, h: int -> nat, cap: int, b: int): (r: map<int, int>)
    requires cap > 0
    ensures forall k :: k in r <==> k in m && BucketOf(h, k, cap) == b
    ensures forall k :: k in r ==> r[k] == m[k]
  {
    map k | k in m && BucketOf(h, k, cap) == b :: m[k]
  }

  /** The part of m whose keys hash to the buckets below i. */
  ghost function Below(m: map<int, int>, h: int -> nat, cap: int, i: int): (r: map<int, int>)
    requires cap > 0
    ensures forall k :: k in r <==> k in m && BucketOf(h, k, cap) < i
    ensures forall k :: k in r ==> r[k] == m[k]
  {
    map k | k in m && BucketOf(h, k, cap) < i :: m[k]
  }

  lemma BelowStep(m: map<int, int>, h: int -> nat, cap: int, i: int)
    requires cap > 0
    ensures Below(m, h, cap, i) + Bucket(m, h, cap, i) == Below(m, h, cap, i + 1)
  {
  }

  lemma BelowNone(m: map<int, int>, h: int -> nat, cap: int)
    requires cap > 0
    ensures Below(m, h, cap, 0) == map[]
  {
    assert forall k :: k !in Below(m, h, cap, 0);
  }

  lemma BelowAll(m: map<int, int>, h: int -> nat, cap: int)
    requires cap > 0
    ensures Below(m, h, cap, cap) == m
  {
  }

  /** Each chain holds each key once and lists the part of m in its
      bucket. */
  ghost predicate Chains(t: seq<seq<Pair>>, m: map<int, int>, h: int -> nat, cap: int)
  {
    && cap > 0 && |t| == cap
    && forall b :: 0 <= b < cap ==> ChainOk(t[b], m, h, cap, b)
  }

  /** The chain c of bucket b holds each key once and lists the part of m
      in that bucket. */
  ghost predicate ChainOk(c: seq<Pair>, m: map<int, int>, h: int -> nat, cap: int, b: int)
    requires cap > 0
  {
    Distinct(c) && Agrees(c, Bucket(m, h, cap, b))
  }

  /** Replacing the chain of k's bucket by one listing that bucket with k
      set to v. */
  lemma ChainsUpdate(t: seq<seq<Pair>>, m: map<int, int>, h: int -> nat, cap: int, k: int, v: int, c: seq<Pair>)
    requires Chains(t, m, h, cap)
    requires Distinct(c) && Agrees(c, Bucket(m, h, cap, BucketOf(h, k, cap))[k := v])
    ensures Chains(t[BucketOf(h, k, cap) := c], m[k := v], h, cap)
  {
    var b := BucketOf(h, k, cap);
    var t', m' := t[b := c], m[k := v];
    forall b' | 0 <= b' < cap ensures ChainOk(t'[b'], m', h, cap, b') {
      if b' == b {
        assert Bucket(m', h, cap, b') == Bucket(m, h, cap, b)[k := v];
      } else {
        assert Bucket(m', h, cap, b') == Bucket(m, h, cap, b');
      }
    }
  }

  /** Replacing the chain of k's bucket by one listing that bucket
      without k. */
  lemma ChainsRemove(t: seq<seq<Pair>>, m: map<int, int>, h: int -> nat, cap: int, k: int, c: seq<Pair>)
    requires Chains(t, m, h, cap)
    requires Distinct(c) && Agrees(c, Bucket(m, h, cap, BucketOf(h, k, cap)) - {k})
    ensures Chains(t[BucketOf(h, k, cap) := c], m - {k}, h, cap)
  {
    var b := BucketOf(h, k, cap);
    var t', m' := t[b := c], m - {k};
    forall b' | 0 <= b' < cap ensures ChainOk(t'[b'], m', h, cap, b') {
      if b' == b {
        assert Bucket(m', h, cap, b') == Bucket(m, h, cap, b) - {k};
      } else {
        assert Bucket(m', h, cap, b') == Bucket(m, h, cap, b');
      }
    }
  }

  /** A table of empty chains lists the empty map. */
  lemma ChainsEmpty(h: int -> nat, cap: int)
    requires cap > 0
    ensures Chains(seq(cap, _ => []), map[], h, cap)
  {
    var t: seq<seq<Pair>> := seq(cap, _ => []);
    forall b | 0 <= b < cap ensures ChainOk(t[b], map[], h, cap, b) {
      assert t[b] == [];
    }
  }

  /** The chains one after another, bucket 0 first: the order keys(),
      values() and pairs() visit the nodes in. */
  function Flatten(t: seq<seq<Pair>>): seq<Pair>
  {
    if t == [] then [] else Flatten(t[..|t| - 1]) + t[|t| - 1]
  }

  lemma FlattenStep(t: seq<seq<Pair>>, b: int)
    requires 0 <= b < |t|
    ensures Flatten(t[..b + 1]) == Flatten(t[..b]) + t[b]
  {
    assert t[..b + 1][..b] == t[..b];
  }

  /** The chains of the buckets below i list the part of m hashing there,
      each key once. */
  lemma {:induction false} FlattenPrefix(t: seq<seq<Pair>>, m: map<int, int>, h: int -> nat, cap: int, i: int)
    requires Chains(t, m, h, cap) && 0 <= i <= cap
    ensures Distinct(Flatten(t[..i])) && Agrees(Flatten(t[..i]), Below(m, h, cap, i))
    decreases i
  {
    if i == 0 {
      assert t[..0] == [];
      assert forall k :: k !in Below(m, h, cap, 0);
    } else {
      FlattenPrefix(t, m, h, cap, i - 1);
      assert t[..i][..i - 1] == t[..i - 1];
      assert Flatten(t[..i]) == Flatten(t[..i - 1]) + t[i - 1];
      AgreesAppend(Flatten(t[..i - 1]), Below(m, h, cap, i - 1), t[i - 1], Bucket(m, h, cap, i - 1));
      BelowStep(m, h, cap, i - 1);
    }
  }

  /** All chains together list the map, each key once. */
  lemma FlattenAll(t: seq<seq<Pair>>, m: map<int, int>, h: int -> nat, cap: int)
    requires Chains(t, m, h, cap)
    ensures Distinct(Flatten(t)) && Agrees(Flatten(t), m) && |Flatten(t)| == |m|
  {
    FlattenPrefix(t, m, h, cap, cap);
    assert t[..cap] == t;
    BelowAll(m, h, cap);
    DistinctAgreesCard(Flatten(t), m);
  }

  /** The keys of all chains: the map's keys, each once. */
  lemma FlattenKeys(t: seq<seq<Pair>>, m: map<int, int>, h: int -> nat, cap: int)
    requires Chains(t, m, h, cap)
    ensures |KeySeq(Flatten(t))| == |m|
    ensures forall i, j :: 0 <= i < j < |KeySeq(Flatten(t))| ==> KeySeq(Flatten(t))[i] != KeySeq(Flatten(t))[j]
    ensures forall k :: k in KeySeq(Flatten(t)) <==> k in m
  {
    FlattenAll(t, m, h, cap);
    KeySeqAgrees(Flatten(t), m);
  }

  /** The values of all chains: one per key of the map. */
  lemma FlattenValues(t: seq<seq<Pair>>, m: map<int, int>, h: int -> nat, cap: int)
    requires Chains(t, m, h, cap)
    ensures |ValueSeq(Flatten(t))| == |m|
    ensures forall v :: v in ValueSeq(Flatten(t)) <==> exists k :: k in m && m[k] == v
  {
    FlattenAll(t, m, h, cap);
    ValueSeqAgrees(Flatten(t), m);
  }

  /** A chain listing bm, which shares no key with base, both being part
      of m. */
  ghost predicate ChainFits(chain: seq<Pair>, bm: map<int, int>, m: map<int, int>, base: map<int, int>)
  {
    && Distinct(chain) && Agrees(chain, bm)
    && (forall k :: k in base ==> k !in bm && k in m)
    && (forall k :: k in bm ==> k in m)
  }

  /** While rehash re-inserts such a chain on top of base, the map built so
      far misses the key inserted next, so it is smaller than m. */
  lemma RehashRoom(base: map<int, int>, bm: map<int, int>, m: map<int, int>, chain: seq<Pair>, j: int)
    requires ChainFits(chain, bm, m, base) && 0 <= j < |chain|
    ensures |base + ToMap(chain[..j])| < |m|
  {
    var a := base + ToMap(chain[..j]);
    assert chain[j] in chain;
    FreshKey(chain, j);
    forall k | k in a ensures k in m {
      if k !in base {
        var x :| x in chain[..j] && x.0 == k;
        assert x in chain;
      }
    }
    SmallerMap(a, m, chain[j].0);
  }

  /** The chain of old bucket i fits on top of the buckets below it. */
  lemma BucketFits(t: seq<seq<Pair>>, m: map<int, int>, h: int -> nat, cap: int, i: int)
    requires Chains(t, m, h, cap) && 0 <= i < cap
    ensures ChainFits(t[i], Bucket(m, h, cap, i), m, Below(m, h, cap, i))
  {
    assert ChainOk(t[i], m, h, cap, i);
  }

  lemma ChainFitsDone(chain: seq<Pair>, bm: map<int, int>, m: map<int, int>, base: map<int, int>)
    requires ChainFits(chain, bm, m, base)
    ensures base + ToMap(chain[..|chain|]) == base + bm
  {
    assert chain[..|chain|] == chain;
    AgreesToMap(chain, bm);
  }

  /** Nothing of chain added yet. */
  lemma ChainStart(chain: seq<Pair>, m: map<int, int>)
    ensures m + ToMap(chain[..0]) == m
  {
    assert chain[..0] == [];
  }

  /** The reading of a sort_by criterion: key, key-reverse (or keyreverse),
      value and value-reverse (or valuereverse); anything else is
      refused. */
  function ParseOrder(criterion: string): (r: Option<Order>)
    ensures r.None? <==>
      criterion !in {"key", "key-reverse", "keyreverse", "value", "value-reverse", "valuereverse"}
  {
    if criterion == "key" then Some(KeyAsc)
    else if criterion == "key-reverse" || criterion == "keyreverse" then Some(KeyDesc)
    else if criterion == "value" then Some(ValueAsc)
    else if criterion == "value-reverse" || criterion == "valuereverse" then Some(ValueDesc)
    else None
  }

  /** Every chain is in the reverse of order o, and holds only pairs among
      the first i of ps. */
  ghost predicate Layout(t: seq<seq<Pair>>, ps: seq<Pair>, i: int, o: Order)
    requires 0 <= i <= |ps|
  {
    forall b :: 0 <= b < |t| ==> SortedBy(t[b], Flip(o)) && forall x :: x in t[b] ==> x in ps[..i]
  }

  /** Prepending the next pair of a sorted sequence to a chain keeps the
      layout. */
  lemma LayoutStep(t: seq<seq<Pair>>, ps: seq<Pair>, i: int, o: Order, b: int)
    requires 0 <= i < |ps| && 0 <= b < |t| && SortedBy(ps, o) && Layout(t, ps, i, o)
    ensures Layout(t[b := [ps[i]] + t[b]], ps, i + 1, o)
  {
    forall y | y in t[b] ensures Le(ps[i], y, Flip(o)) {
      var j :| 0 <= j < i && ps[..i][j] == y;
    }
    SortedCons(ps[i], t[b], Flip(o));
    assert ps[..i + 1] == ps[..i] + [ps[i]];
  }

  class HashMap {
    var table: seq<seq<Pair>>
    var size: nat
    var capacity: nat
    const hash: int -> nat
    ghost var contents: map<int, int>

    /** The chains list `contents`, mapSize counts its keys, and the load
        stays below 3/4 until the next insert rehashes. */
    ghost predicate Valid()
      reads this
    {
      && Chains(table, contents, hash, capacity)
      && size == |contents|
      && 4 * size <= 3 * capacity + 3
    }

    /** The constructor: `cap` empty buckets. */
    constructor(cap: nat, h: int -> nat)
      requires cap > 0
      ensures Valid() && contents == map[] && capacity == cap && hash == h
    {
      hash := h;
      capacity := cap;
      table := seq(cap, _ => []);
      size := 0;
      contents := map[];
      new;
      ChainsEmpty(h, cap);
    }

    /** The body of insert once the load has been checked: set the value of
        a key already in its chain, or push a new node on the chain's
        head. */
    method Put(key: int, value: int)
      requires Valid() && 4 * size < 3 * capacity
      modifies this
      ensures Valid() && contents == old(contents)[key := value] && capacity == old(capacity)
      ensures key in old(contents) ==> size == old(size)
      ensures key !in old(contents) ==>
        && size == old(size) + 1
        && table == old(table)[BucketOf(hash, key, capacity) := [(key, value)] + old(table)[BucketOf(hash, key, capacity)]]
    {
      var b := BucketOf(hash, key, capacity);
      var chain := table[b];
      var i := 0;
      while i < |chain|
        invariant 0 <= i <= |chain|
        invariant forall j :: 0 <= j < i ==> chain[j].0 != key
      {
        if chain[i].0 == key {
          assert chain[i] in chain;
          AgreesReplace(chain, Bucket(contents, hash, capacity, b), i, value);
          ChainsUpdate(table, contents, hash, capacity, key, value, chain[i := (key, value)]);
          table := table[b := chain[i := (key, value)]];
          contents := contents[key := value];
          return;
        }
        i := i + 1;
      }
      AgreesAbsent(chain, Bucket(contents, hash, capacity, b), key);
      AgreesPrepend(chain, Bucket(contents, hash, capacity, b), key, value);
      ChainsUpdate(table, contents, hash, capacity, key, value, [(key, value)] + chain);
      table := table[b := [(key, value)] + chain];
      size := size + 1;
      contents := contents[key := value];
    }

    /** insert: when size/capacity has reached 0.75 the table is first
        rehashed to twice the capacity; then the key's value is set (size
        unchanged) or a new node is pushed on its chain (size + 1). */
    method Insert(key: int, value: int)
      requires Valid()
      modifies this
      ensures Valid() && contents == old(contents)[key := value]
      ensures capacity == if 4 * old(size) >= 3 * old(capacity) then 2 * old(capacity) else old(capacity)
      ensures size == if key in old(contents) then old(size) else old(size) + 1
      ensures 4 * old(size) < 3 * old(capacity) && key !in old(contents) ==>
        table == old(table)[BucketOf(hash, key, capacity) := [(key, value)] + old(table)[BucketOf(hash, key, capacity)]]
    {
      if 4 * size >= 3 * capacity {
        Rehash();
      }
      Put(key, value);
    }

    /** rehash: a table of twice the capacity, into which every node of the
        old chains is inserted again, bucket by bucket and each chain from
        its head. The load check of those inserts never fires. */
    method Rehash()
      requires Valid()
      modifies this
      ensures Valid() && contents == old(contents) && size == old(size)
      ensures capacity == 2 * old(capacity)
    {
      ghost var m := contents;
      var oldCapacity := capacity;
      var oldTable := table;
      Reset(capacity * 2);
      BelowNone(m, hash, oldCapacity);
      var i := 0;
      while i < oldCapacity
        invariant 0 <= i <= oldCapacity && capacity == 2 * oldCapacity && Valid()
        invariant contents == Below(m, hash, oldCapacity, i)
      {
        ReinsertBucket(oldTable, m, oldCapacity, i);
        i := i + 1;
      }
      BelowAll(m, hash, oldCapacity);
    }

    /** The chain of old bucket i inserted again on top of the buckets
        before it. */
    method ReinsertBucket(oldTable: seq<seq<Pair>>, ghost m: map<int, int>, oldCapacity: int, i: int)
      requires Valid() && capacity == 2 * oldCapacity && 4 * |m| <= 3 * oldCapacity + 3
      requires Chains(oldTable, m, hash, oldCapacity) && 0 <= i < oldCapacity
      requires contents == Below(m, hash, oldCapacity, i)
      modifies this
      ensures Valid() && capacity == old(capacity)
      ensures contents == Below(m, hash, oldCapacity, i + 1)
    {
      BucketFits(oldTable, m, hash, oldCapacity, i);
      ReinsertChain(oldTable[i], Bucket(m, hash, oldCapacity, i), m, oldCapacity, Below(m, hash, oldCapacity, i));
      BelowStep(m, hash, oldCapacity, i);
    }

    /** The inner loop of rehash: the nodes of one old chain, which lists
        `bm`, inserted again from its head on top of the map rebuilt so
        far. */
    method ReinsertChain(chain: seq<Pair>, ghost bm: map<int, int>, ghost m: map<int, int>, ghost oldCapacity: int,
                         ghost base: map<int, int>)
      requires Valid() && capacity == 2 * oldCapacity && 4 * |m| <= 3 * oldCapacity + 3
      requires ChainFits(chain, bm, m, base) && contents == base
      modifies this
      ensures Valid() && capacity == old(capacity)
      ensures contents == base + bm
    {
      var j := 0;
      ChainStart(chain, base);
      while j < |chain|
        invariant 0 <= j <= |chain| && Valid() && capacity == 2 * oldCapacity
        invariant contents == base + ToMap(chain[..j])
      {
        ReinsertNode(chain, bm, m, oldCapacity, base, j);
        j := j + 1;
      }
      ChainFitsDone(chain, bm, m, base);
    }

    /** One node of that chain inserted again; the load check of insert does
        not fire, as the map being rebuilt is still smaller than the old
        one. */
    method ReinsertNode(chain: seq<Pair>, ghost bm: map<int, int>, ghost m: map<int, int>, ghost oldCapacity: int,
                        ghost base: map<int, int>, j: int)
      requires Valid() && capacity == 2 * oldCapacity && 4 * |m| <= 3 * oldCapacity + 3
      requires ChainFits(chain, bm, m, base)
      requires 0 <= j < |chain| && contents == base + ToMap(chain[..j])
      modifies this
      ensures Valid() && capacity == old(capacity)
      ensures contents == base + ToMap(chain[..j + 1])
    {
      RehashRoom(base, bm, m, chain, j);
      UnionSnoc(base, chain, j);
      Put(chain[j].0, chain[j].1);
    }

    /** The pairs inserted one after another. */
    method InsertAll(ps: seq<Pair>)
      requires Valid()
      modifies this
      ensures Valid() && contents == old(contents) + ToMap(ps)
    {
      var i := 0;
      while i < |ps|
        invariant 0 <= i <= |ps| && Valid()
        invariant contents == old(contents) + ToMap(ps[..i])
      {
        UnionSnoc(old(contents), ps, i);
        ghost var before := contents;
        Insert(ps[i].0, ps[i].1);
        assert contents == before[ps[i].0 := ps[i].1];
        i := i + 1;
      }
      assert ps[..i] == ps;
    }

    /** create_map_from_arrays: MapException, before anything is inserted,
        when the lengths differ; otherwise the pairs inserted in order. */
    method CreateMapFromArrays(keys: seq<int>, values: seq<int>) returns (r: Outcome)
      requires Valid()
      modifies this
      ensures Valid()
      ensures |keys| != |values| ==>
        r == Fail(MapError) && table == old(table) && capacity == old(capacity) && contents == old(contents)
      ensures |keys| == |values| ==> r == Pass && contents == old(contents) + ToMap(Zip(keys, values))
    {
      if |keys| != |values| {
        return Fail(MapError);
      }
      InsertAll(Zip(keys, values));
      return Pass;
    }

    /** pairs(): the nodes of every chain, bucket 0 first; each key once,
        with its value. */
    method Pairs() returns (r: seq<Pair>)
      requires Valid()
      ensures r == Flatten(table)
      ensures Distinct(r) && Agrees(r, contents) && |r| == size && ToMap(r) == contents
    {
      r := [];
      var b := 0;
      while b < |table|
        invariant 0 <= b <= |table| && r == Flatten(table[..b])
      {
        var current := table[b];
        var j := 0;
        while j < |current|
          invariant 0 <= j <= |current| && r == Flatten(table[..b]) + current[..j]
        {
          assert current[..j + 1] == current[..j] + [current[j]];
          r := r + [current[j]];
          j := j + 1;
        }
        assert current[..j] == current;
        FlattenStep(table, b);
        b := b + 1;
      }
      assert table[..b] == table;
      FlattenAll(table, contents, hash, capacity);
      AgreesToMap(r, contents);
    }

    /** keys(): the keys of every chain, bucket 0 first; size() of them, no
        key twice, exactly the keys of the map. */
    method Keys() returns (r: seq<int>)
      requires Valid()
      ensures r == KeySeq(Flatten(table)) && |r| == size
      ensures forall i, j :: 0 <= i < j < |r| ==> r[i] != r[j]
      ensures forall k :: k in r <==> k in contents
    {
      r := [];
      var b := 0;
      while b < |table|
        invariant 0 <= b <= |table| && r == KeySeq(Flatten(table[..b]))
      {
        var chainPart := CollectKeys(table[b]);
        r := r + chainPart;
        FlattenStep(table, b);
        KeySeqAppend(Flatten(table[..b]), table[b]);
        b := b + 1;
      }
      assert table[..b] == table;
      FlattenKeys(table, contents, hash, capacity);
    }

    /** values(): the values of every chain, bucket 0 first, one per key. */
    method Values() returns (r: seq<int>)
      requires Valid()
      ensures r == ValueSeq(Flatten(table)) && |r| == size
      ensures forall v :: v in r <==> exists k :: k in contents && contents[k] == v
    {
      r := [];
      var b := 0;
      while b < |table|
        invariant 0 <= b <= |table| && r == ValueSeq(Flatten(table[..b]))
      {
        var chainPart := CollectValues(table[b]);
        r := r + chainPart;
        FlattenStep(table, b);
        ValueSeqAppend(Flatten(table[..b]), table[b]);
        b := b + 1;
      }
      assert table[..b] == table;
      FlattenValues(table, contents, hash, capacity);
    }

    /** at: the value of `key`, found by walking its bucket's chain;
        KeyNotFoundException when it is absent. */
    method At(key: int) returns (r: Result<int>)
      requires Valid()
      ensures key in contents ==> r == Ok(contents[key])
      ensures key !in contents ==> r == Err(KeyNotFound)
    {
      var b := BucketOf(hash, key, capacity);
      var current := table[b];
      var i := 0;
      while i < |current|
        invariant 0 <= i <= |current|
        invariant forall j :: 0 <= j < i ==> current[j].0 != key
      {
        if current[i].0 == key {
          assert current[i] in current;
          return Ok(current[i].1);
        }
        i := i + 1;
      }
      AgreesAbsent(current, Bucket(contents, hash, capacity, b), key);
      return Err(KeyNotFound);
    }

    /** operator[]: the value of `key`; an absent key is first inserted with
        V(). */
    method Index(key: int) returns (v: int)
      requires Valid()
      modifies this
      ensures Valid() && key in contents && v == contents[key]
      ensures key in old(contents) ==>
        contents == old(contents) && table == old(table) && size == old(size) && capacity == old(capacity)
      ensures key !in old(contents) ==> contents == old(contents)[key := 0] && size == old(size) + 1
    {
      var b := BucketOf(hash, key, capacity);
      var current := table[b];
      var i := 0;
      while i < |current|
        invariant 0 <= i <= |current|
        invariant forall j :: 0 <= j < i ==> current[j].0 != key
      {
        if current[i].0 == key {
          assert current[i] in current;
          return current[i].1;
        }
        i := i + 1;
      }
      AgreesAbsent(current, Bucket(contents, hash, capacity, b), key);
      Insert(key, 0);
      var r := At(key);
      v := r.value;
    }

    /** erase: KeyNotFoundException with nothing changed when the key's
        chain does not hold it; otherwise that node is unlinked from its
        chain, the others keeping their order. */
    method Erase(key: int) returns (r: Outcome)
      requires Valid()
      modifies this
      ensures Valid() && capacity == old(capacity)
      ensures key !in old(contents) ==>
        r == Fail(KeyNotFound) && table == old(table) && contents == old(contents) && size == old(size)
      ensures key in old(contents) ==>
        && r == Pass && contents == old(contents) - {key} && size == old(size) - 1
        && var b := BucketOf(hash, key, capacity);
           exists i :: 0 <= i < |old(table)[b]| && old(table)[b][i].0 == key
             && table == old(table)[b := old(table)[b][..i] + old(table)[b][i + 1..]]
    {
      var b := BucketOf(hash, key, capacity);
      var current := table[b];
      var i := 0;
      while i < |current|
        invariant 0 <= i <= |current|
        invariant forall j :: 0 <= j < i ==> current[j].0 != key
      {
        if current[i].0 == key {
          AgreesRemove(current, Bucket(contents, hash, capacity, b), i);
          ChainsRemove(table, contents, hash, capacity, key, current[..i] + current[i + 1..]);
          table := table[b := current[..i] + current[i + 1..]];
          contents := contents - {key};
          size := size - 1;
          return Pass;
        }
        i := i + 1;
      }
      AgreesAbsent(current, Bucket(contents, hash, capacity, b), key);
      return Fail(KeyNotFound);
    }

    /** erase(vector): each key erased in turn, absent ones skipped. */
    method EraseAll(keys: seq<int>)
      requires Valid()
      modifies this
      ensures Valid() && capacity == old(capacity) && contents == Without(old(contents), keys)
    {
      var i := 0;
      while i < |keys|
        invariant 0 <= i <= |keys| && Valid() && capacity == old(capacity)
        invariant contents == Without(old(contents), keys[..i])
      {
        WithoutSnoc(old(contents), keys, i);
        var _ := Erase(keys[i]);
        i := i + 1;
      }
      assert keys[..i] == keys;
    }

    /** update: every pair of `other` inserted; on a shared key the value of
        `other` wins. */
    method Update(other: HashMap)
      requires Valid() && other.Valid()
      modifies this
      ensures Valid() && contents == old(contents) + old(other.contents)
    {
      var ps := other.Pairs();
      InsertAll(ps);
    }

    /** operator+: a copy of this map updated with `other`. The copy gets
        its own buckets and the same hash, so neither operand changes. */
    method Plus(other: HashMap) returns (r: HashMap)
      requires Valid() && other.Valid()
      ensures fresh(r) && r.Valid() && r.contents == contents + other.contents
    {
      r := new HashMap(capacity, hash);
      r.table, r.size, r.contents := table, size, contents;
      r.Update(other);
    }

    /** find: whether the key's chain holds it. */
    method Find(key: int) returns (found: bool)
      requires Valid()
      ensures found <==> key in contents
    {
      var b := BucketOf(hash, key, capacity);
      var current := table[b];
      var i := 0;
      while i < |current|
        invariant 0 <= i <= |current|
        invariant forall j :: 0 <= j < i ==> current[j].0 != key
      {
        if current[i].0 == key {
          assert current[i] in current;
          return true;
        }
        i := i + 1;
      }
      AgreesAbsent(current, Bucket(contents, hash, capacity, b), key);
      return false;
    }

    /** existsValue: whether some node of some chain holds `value`. */
    method ExistsValue(value: int) returns (found: bool)
      requires Valid()
      ensures found <==> exists k :: k in contents && contents[k] == value
    {
      var b := 0;
      while b < |table|
        invariant 0 <= b <= |table|
        invariant forall c, x :: 0 <= c < b && x in table[c] ==> x.1 != value
      {
        var current := table[b];
        var j := 0;
        while j < |current|
          invariant 0 <= j <= |current|
          invariant forall x :: x in current[..j] ==> x.1 != value
        {
          if current[j].1 == value {
            assert current[j] in table[b];
            return true;
          }
          assert current[..j + 1] == current[..j] + [current[j]];
          j := j + 1;
        }
        assert current[..j] == current;
        b := b + 1;
      }
      forall k | k in contents ensures contents[k] != value {
        var c := BucketOf(hash, k, capacity);
        assert (k, contents[k]) in table[c];
      }
      return false;
    }

    /** clear: every chain emptied; the capacity stays. */
    method Clear()
      requires Valid()
      modifies this
      ensures Valid() && contents == map[] && size == 0 && capacity == old(capacity)
      ensures table == seq(capacity, _ => [])
    {
      Reset(capacity);
    }

    /** An empty table of `newCapacity` buckets. */
    method Reset(newCapacity: nat)
      requires newCapacity > 0
      modifies this
      ensures Valid() && contents == map[] && size == 0 && capacity == newCapacity
      ensures table == seq(newCapacity, _ => [])
    {
      capacity := newCapacity;
      table := seq(newCapacity, _ => []);
      size := 0;
      contents := map[];
      ChainsEmpty(hash, newCapacity);
    }

    /** The reinsertion loop of sort_by: the pairs, with distinct keys and
        sorted in order o, inserted into the cleared table one after
        another. No insert rehashes, and each node goes to its chain's head,
        so every chain ends up in the reverse of order o. */
    method ReinsertSorted(sorted: seq<Pair>, ghost o: Order)
      requires Valid() && contents == map[] && table == seq(capacity, _ => [])
      requires Distinct(sorted) && SortedBy(sorted, o) && 4 * |sorted| <= 3 * capacity + 3
      modifies this
      ensures Valid() && capacity == old(capacity) && contents == ToMap(sorted) && size == |sorted|
      ensures forall b :: 0 <= b < capacity ==> SortedBy(table[b], Flip(o))
    {
      assert sorted[..0] == [];
      var i := 0;
      while i < |sorted|
        invariant 0 <= i <= |sorted| && Valid() && capacity == old(capacity)
        invariant contents == ToMap(sorted[..i]) && size == i
        invariant Layout(table, sorted, i, o)
      {
        FreshKey(sorted, i);
        ToMapSnoc(sorted, i);
        LayoutStep(table, sorted, i, o, BucketOf(hash, sorted[i].0, capacity));
        Insert(sorted[i].0, sorted[i].1);
        i := i + 1;
      }
      assert sorted[..i] == sorted;
    }

    /** sort_by: logic_error, with nothing changed, for an unknown
        criterion; otherwise the pairs sorted in the order asked for, the
        table cleared and the pairs inserted again in that order. The map,
        its size and its capacity stay; as each node goes to its chain's
        head, every chain ends up in the reverse of the order asked for. */
    method SortBy(criterion: string) returns (r: Outcome)
      requires Valid()
      modifies this
      ensures Valid() && contents == old(contents) && size == old(size) && capacity == old(capacity)
      ensures ParseOrder(criterion).None? ==> r == Fail(LogicError) && table == old(table)
      ensures ParseOrder(criterion).Some? ==>
        r == Pass && forall b :: 0 <= b < capacity ==> SortedBy(table[b], Flip(ParseOrder(criterion).value))
    {
      var order := ParseOrder(criterion);
      if order.None? {
        return Fail(LogicError);
      }
      var o := order.value;
      ghost var m := contents;
      var ps := Pairs();
      var sorted := SortPairs(ps, o);
      PermutationDistinct(ps, sorted);
      PermutedAgrees(ps, sorted, m);
      DistinctAgreesCard(sorted, m);
      AgreesToMap(sorted, m);
      Clear();
      ReinsertSorted(sorted, o);
      return Pass;
    }
  }
}

// LinkedListMap of maps/maps.hpp: a singly linked list of key/value nodes,
// newest key at the head. The chain is modelled by the sequence of its pairs
// from the head (`entries`); the map it stands for is the ghost `contents`.
module ListMaps {
  import opened Wrappers
  import opened MapSpecs

  class LinkedListMap {
    var entries: seq<Pair>
    var size: nat
    ghost var contents: map<int, int>

    /** The list holds each key once, lists exactly `contents`, and
        mapSize counts its keys. */
    ghost predicate Valid()
      reads this
    {
      Distinct(entries) && Agrees(entries, contents) && size == |contents|
    }

    constructor()
      ensures Valid() && entries == [] && contents == map[]
    {
      entries, size, contents := [], 0, map[];
    }

    /** findNode: the first node from the head holding `key`. */
    method FindNode(key: int) returns (r: Option<nat>)
      requires Valid()
      ensures r.Some? ==> r.value < |entries| && entries[r.value].0 == key
      ensures r.None? <==> key !in contents
    {
      var i := 0;
      while i < |entries|
        invariant 0 <= i <= |entries|
        invariant forall j :: 0 <= j < i ==> entries[j].0 != key
      {
        if entries[i].0 == key {
          assert entries[i] in entries;
          return Some(i);
        }
        i := i + 1;
      }
      AgreesAbsent(entries, contents, key);
      return None;
    }

    /** insert: a key already present gets the new value in place; a new
        key goes in a new node at the head, so keys() lists the newest key
        first. */
    method Insert(key: int, value: int)
      requires Valid()
      modifies this
      ensures Valid() && contents == old(contents)[key := value]
      ensures key in old(contents) ==> size == old(size) && KeySeq(entries) == KeySeq(old(entries))
      ensures key !in old(contents) ==> size == old(size) + 1 && entries == [(key, value)] + old(entries)
    {
      var existing := FindNode(key);
      if existing.Some? {
        AgreesReplace(entries, contents, existing.value, value);
        entries := entries[existing.value := (key, value)];
        contents := contents[key := value];
        return;
      }
      AgreesPrepend(entries, contents, key, value);
      entries := [(key, value)] + entries;
      size := size + 1;
      contents := contents[key := value];
    }

    /** create_map_from_arrays: MapException, before anything is inserted,
        when the lengths differ; otherwise the pairs inserted in order. */
    method CreateMapFromArrays(keys: seq<int>, values: seq<int>) returns (r: Outcome)
      requires Valid()
      modifies this
      ensures Valid()
      ensures |keys| != |values| ==> r == Fail(MapError) && entries == old(entries) && contents == old(contents)
      ensures |keys| == |values| ==> r == Pass && contents == old(contents) + ToMap(Zip(keys, values))
    {
      if |keys| != |values| {
        return Fail(MapError);
      }
      var ps := Zip(keys, values);
      var i := 0;
      while i < |ps|
        invariant 0 <= i <= |ps| && Valid()
        invariant contents == old(contents) + ToMap(ps[..i])
      {
        UnionSnoc(old(contents), ps, i);
        Insert(ps[i].0, ps[i].1);
        i := i + 1;
      }
      assert ps[..i] == ps;
      return Pass;
    }

    /** keys(): the keys from the head. */
    method Keys() returns (r: seq<int>)
      requires Valid()
      ensures r == KeySeq(entries)
      ensures forall k :: k in contents <==> k in r
    {
      r := [];
      var i := 0;
      while i < |entries|
        invariant 0 <= i <= |entries| && r == KeySeq(entries[..i])
      {
        assert entries[..i + 1] == entries[..i] + [entries[i]];
        r := r + [entries[i].0];
        i := i + 1;
      }
      assert entries[..i] == entries;
      forall k | k in contents ensures k in r {
        assert (k, contents[k]) in entries;
      }
    }

    /** values(): the values from the head. */
    method Values() returns (r: seq<int>)
      requires Valid()
      ensures r == ValueSeq(entries)
      ensures forall v :: v in r <==> exists k :: k in contents && contents[k] == v
    {
      r := [];
      var i := 0;
      while i < |entries|
        invariant 0 <= i <= |entries| && r == ValueSeq(entries[..i])
      {
        assert entries[..i + 1] == entries[..i] + [entries[i]];
        r := r + [entries[i].1];
        i := i + 1;
      }
      assert entries[..i] == entries;
      forall v | v in r ensures exists k :: k in contents && contents[k] == v {
        var j :| 0 <= j < |r| && r[j] == v;
        assert entries[j] in entries;
        var k := entries[j].0;
        assert k in contents && contents[k] == v;
      }
      forall k | k in contents ensures contents[k] in r {
        assert (k, contents[k]) in entries;
        var j :| 0 <= j < |entries| && entries[j] == (k, contents[k]);
        assert r[j] == contents[k];
      }
    }

    /** pairs(): the pairs from the head; they list the map. */
    method Pairs() returns (r: seq<Pair>)
      requires Valid()
      ensures r == entries && Agrees(r, contents) && ToMap(r) == contents
    {
      r := [];
      var i := 0;
      while i < |entries|
        invariant 0 <= i <= |entries| && r == entries[..i]
      {
        assert entries[..i + 1] == entries[..i] + [entries[i]];
        r := r + [entries[i]];
        i := i + 1;
      }
      assert entries[..i] == entries;
      AgreesToMap(r, contents);
    }

    /** at: the value of `key`, KeyNotFoundException when it is absent. */
    method At(key: int) returns (r: Result<int>)
      requires Valid()
      ensures key in contents ==> r == Ok(contents[key])
      ensures key !in contents ==> r == Err(KeyNotFound)
    {
      var node := FindNode(key);
      if node.None? {
        return Err(KeyNotFound);
      }
      assert entries[node.value] in entries;
      return Ok(entries[node.value].1);
    }

    /** operator[]: the value of `key`; an absent key is first inserted
        with V(). */
    method Index(key: int) returns (v: int)
      requires Valid()
      modifies this
      ensures Valid() && key in contents && v == contents[key]
      ensures key in old(contents) ==> contents == old(contents) && entries == old(entries)
      ensures key !in old(contents) ==> contents == old(contents)[key := 0]
    {
      var node := FindNode(key);
      if node.None? {
        Insert(key, 0);
        node := FindNode(key);
      }
      assert entries[node.value] in entries;
      v := entries[node.value].1;
    }

    /** erase: KeyNotFoundException with the list unchanged when no node
        holds `key`; otherwise that node is unlinked and the rest keep their
        order. */
    method Erase(key: int) returns (r: Outcome)
      requires Valid()
      modifies this
      ensures Valid()
      ensures key !in old(contents) ==>
        r == Fail(KeyNotFound) && entries == old(entries) && contents == old(contents)
      ensures key in old(contents) ==>
        && r == Pass && contents == old(contents) - {key} && size == old(size) - 1
        && exists i :: 0 <= i < |old(entries)| && old(entries)[i].0 == key
             && entries == old(entries)[..i] + old(entries)[i + 1..]
    {
      if entries == [] {
        AgreesAbsent(entries, contents, key);
        return Fail(KeyNotFound);
      }
      if entries[0].0 == key {
        AgreesRemove(entries, contents, 0);
        entries := entries[..0] + entries[1..];
        contents := contents - {key};
        size := size - 1;
        return Pass;
      }
      var i := 1;
      while i < |entries|
        invariant 1 <= i <= |entries|
        invariant forall j :: 0 <= j < i ==> entries[j].0 != key
      {
        if entries[i].0 == key {
          AgreesRemove(entries, contents, i);
          entries := entries[..i] + entries[i + 1..];
          contents := contents - {key};
          size := size - 1;
          return Pass;
        }
        i := i + 1;
      }
      AgreesAbsent(entries, contents, key);
      return Fail(KeyNotFound);
    }

    /** erase(vector): each key erased in turn, absent ones skipped. */
    method EraseAll(keys: seq<int>)
      requires Valid()
      modifies this
      ensures Valid() && contents == Without(old(contents), keys)
    {
      var i := 0;
      while i < |keys|
        invariant 0 <= i <= |keys| && Valid()
        invariant contents == Without(old(contents), keys[..i])
      {
        WithoutSnoc(old(contents), keys, i);
        var _ := Erase(keys[i]);
        i := i + 1;
      }
      assert keys[..i] == keys;
    }

    /** update: every pair of `other` inserted; on a shared key the value of
        `other` wins. */
    method Update(other: LinkedListMap)
      requires Valid() && other.Valid()
      modifies this
      ensures Valid() && contents == old(contents) + old(other.contents)
    {
      var ps := other.Pairs();
      var i := 0;
      while i < |ps|
        invariant 0 <= i <= |ps| && Valid()
        invariant contents == old(contents) + ToMap(ps[..i])
      {
        UnionSnoc(old(contents), ps, i);
        Insert(ps[i].0, ps[i].1);
        i := i + 1;
      }
      assert ps[..i] == ps;
    }

    /** operator+: a copy of this map updated with `other`. The copy gets
        its own nodes, so neither operand changes. */
    method Plus(other: LinkedListMap) returns (r: LinkedListMap)
      requires Valid() && other.Valid()
      ensures fresh(r) && r.Valid() && r.contents == contents + other.contents
    {
      r := new LinkedListMap();
      r.entries, r.size, r.contents := entries, size, contents;
      r.Update(other);
    }

    /** find: whether some node holds `key`. */
    method Find(key: int) returns (b: bool)
      requires Valid()
      ensures b <==> key in contents
    {
      var node := FindNode(key);
      b := node.Some?;
    }

    /** existsValue: whether some node holds `value`. */
    method ExistsValue(value: int) returns (b: bool)
      requires Valid()
      ensures b <==> exists k :: k in contents && contents[k] == value
    {
      var i := 0;
      while i < |entries|
        invariant 0 <= i <= |entries|
        invariant forall j :: 0 <= j < i ==> entries[j].1 != value
      {
        if entries[i].1 == value {
          assert entries[i] in entries;
          return true;
        }
        i := i + 1;
      }
      forall k | k in contents ensures contents[k] != value {
        assert (k, contents[k]) in entries;
      }
      return false;
    }

    /** clear: every node removed. */
    method Clear()
      modifies this
      ensures Valid() && entries == [] && contents == map[] && size == 0
    {
      entries, size, contents := [], 0, map[];
    }

    /** Insert `ps`, whose keys are distinct and none of them in the map, in
        order: each goes to the head. */
    method InsertAllFresh(ps: seq<Pair>)
      requires Valid() && entries == [] && Distinct(ps)
      modifies this
      ensures Valid() && entries == Reverse(ps) && contents == ToMap(ps)
    {
      AgreesToMap(entries, contents);
      assert ps[..0] == [];
      var i := 0;
      while i < |ps|
        invariant 0 <= i <= |ps| && Valid()
        invariant entries == Reverse(ps[..i]) && contents == ToMap(ps[..i])
      {
        ToMapSnoc(ps, i);
        ReversePrefix(ps, i);
        AgreesAbsent(entries, contents, ps[i].0);
        Insert(ps[i].0, ps[i].1);
        i := i + 1;
      }
      assert ps[..i] == ps;
    }

    /** sort_by as written: the pairs sorted by key or by value (any other
        criterion leaves them as they are), the list cleared and the pairs
        inserted again in that order. Each goes to the head, so the list
        ends up in the reverse of the sorted order: after "key", keys()
        is decreasing. */
    method SortByAsWritten(criterion: string)
      requires Valid()
      modifies this
      ensures Valid() && contents == old(contents)
      ensures criterion == "key" ==> SortedBy(entries, KeyDesc)
      ensures criterion == "value" ==> SortedBy(entries, ValueDesc)
      ensures criterion != "key" && criterion != "value" ==> entries == Reverse(old(entries))
    {
      var pairsList := Pairs();
      ghost var m := contents;
      if criterion == "key" {
        pairsList := SortPairs(pairsList, KeyAsc);
        SortedReverse(pairsList, KeyAsc);
      } else if criterion == "value" {
        pairsList := SortPairs(pairsList, ValueAsc);
        SortedReverse(pairsList, ValueAsc);
      }
      PermutationDistinct(entries, pairsList);
      PermutedAgrees(entries, pairsList, m);
      AgreesToMap(pairsList, m);
      Clear();
      InsertAllFresh(pairsList);
    }

    /** sort_by with the pairs inserted again from the last to the first, so
        that the list from the head is in the sorted order: after "key",
        keys() is strictly increasing. */
    method SortBy(criterion: string)
      requires Valid()
      modifies this
      ensures Valid() && contents == old(contents)
      ensures criterion == "key" ==> forall i, j :: 0 <= i < j < |entries| ==> entries[i].0 < entries[j].0
      ensures criterion == "value" ==> SortedBy(entries, ValueAsc)
      ensures criterion != "key" && criterion != "value" ==> entries == old(entries)
    {
      var pairsList := Pairs();
      ghost var m := contents;
      if criterion == "key" {
        pairsList := SortPairs(pairsList, KeyAsc);
      } else if criterion == "value" {
        pairsList := SortPairs(pairsList, ValueAsc);
      }
      PermutationDistinct(entries, pairsList);
      PermutedAgrees(entries, pairsList, m);
      var backwards := Reverse(pairsList);
      assert multiset(backwards) == multiset(pairsList) by {
        ReverseMultiset(pairsList);
      }
      PermutationDistinct(pairsList, backwards);
      PermutedAgrees(pairsList, backwards, m);
      AgreesToMap(backwards, m);
      Clear();
      InsertAllFresh(backwards);
      assert entries == pairsList by {
        ReverseReverse(pairsList);
      }
    }
  }

  /** The reversed prefix before position i, with ps[i] in front, is the
      reversed prefix through i; a key repeated nowhere in `ps` is not in
      the reversed prefix before it. */
  lemma ReversePrefix(ps: seq<Pair>, i: int)
    requires Distinct(ps) && 0 <= i < |ps|
    ensures Reverse(ps[..i + 1]) == [ps[i]] + Reverse(ps[..i])
    ensures forall j :: 0 <= j < i ==> Reverse(ps[..i])[j].0 != ps[i].0
  {
    var r, r' := Reverse(ps[..i]), Reverse(ps[..i + 1]);
    assert forall j :: 0 <= j < i ==> r[j] == ps[i - 1 - j];
    assert r' == [ps[i]] + r;
  }

  lemma {:induction false} ReverseMultiset(ps: seq<Pair>)
    ensures multiset(Reverse(ps)) == multiset(ps)
    decreases |ps|
  {
    if ps != [] {
      ReverseMultiset(ps[1..]);
      assert ps == [ps[0]] + ps[1..];
    }
  }

  lemma ReverseReverse(ps: seq<Pair>)
    ensures Reverse(Reverse(ps)) == ps
  {
  }
}

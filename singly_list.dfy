// SinglyLinkedList of linked_lists/linked_lists.hpp. The chain of nodes from
// `head` is modelled by the sequence of their values; `listSize` is the
// counter the class keeps beside it.
module SinglyLists {
  import opened Wrappers
  import opened ListSpec
  import opened ListSort
  import opened ListScans

  class SinglyLinkedList<T(==)> {
    var items: seq<T>
    var listSize: nat

    /** The counter agrees with the number of nodes. */
    ghost predicate Valid()
      reads this
    {
      listSize == |items|
    }

    constructor()
      ensures Valid() && items == []
    {
      items, listSize := [], 0;
    }

    /** The copy constructor: addLast of every node of `other`. */
    constructor Copy(other: SinglyLinkedList<T>)
      requires other.Valid()
      ensures Valid() && items == other.items
    {
      items, listSize := [], 0;
      new;
      var i := 0;
      while i < |other.items|
        invariant i <= |other.items| && Valid() && items == other.items[..i]
      {
        AddLast(other.items[i]);
        assert other.items[..i + 1] == other.items[..i] + [other.items[i]];
        i := i + 1;
      }
      assert other.items[..i] == other.items;
    }

    method AddFirst(v: T)
      requires Valid()
      modifies this
      ensures Valid() && items == [v] + old(items)
    {
      items := [v] + items;
      listSize := listSize + 1;
    }

    method AddLast(v: T)
      requires Valid()
      modifies this
      ensures Valid() && items == old(items) + [v]
    {
      if items == [] {
        AddFirst(v);
        return;
      }
      items := items + [v];
      listSize := listSize + 1;
    }

    /** addAt: throws out_of_range past the end; position 0 is addFirst. */
    method AddAt(index: nat, v: T) returns (o: Outcome)
      requires Valid()
      modifies this
      ensures Valid()
      ensures index > |old(items)| ==> o == Fail(OutOfRange) && items == old(items)
      ensures index <= |old(items)| ==> o == Pass && items == InsertAt(old(items), index, v)
    {
      if index > listSize {
        return Fail(OutOfRange);
      }
      if index == 0 {
        AddFirst(v);
        return Pass;
      }
      items := InsertAt(items, index, v);
      listSize := listSize + 1;
      return Pass;
    }

    method RemoveFirst() returns (r: Result<T>)
      requires Valid()
      modifies this
      ensures Valid()
      ensures old(items) == [] ==> r == Err(RuntimeError) && items == old(items)
      ensures old(items) != [] ==> r == Ok(old(items)[0]) && items == old(items)[1..]
    {
      if items == [] {
        return Err(RuntimeError);
      }
      r := Ok(items[0]);
      items := items[1..];
      listSize := listSize - 1;
    }

    /** removeLast: walks to the node before the last and unlinks the last. */
    method RemoveLast() returns (r: Result<T>)
      requires Valid()
      modifies this
      ensures Valid()
      ensures old(items) == [] ==> r == Err(RuntimeError) && items == old(items)
      ensures old(items) != [] ==> r == Ok(old(items)[|old(items)| - 1]) && items == old(items)[..|old(items)| - 1]
    {
      if items == [] {
        return Err(RuntimeError);
      }
      if |items| == 1 {
        r := RemoveFirst();
        return;
      }
      r := Ok(items[|items| - 1]);
      items := items[..|items| - 1];
      listSize := listSize - 1;
    }

    method RemoveAt(index: nat) returns (r: Result<T>)
      requires Valid()
      modifies this
      ensures Valid()
      ensures index >= |old(items)| ==> r == Err(OutOfRange) && items == old(items)
      ensures index < |old(items)| ==> r == Ok(old(items)[index]) && items == ListSpec.RemoveAt(old(items), index)
    {
      if index >= listSize {
        return Err(OutOfRange);
      }
      if index == 0 {
        r := RemoveFirst();
        return;
      }
      r := Ok(items[index]);
      items := ListSpec.RemoveAt(items, index);
      listSize := listSize - 1;
    }

    /** remove: unlinks the first node holding `v`, found by walking with
        `current` one node behind it. */
    method Remove(v: T) returns (found: bool)
      requires Valid()
      modifies this
      ensures Valid()
      ensures found <==> v in old(items)
      ensures found ==> items == ListSpec.RemoveAt(old(items), ListSpec.IndexOf(old(items), v))
      ensures !found ==> items == old(items)
    {
      if items == [] {
        return false;
      }
      if items[0] == v {
        var _ := RemoveFirst();
        return true;
      }
      var current := 0;
      while current + 1 < |items| && items[current + 1] != v
        invariant current < |items| && v !in items[..current + 1]
      {
        assert items[..current + 2] == items[..current + 1] + [items[current + 1]];
        current := current + 1;
      }
      if current + 1 < |items| {
        assert ListSpec.IndexOf(items, v) == current + 1;
        items := ListSpec.RemoveAt(items, current + 1);
        listSize := listSize - 1;
        return true;
      }
      assert items[..current + 1] == items;
      return false;
    }

    /** get and operator[]: the value at `index`, out_of_range past the end. */
    method Get(index: nat) returns (r: Result<T>)
      requires Valid()
      ensures index >= |items| ==> r == Err(OutOfRange)
      ensures index < |items| ==> r == Ok(items[index])
    {
      if index >= listSize {
        return Err(OutOfRange);
      }
      return Ok(items[index]);
    }

    method Front() returns (r: Result<T>)
      ensures items == [] ==> r == Err(RuntimeError)
      ensures items != [] ==> r == Ok(items[0])
    {
      if items == [] {
        return Err(RuntimeError);
      }
      return Ok(items[0]);
    }

    /** back: walks from the head to the last node. */
    method Back() returns (r: Result<T>)
      ensures items == [] ==> r == Err(RuntimeError)
      ensures items != [] ==> r == Ok(items[|items| - 1])
    {
      if items == [] {
        return Err(RuntimeError);
      }
      var current := 0;
      while current + 1 < |items|
        invariant current < |items|
      {
        current := current + 1;
      }
      return Ok(items[current]);
    }

    method IndexOf(v: T) returns (r: int)
      ensures r == ListSpec.IndexOf(items, v)
    {
      r := FindFirst(items, v);
    }

    method LastIndexOf(v: T) returns (r: int)
      ensures r == ListSpec.LastIndexOf(items, v)
    {
      r := FindLast(items, v);
    }

    /** contains: indexOf found a position. */
    method Contains(v: T) returns (b: bool)
      ensures b <==> v in items
    {
      var i := IndexOf(v);
      b := i != -1;
    }

    method Size() returns (n: nat)
      requires Valid()
      ensures n == |items|
    {
      return listSize;
    }

    method IsEmpty() returns (b: bool)
      requires Valid()
      ensures b <==> items == []
    {
      return listSize == 0;
    }

    method Clear()
      modifies this
      ensures Valid() && items == []
    {
      items, listSize := [], 0;
    }

    /** reverse: relinks every node to the one before it. */
    method Reverse()
      requires Valid()
      modifies this
      ensures Valid() && items == ListSpec.Reverse(old(items))
    {
      items := Reversed(items);
    }

    /** sort: the recursive merge sort with comparison <= (ascending) or >=
        (descending) under the order `key` gives the element type. */
    method Sort(ascending: bool, key: T -> int)
      requires Valid()
      modifies this
      ensures Valid() && items == MergeSort(key, ascending, old(items))
      ensures SortedStably(key, ascending, old(items), items)
    {
      MergeSortCorrect(key, ascending, items);
      if |items| < 2 {
        return;
      }
      items := MergeSort(key, ascending, items);
    }

    /** operator+: a copy of this list with every node of `other` appended. */
    method Plus(other: SinglyLinkedList<T>) returns (r: SinglyLinkedList<T>)
      requires Valid() && other.Valid()
      ensures fresh(r) && r.Valid() && r.items == items + other.items
    {
      r := new SinglyLinkedList.Copy(this);
      r.Merge(other);
    }

    /** merge: addLast of every node of `other`. Merging a non-empty list into
        itself never reaches the end of the growing list. */
    method Merge(other: SinglyLinkedList<T>)
      requires Valid() && other.Valid() && (other != this || items == [])
      modifies this
      ensures Valid() && items == old(items) + old(other.items)
    {
      var source := other.items;
      var i := 0;
      while i < |source|
        invariant i <= |source| && Valid() && items == old(items) + source[..i]
      {
        AddLast(source[i]);
        assert source[..i + 1] == source[..i] + [source[i]];
        i := i + 1;
      }
      assert source[..i] == source;
    }
  }
}

// CircularDoublyLinkedList of linked_lists/linked_lists.hpp: a ring of
// DoublyNode objects from `head`, linked both ways, whose last node is the
// predecessor of `head`, and the counter `listSize`. The ghost `nodes` lists
// the ring from the head and `items` the values its nodes hold.
module CircularDoublyLists {
  import opened Wrappers
  import opened ListNodes
  import opened ListSpec
  import opened ListSort

  class CircularDoublyLinkedList<T(==)> {
    var head: DoublyNode?<T>
    var listSize: nat
    ghost var nodes: seq<DoublyNode<T>>
    ghost var items: seq<T>
    ghost var Repr: set<object>

    /** `next` leads from `head` through `nodes` to the last node and from
        there back to `head`, `prev` leads the other way round, every node is
        on the ring once, and `listSize` counts the nodes. */
    ghost predicate Valid()
      reads this, Repr
    {
      && this in Repr
      && (forall i :: 0 <= i < |nodes| ==> nodes[i] in Repr)
      && |nodes| == |items| == listSize
      && Distinct(nodes)
      && (forall i :: 0 <= i < |nodes| ==> nodes[i].data == items[i])
      && (forall i :: 0 <= i < |nodes| - 1 ==> nodes[i].next == nodes[i + 1])
      && (forall i :: 0 < i < |nodes| ==> nodes[i].prev == nodes[i - 1])
      && (nodes == [] ==> head == null)
      && (nodes != [] ==> head == nodes[0] && head.prev == nodes[|nodes| - 1] && nodes[|nodes| - 1].next == head)
    }

    constructor()
      ensures Valid() && fresh(Repr) && items == []
    {
      head, listSize := null, 0;
      nodes, items, Repr := [], [], {this};
    }

    /** The copy constructor: addLast of the value of every node of `other`,
        once round its ring from the head; the copy owns new nodes. */
    constructor Copy(other: CircularDoublyLinkedList<T>)
      requires other.Valid()
      ensures Valid() && fresh(Repr) && items == other.items
    {
      head, listSize := null, 0;
      nodes, items, Repr := [], [], {this};
      new;
      if other.head != null {
        var current := other.head;
        ghost var i := 0;
        while true
          invariant Valid() && fresh(Repr) && other.Valid()
          invariant i < |other.nodes| && current == other.nodes[i]
          invariant items == other.items[..i]
          decreases |other.nodes| - i
        {
          AddLast(current.data);
          assert other.items[..i + 1] == other.items[..i] + [other.items[i]];
          assert i + 1 < |other.nodes| ==> current.next == other.nodes[i + 1];
          current := current.next;
          i := i + 1;
          if current == other.head {
            break;
          }
        }
        assert other.items[..i] == other.items;
      }
    }

    /** addFirst: a new node in between the last node and `head`, which
        then moves back to it; on an empty list a node that rings to itself
        both ways. */
    method AddFirst(v: T)
      requires Valid()
      modifies Repr
      ensures Valid() && fresh(Repr - old(Repr))
      ensures items == [v] + old(items)
      ensures fresh(nodes[0]) && nodes[1..] == old(nodes)
    {
      var node := new DoublyNode(v);
      if head == null {
        head := node;
        node.next := node;
        node.prev := node;
        listSize := listSize + 1;
        nodes, items, Repr := [node] + nodes, [v] + items, Repr + {node};
      } else {
        ghost var chain, values := nodes, items;
        var tail := head.prev;
        Splice(tail, node, head);
        head := node;
        listSize := listSize + 1;
        nodes, items, Repr := [node] + nodes, [v] + items, Repr + {node};
        EndSplicedValid(chain, values, node);
      }
    }

    /** A ring linked both ways except in between its last node and its
        first, where a new node has been spliced in, is a valid list with
        that node at either end. */
    lemma EndSplicedValid(chain: seq<DoublyNode<T>>, values: seq<T>, node: DoublyNode<T>)
      requires 0 < |chain| == |values| && listSize == |chain| + 1
      requires this in Repr && node in Repr && Distinct(chain) && node !in chain
      requires forall k :: 0 <= k < |chain| ==> chain[k] in Repr && chain[k].data == values[k]
      requires forall k :: 0 <= k < |chain| - 1 ==> chain[k].next == chain[k + 1]
      requires forall k :: 0 < k < |chain| ==> chain[k].prev == chain[k - 1]
      requires chain[|chain| - 1].next == node && node.prev == chain[|chain| - 1]
      requires node.next == chain[0] && chain[0].prev == node
      requires || (head == node && nodes == [node] + chain && items == [node.data] + values)
               || (head == chain[0] && nodes == chain + [node] && items == values + [node.data])
      ensures Valid()
    {
      if head == node {
        forall i, j | 0 <= i < j < |nodes|
          ensures nodes[i] != nodes[j]
        {
          if i > 0 {
            assert nodes[i] == chain[i - 1] && nodes[j] == chain[j - 1];
          }
        }
        forall k | 0 <= k < |nodes| - 1
          ensures nodes[k].next == nodes[k + 1]
        {
          if k > 0 {
            assert nodes[k] == chain[k - 1] && nodes[k + 1] == chain[k];
          }
        }
        forall k | 0 < k < |nodes|
          ensures nodes[k].prev == nodes[k - 1]
        {
          if k > 1 {
            assert nodes[k] == chain[k - 1] && nodes[k - 1] == chain[k - 2];
          }
        }
      } else {
        forall i, j | 0 <= i < j < |nodes|
          ensures nodes[i] != nodes[j]
        {
          if j < |chain| {
            assert nodes[i] == chain[i] && nodes[j] == chain[j];
          }
        }
        forall k | 0 <= k < |nodes| - 1
          ensures nodes[k].next == nodes[k + 1]
        {
          if k < |chain| - 1 {
            assert nodes[k] == chain[k] && nodes[k + 1] == chain[k + 1];
          }
        }
        forall k | 0 < k < |nodes|
          ensures nodes[k].prev == nodes[k - 1]
        {
          if k < |chain| {
            assert nodes[k] == chain[k] && nodes[k - 1] == chain[k - 1];
          }
        }
      }
    }

    /** addLast: addFirst on an empty list; otherwise a new node in between
        the last node and `head`, which stays where it is. */
    method AddLast(v: T)
      requires Valid()
      modifies Repr
      ensures Valid() && fresh(Repr - old(Repr))
      ensures items == old(items) + [v]
      ensures fresh(nodes[|nodes| - 1]) && nodes[..|nodes| - 1] == old(nodes)
    {
      if head == null {
        AddFirst(v);
        return;
      }
      ghost var chain, values := nodes, items;
      var node := new DoublyNode(v);
      var tail := head.prev;
      Splice(tail, node, head);
      listSize := listSize + 1;
      nodes, items, Repr := nodes + [node], items + [v], Repr + {node};
      EndSplicedValid(chain, values, node);
    }

    /** getNodeAt: the node at `index`, walked to along `next` from `head`
        when the index lies in the first half, otherwise along `prev`, one
        step for each position from the size down to the index. */
    method NodeAt(index: nat) returns (node: DoublyNode<T>)
      requires Valid() && index < |nodes|
      ensures node == nodes[index]
    {
      var current := head;
      if index < listSize / 2 {
        var i := 0;
        while i < index
          invariant i <= index && current == nodes[i]
        {
          current := current.next;
          i := i + 1;
        }
      } else {
        var i := listSize;
        while i > index
          invariant index <= i <= |nodes| && current == (if i == |nodes| then nodes[0] else nodes[i])
        {
          assert current.prev == nodes[i - 1];
          current := current.prev;
          i := i - 1;
        }
      }
      return current;
    }

    /** The splice of addAt: a new node holding `v` linked in between
        `current`, at position `index`, and its predecessor. */
    method LinkBefore(current: DoublyNode<T>, index: nat, v: T)
      requires Valid() && 0 < index < |nodes| && current == nodes[index]
      modifies Repr
      ensures Valid() && fresh(Repr - old(Repr))
      ensures items == InsertAt(old(items), index, v)
      ensures nodes == InsertAt(old(nodes), index, nodes[index]) && fresh(nodes[index])
    {
      ghost var chain, values := nodes, items;
      assert current.prev == chain[index - 1];
      var node := new DoublyNode(v);
      Splice(current.prev, node, current);
      listSize := listSize + 1;
      nodes, items, Repr := InsertAt(nodes, index, node), InsertAt(items, index, v), Repr + {node};
      SplicedValid(chain, values, index, node);
    }

    /** A ring linked both ways except around a node spliced in between
        positions `index - 1` and `index` is a valid list once the node is
        counted in. */
    lemma SplicedValid(chain: seq<DoublyNode<T>>, values: seq<T>, index: nat, node: DoublyNode<T>)
      requires 0 < index < |chain| == |values| && listSize == |chain| + 1
      requires this in Repr && node in Repr && Distinct(chain) && node !in chain
      requires forall k :: 0 <= k < |chain| ==> chain[k] in Repr && chain[k].data == values[k]
      requires forall k :: 0 <= k < |chain| - 1 && k != index - 1 ==> chain[k].next == chain[k + 1]
      requires forall k :: 0 < k < |chain| && k != index ==> chain[k].prev == chain[k - 1]
      requires chain[index - 1].next == node && node.prev == chain[index - 1]
      requires node.next == chain[index] && chain[index].prev == node
      requires head == chain[0] && head.prev == chain[|chain| - 1] && chain[|chain| - 1].next == head
      requires nodes == InsertAt(chain, index, node) && items == InsertAt(values, index, node.data)
      ensures Valid()
    {
      forall i, j | 0 <= i < j < |nodes|
        ensures nodes[i] != nodes[j]
      {
        if i < index && index < j {
          assert nodes[i] == chain[i] && nodes[j] == chain[j - 1];
        }
      }
      forall k | 0 <= k < |nodes| - 1
        ensures nodes[k].next == nodes[k + 1]
      {
        if k < index - 1 {
          assert nodes[k] == chain[k] && nodes[k + 1] == chain[k + 1];
        } else if k > index {
          assert nodes[k] == chain[k - 1] && nodes[k + 1] == chain[k];
        }
      }
      forall k | 0 < k < |nodes|
        ensures nodes[k].prev == nodes[k - 1]
      {
        if k < index {
          assert nodes[k] == chain[k] && nodes[k - 1] == chain[k - 1];
        } else if k > index + 1 {
          assert nodes[k] == chain[k - 1] && nodes[k - 1] == chain[k - 2];
        }
      }
    }

    /** addAt: out_of_range past the end; position 0 is addFirst, position
        size is addLast, and otherwise the new node goes in front of the
        node getNodeAt finds. */
    method AddAt(index: nat, v: T) returns (o: Outcome)
      requires Valid()
      modifies Repr
      ensures Valid() && fresh(Repr - old(Repr))
      ensures index > |old(items)| ==> o == Fail(OutOfRange) && items == old(items) && nodes == old(nodes)
      ensures index <= |old(items)| ==> o == Pass && items == InsertAt(old(items), index, v)
      ensures index <= |old(items)| ==> nodes == InsertAt(old(nodes), index, nodes[index]) && fresh(nodes[index])
    {
      if index > listSize {
        return Fail(OutOfRange);
      }
      if index == 0 {
        AddFirst(v);
        return Pass;
      }
      if index == listSize {
        AddLast(v);
        return Pass;
      }
      var current := NodeAt(index);
      LinkBefore(current, index, v);
      return Pass;
    }

    /** removeFirst: runtime_error on an empty list; a node that rings to
        itself empties the list; otherwise `head` moves on and the ring
        closes between the new head and the last node. */
    method RemoveFirst() returns (r: Result<T>)
      requires Valid()
      modifies Repr
      ensures Valid() && Repr == old(Repr)
      ensures old(items) == [] ==> r == Err(RuntimeError) && items == old(items) && nodes == old(nodes)
      ensures old(items) != [] ==> r == Ok(old(items)[0]) && items == old(items)[1..] && nodes == old(nodes)[1..]
    {
      if head == null {
        return Err(RuntimeError);
      }
      r := Ok(head.data);
      if head.next == head {
        head := null;
      } else {
        assert head.next == nodes[1];
        var tail := head.prev;
        head := head.next;
        head.prev := tail;
        tail.next := head;
      }
      listSize := listSize - 1;
      nodes, items := nodes[1..], items[1..];
    }

    /** removeLast: runtime_error on an empty list; a lone node goes through
        removeFirst; otherwise the predecessor of `head` is unlinked and the
        ring closes between the node before it and `head`. */
    method RemoveLast() returns (r: Result<T>)
      requires Valid()
      modifies Repr
      ensures Valid() && Repr == old(Repr)
      ensures old(items) == [] ==> r == Err(RuntimeError) && items == old(items) && nodes == old(nodes)
      ensures old(items) != [] ==> r == Ok(old(items)[|old(items)| - 1])
      ensures old(items) != [] ==> items == old(items)[..|old(items)| - 1] && nodes == old(nodes)[..|old(nodes)| - 1]
    {
      if head == null {
        return Err(RuntimeError);
      }
      if head.next == head {
        r := RemoveFirst();
        return;
      }
      var tail := head.prev;
      assert tail.prev == nodes[|nodes| - 2];
      r := Ok(tail.data);
      tail.prev.next := head;
      head.prev := tail.prev;
      listSize := listSize - 1;
      nodes, items := nodes[..|nodes| - 1], items[..|items| - 1];
    }

    /** The unlinking of removeAt: the inner node `node` at `index` leaves
        the ring, its neighbours linked to each other. */
    method Unlink(node: DoublyNode<T>, ghost index: nat)
      requires Valid() && 0 < index < |nodes| - 1 && node == nodes[index]
      modifies Repr
      ensures Valid() && Repr == old(Repr)
      ensures items == ListSpec.RemoveAt(old(items), index) && nodes == ListSpec.RemoveAt(old(nodes), index)
    {
      assert node.prev == nodes[index - 1] && node.next == nodes[index + 1];
      node.prev.next := node.next;
      node.next.prev := node.prev;
      listSize := listSize - 1;
      nodes, items := ListSpec.RemoveAt(nodes, index), ListSpec.RemoveAt(items, index);
    }

    /** removeAt: out_of_range at or past the end; the first and last
        positions go through removeFirst and removeLast, any other node is
        unlinked from its neighbours. */
    method RemoveAt(index: nat) returns (r: Result<T>)
      requires Valid()
      modifies Repr
      ensures Valid() && Repr == old(Repr)
      ensures index >= |old(items)| ==> r == Err(OutOfRange) && items == old(items) && nodes == old(nodes)
      ensures index < |old(items)| ==> r == Ok(old(items)[index])
      ensures index < |old(items)| ==> items == ListSpec.RemoveAt(old(items), index) && nodes == ListSpec.RemoveAt(old(nodes), index)
    {
      if index >= listSize {
        return Err(OutOfRange);
      }
      if index == 0 {
        r := RemoveFirst();
        ListSpec.RemoveAtEnds(old(items));
        ListSpec.RemoveAtEnds(old(nodes));
        return;
      }
      if index == listSize - 1 {
        r := RemoveLast();
        ListSpec.RemoveAtEnds(old(items));
        ListSpec.RemoveAtEnds(old(nodes));
        return;
      }
      var toDelete := NodeAt(index);
      r := Ok(toDelete.data);
      Unlink(toDelete, index);
    }

    /** The unlinking of remove, from a ring of two nodes or more: the node
        `current` at `index` leaves the ring, its neighbours linked to each
        other, and `head` moves on when it was the head. */
    method UnlinkFromRing(current: DoublyNode<T>, ghost index: nat)
      requires Valid() && 2 <= |nodes| && index < |nodes| && current == nodes[index]
      modifies Repr
      ensures Valid() && Repr == old(Repr)
      ensures items == ListSpec.RemoveAt(old(items), index) && nodes == ListSpec.RemoveAt(old(nodes), index)
    {
      ghost var chain, values := nodes, items;
      ghost var n := |nodes|;
      ghost var before := if index == 0 then n - 1 else index - 1;
      ghost var after := if index == n - 1 then 0 else index + 1;
      assert current.prev == chain[before] && current.next == chain[after];
      Bypass(current.prev, current.next);
      if current == head {
        head := head.next;
      }
      listSize := listSize - 1;
      nodes, items := ListSpec.RemoveAt(nodes, index), ListSpec.RemoveAt(items, index);
      UnlinkedValid(chain, values, index, before, after);
    }

    /** A ring linked both ways except around the node at `index`, whose
        neighbours at `before` and `after` are linked to each other, is a
        valid list once that node is taken out and `head` is past it. */
    lemma UnlinkedValid(chain: seq<DoublyNode<T>>, values: seq<T>, index: nat, before: nat, after: nat)
      requires 2 <= |chain| == |values| && index < |chain| && listSize == |chain| - 1
      requires before == (if index == 0 then |chain| - 1 else index - 1)
      requires after == (if index == |chain| - 1 then 0 else index + 1)
      requires this in Repr && Distinct(chain)
      requires forall k :: 0 <= k < |chain| ==> chain[k] in Repr && chain[k].data == values[k]
      requires forall k :: 0 <= k < |chain| - 1 && k != before ==> chain[k].next == chain[k + 1]
      requires forall k :: 0 < k < |chain| && k != after ==> chain[k].prev == chain[k - 1]
      requires before != |chain| - 1 ==> chain[|chain| - 1].next == chain[0]
      requires after != 0 ==> chain[0].prev == chain[|chain| - 1]
      requires chain[before].next == chain[after] && chain[after].prev == chain[before]
      requires head == (if index == 0 then chain[1] else chain[0])
      requires nodes == ListSpec.RemoveAt(chain, index) && items == ListSpec.RemoveAt(values, index)
      ensures Valid()
    {
      var n := |chain|;
      assert nodes[0] == (if index == 0 then chain[1] else chain[0]);
      assert nodes[n - 2] == (if index == n - 1 then chain[n - 2] else chain[n - 1]);
      forall i, j | 0 <= i < j < |nodes|
        ensures nodes[i] != nodes[j]
      {
        if i < index && index <= j {
          assert nodes[i] == chain[i] && nodes[j] == chain[j + 1];
        }
      }
      forall k | 0 <= k < |nodes| - 1
        ensures nodes[k].next == nodes[k + 1]
      {
        if k < index - 1 {
          assert nodes[k] == chain[k] && nodes[k + 1] == chain[k + 1];
        } else if k >= index {
          assert nodes[k] == chain[k + 1] && nodes[k + 1] == chain[k + 2];
        }
      }
      forall k | 0 < k < |nodes|
        ensures nodes[k].prev == nodes[k - 1]
      {
        if k < index {
          assert nodes[k] == chain[k] && nodes[k - 1] == chain[k - 1];
        } else if k == index {
          assert nodes[k] == chain[after] && nodes[k - 1] == chain[before];
        } else {
          assert nodes[k] == chain[k + 1] && nodes[k - 1] == chain[k];
        }
      }
    }

    /** remove: walks once round the ring from `head` to the first node
        holding `v`; a lone node empties the list, any other node is
        unlinked from its neighbours. */
    method Remove(v: T) returns (found: bool)
      requires Valid()
      modifies Repr
      ensures Valid() && Repr == old(Repr)
      ensures found <==> v in old(items)
      ensures found ==> items == ListSpec.RemoveAt(old(items), ListSpec.IndexOf(old(items), v))
      ensures found ==> nodes == ListSpec.RemoveAt(old(nodes), ListSpec.IndexOf(old(items), v))
      ensures !found ==> items == old(items) && nodes == old(nodes)
    {
      if head == null {
        return false;
      }
      var current := head;
      ghost var i := 0;
      while true
        invariant i < |nodes| && current == nodes[i] && v !in items[..i]
        decreases |nodes| - i
      {
        if current.data == v {
          assert ListSpec.IndexOf(items, v) == i;
          assert |nodes| >= 2 ==> head.next == nodes[1];
          if current == head && head.next == head {
            head := null;
            listSize := listSize - 1;
            nodes, items := [], [];
          } else {
            UnlinkFromRing(current, i);
          }
          return true;
        }
        assert items[..i + 1] == items[..i] + [items[i]];
        assert i + 1 < |nodes| ==> current.next == nodes[i + 1];
        current := current.next;
        i := i + 1;
        if current == head {
          assert items[..i] == items;
          return false;
        }
      }
    }

    /** get and operator[]: out_of_range at or past the end, otherwise the
        value of the node getNodeAt finds. */
    method Get(index: nat) returns (r: Result<T>)
      requires Valid()
      ensures index >= |items| ==> r == Err(OutOfRange)
      ensures index < |items| ==> r == Ok(items[index])
    {
      if index >= listSize {
        return Err(OutOfRange);
      }
      var node := NodeAt(index);
      return Ok(node.data);
    }

    /** front: the value at `head`. */
    method Front() returns (r: Result<T>)
      requires Valid()
      ensures items == [] ==> r == Err(RuntimeError)
      ensures items != [] ==> r == Ok(items[0])
    {
      if head == null {
        return Err(RuntimeError);
      }
      return Ok(head.data);
    }

    /** back: the value at the predecessor of `head`. */
    method Back() returns (r: Result<T>)
      requires Valid()
      ensures items == [] ==> r == Err(RuntimeError)
      ensures items != [] ==> r == Ok(items[|items| - 1])
    {
      if head == null {
        return Err(RuntimeError);
      }
      return Ok(head.prev.data);
    }

    /** indexOf: walks once round the ring from `head`, counting, to the
        first node holding `v`. */
    method IndexOf(v: T) returns (r: int)
      requires Valid()
      ensures r == ListSpec.IndexOf(items, v)
    {
      if head == null {
        return -1;
      }
      var current := head;
      var index := 0;
      while true
        invariant index < |nodes| && current == nodes[index] && v !in items[..index]
        decreases |nodes| - index
      {
        if current.data == v {
          return index;
        }
        assert items[..index + 1] == items[..index] + [items[index]];
        assert index + 1 < |nodes| ==> current.next == nodes[index + 1];
        current := current.next;
        index := index + 1;
        if current == head {
          assert items[..index] == items;
          return -1;
        }
      }
    }

    /** lastIndexOf: walks once round the ring from `head`, remembering the
        latest position holding `v`. */
    method LastIndexOf(v: T) returns (r: int)
      requires Valid()
      ensures r == ListSpec.LastIndexOf(items, v)
    {
      if head == null {
        return -1;
      }
      var current := head;
      var index := 0;
      var lastFound := -1;
      while true
        invariant index < |nodes| && current == nodes[index] && -1 <= lastFound < index
        invariant lastFound == -1 ==> v !in items[..index]
        invariant 0 <= lastFound ==> items[lastFound] == v && v !in items[lastFound + 1..index]
        decreases |nodes| - index
      {
        if current.data == v {
          lastFound := index;
        }
        assert index + 1 < |nodes| ==> current.next == nodes[index + 1];
        current := current.next;
        index := index + 1;
        if current == head {
          assert items[..index] == items;
          if lastFound >= 0 {
            assert items[lastFound + 1..index] == items[lastFound + 1..];
          }
          return lastFound;
        }
      }
    }

    /** contains: indexOf found a position. */
    method Contains(v: T) returns (b: bool)
      requires Valid()
      ensures b <==> v in items
    {
      var i := IndexOf(v);
      b := i != -1;
    }

    method Size() returns (n: nat)
      requires Valid()
      ensures n == |items|
    {
      return listSize;
    }

    method IsEmpty() returns (b: bool)
      requires Valid()
      ensures b <==> items == []
    {
      return listSize == 0;
    }

    /** clear: every node is freed and the list is left empty. */
    method Clear()
      requires Valid()
      modifies this
      ensures Valid() && Repr == old(Repr) && items == [] && nodes == []
    {
      head, listSize := null, 0;
      nodes, items := [], [];
    }

    /** The loop of reverse: walks once round the ring from `head`,
        exchanging `prev` and `next` of every node. */
    method ExchangeLinks()
      requires Valid() && |nodes| >= 2
      modifies Repr
      ensures unchanged(this) && Distinct(nodes)
      ensures forall k :: 0 <= k < |nodes| ==> nodes[k].data == items[k]
      ensures forall k :: 0 <= k < |nodes| ==> nodes[k].next == old(nodes[k].prev) && nodes[k].prev == old(nodes[k].next)
      ensures forall k :: 0 < k < |nodes| ==> nodes[k].next == nodes[k - 1]
      ensures forall k :: 0 <= k < |nodes| - 1 ==> nodes[k].prev == nodes[k + 1]
      ensures nodes[0].next == nodes[|nodes| - 1] && nodes[|nodes| - 1].prev == nodes[0]
    {
      var current := head;
      ghost var n := |nodes|;
      ghost var i := 0;
      while true
        invariant unchanged(this) && Distinct(nodes)
        invariant i < n && current == nodes[i]
        invariant forall k :: 0 <= k < n ==> nodes[k].data == items[k]
        invariant forall k :: 0 <= k < i ==> nodes[k].next == old(nodes[k].prev) && nodes[k].prev == old(nodes[k].next)
        invariant forall k :: i <= k < n ==> nodes[k].next == old(nodes[k].next) && nodes[k].prev == old(nodes[k].prev)
        decreases n - i
      {
        assert i + 1 < n ==> old(nodes[i].next) == nodes[i + 1];
        var temp := current.next;
        current.next := current.prev;
        current.prev := temp;
        current := temp;
        i := i + 1;
        if current == head {
          break;
        }
      }
    }

    /** reverse: lists of fewer than two nodes are left alone; otherwise
        `prev` and `next` of every node are exchanged and `head` moves on to
        what is now its successor, the old last node. */
    method Reverse()
      requires Valid()
      modifies Repr
      ensures Valid() && Repr == old(Repr)
      ensures items == ListSpec.Reverse(old(items)) && nodes == ListSpec.Reverse(old(nodes))
    {
      if head == null || head.next == head {
        return;
      }
      ghost var chain, values := nodes, items;
      ghost var n := |chain|;
      assert chain[n - 1].next == head;
      ExchangeLinks();
      assert head == chain[0] && head.next == chain[n - 1];
      head := head.next;
      nodes, items := ListSpec.Reverse(chain), ListSpec.Reverse(values);
      ReversedValid(chain, values);
    }

    /** The ring left by the exchange of links, read from its far end, is a
        valid list once `head` has moved on to the old last node. */
    lemma ReversedValid(chain: seq<DoublyNode<T>>, values: seq<T>)
      requires this in Repr && 2 <= |chain| == |values| == listSize && Distinct(chain)
      requires forall k :: 0 <= k < |chain| ==> chain[k] in Repr && chain[k].data == values[k]
      requires forall k :: 0 < k < |chain| ==> chain[k].next == chain[k - 1]
      requires forall k :: 0 <= k < |chain| - 1 ==> chain[k].prev == chain[k + 1]
      requires chain[0].next == chain[|chain| - 1] && chain[|chain| - 1].prev == chain[0]
      requires head == chain[|chain| - 1]
      requires nodes == ListSpec.Reverse(chain) && items == ListSpec.Reverse(values)
      ensures Valid()
    {
      ReversedChain(chain, values, Repr);
    }

    /** The exchange of a pass of sort: the nodes at `j` and `j + 1` trade
        their data. */
    method ExchangeData(current: DoublyNode<T>, next: DoublyNode<T>, ghost j: nat)
      requires Valid() && j + 1 < |nodes| && current == nodes[j] && next == nodes[j + 1]
      modifies this, current, next
      ensures Valid() && Repr == old(Repr) && nodes == old(nodes)
      ensures head == old(head) && items == Swap(old(items), j)
    {
      ghost var values := items;
      current.data, next.data := next.data, current.data;
      items := Swap(items, j);
      SwappedValid(values, j);
    }

    /** A valid ring whose nodes at `j` and `j + 1` have traded their data
        is valid for the values traded the same way. */
    lemma SwappedValid(values: seq<T>, j: nat)
      requires this in Repr && j + 1 < |nodes| == |values| == listSize && Distinct(nodes)
      requires forall k :: 0 <= k < |nodes| ==> nodes[k] in Repr
      requires forall k :: 0 <= k < |nodes| && k != j && k != j + 1 ==> nodes[k].data == values[k]
      requires nodes[j].data == values[j + 1] && nodes[j + 1].data == values[j]
      requires forall k :: 0 <= k < |nodes| - 1 ==> nodes[k].next == nodes[k + 1]
      requires forall k :: 0 < k < |nodes| ==> nodes[k].prev == nodes[k - 1]
      requires head == nodes[0] && head.prev == nodes[|nodes| - 1] && nodes[|nodes| - 1].next == head
      requires items == Swap(values, j)
      ensures Valid()
    {
    }

    /** The step of a pass of sort at position `j`: `current` and `next`
        exchange their data when `next` is not `head` and the strict
        comparison rejects their order. */
    method PassStep(key: T -> int, ascending: bool, ghost r0: seq<T>, current: DoublyNode<T>, next: DoublyNode<T>, ghost j: nat, ghost m: nat, swapped0: bool)
      returns (swapped: bool)
      requires Valid() && j + 1 < |nodes| && current == nodes[j] && next == nodes[j + 1]
      requires PassState(key, ascending, r0, items, j, m, swapped0)
      modifies this, current, next
      ensures Valid() && Repr == old(Repr) && nodes == old(nodes) && head == old(head)
      ensures PassState(key, ascending, r0, items, j + 1, m, swapped)
    {
      var shouldSwap := if ascending then key(current.data) > key(next.data) else key(current.data) < key(next.data);
      if next != head && shouldSwap {
        PassSwap(key, ascending, r0, items, j, m, swapped0);
        ExchangeData(current, next, j);
        swapped := true;
      } else {
        PassKeep(key, ascending, r0, items, j, m, swapped0);
        swapped := swapped0;
      }
    }

    /** One pass of sort: walk from `head` until the successor of `current`
        is `head` again, exchanging the data of `current` and its successor
        when that successor is not `head` and the strict comparison rejects
        their order; the nodes stay where they are. */
    method SortPass(key: T -> int, ascending: bool, ghost m: nat) returns (swapped: bool)
      requires Valid() && |items| >= 2 && m <= |items| && Settled(key, ascending, items, m)
      modifies Repr
      ensures Valid() && Repr == old(Repr) && nodes == old(nodes)
      ensures multiset(items) == multiset(old(items)) && Stable(key, old(items), items)
      ensures Settled(key, ascending, items, if m < |items| then m + 1 else m)
      ensures !swapped ==> items == old(items) && Sorted(key, ascending, items)
      ensures m == |items| ==> !swapped
    {
      swapped := false;
      var current := head;
      ghost var j := 0;
      while true
        invariant Valid() && Repr == old(Repr) && nodes == old(nodes)
        invariant j + 1 < |nodes| && current == nodes[j]
        invariant PassState(key, ascending, old(items), items, j, m, swapped)
        decreases |nodes| - j
      {
        var next := current.next;
        assert next == nodes[j + 1];
        assert j + 2 < |nodes| ==> next.next == nodes[j + 2];
        swapped := PassStep(key, ascending, old(items), current, next, j, m, swapped);
        current := next;
        j := j + 1;
        if current.next == head {
          break;
        }
      }
      if !swapped {
        NeighboursSorted(key, ascending, items, |items|);
      }
    }

    /** sort: bubble passes over the node data, under the order `key` gives
        the element type, until a pass exchanges nothing; lists of fewer
        than two nodes are left alone. Each pass settles one more position
        at the end, which bounds the number of passes. */
    method Sort(ascending: bool, key: T -> int)
      requires Valid()
      modifies Repr
      ensures Valid() && Repr == old(Repr) && nodes == old(nodes)
      ensures SortedStably(key, ascending, old(items), items)
      ensures items == MergeSort(key, ascending, old(items))
    {
      assert |nodes| >= 2 ==> head.next == nodes[1];
      if head == null || head.next == head {
        MergeSortCorrect(key, ascending, items);
        return;
      }
      assert |items| >= 2;
      var swapped := true;
      ghost var m := 0;
      while swapped
        invariant Valid() && Repr == old(Repr) && nodes == old(nodes) && m <= |items|
        invariant multiset(items) == multiset(old(items)) && Stable(key, old(items), items)
        invariant Settled(key, ascending, items, m)
        invariant !swapped ==> Sorted(key, ascending, items)
        decreases |items| - m + (if swapped then 1 else 0)
      {
        swapped := SortPass(key, ascending, m);
        m := if m < |items| then m + 1 else m;
      }
      SortsAgree(key, ascending, old(items), items);
    }

    /** operator+: a copy of this list with the value of every node of
        `other` appended; both operands keep their nodes. */
    method Plus(other: CircularDoublyLinkedList<T>) returns (r: CircularDoublyLinkedList<T>)
      requires Valid() && other.Valid()
      ensures fresh(r) && fresh(r.Repr) && r.Valid() && r.items == items + other.items
    {
      r := new CircularDoublyLinkedList.Copy(this);
      r.Merge(other);
    }

    /** merge: addLast of the value of every node of `other`, once round its
        ring from the head. A non-empty list merged into itself never gets
        back to its head, in front of which the ring keeps growing; two lists
        never share nodes. */
    method Merge(other: CircularDoublyLinkedList<T>)
      requires Valid() && other.Valid() && (other != this || items == [])
      requires other != this ==> Repr !! other.Repr
      modifies Repr
      ensures Valid() && fresh(Repr - old(Repr))
      ensures items == old(items) + old(other.items) && nodes[..|old(nodes)|] == old(nodes)
    {
      if other.head != null {
        ghost var source := other.items;
        var current := other.head;
        ghost var i := 0;
        while true
          invariant Valid() && fresh(Repr - old(Repr))
          invariant |old(nodes)| <= |nodes| && nodes[..|old(nodes)|] == old(nodes)
          invariant other != this && other.Valid() && other.items == source && Repr !! other.Repr
          invariant i < |source| && current == other.nodes[i]
          invariant items == old(items) + source[..i]
          decreases |source| - i
        {
          AddLast(current.data);
          assert source[..i + 1] == source[..i] + [source[i]];
          assert i + 1 < |source| ==> current.next == other.nodes[i + 1];
          current := current.next;
          i := i + 1;
          if current == other.head {
            break;
          }
        }
        assert source[..i] == source;
      }
    }
  }
}

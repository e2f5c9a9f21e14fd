// DoublyLinkedList of linked_lists/linked_lists.hpp: a chain of DoublyNode
// objects from `head` to `tail`, each linked to both of its neighbours, and
// the counter `listSize`. The ghost `nodes` lists the chain from the head and
// `items` the values its nodes hold.
module DoublyLists {
  import opened Wrappers
  import opened ListNodes
  import opened ListSpec
  import opened ListSort

  class DoublyLinkedList<T(==)> {
    var head: DoublyNode?<T>
    var tail: DoublyNode?<T>
    var listSize: nat
    ghost var nodes: seq<DoublyNode<T>>
    ghost var items: seq<T>
    ghost var Repr: set<object>

    /** `next` leads from `head` through `nodes` to `tail` and then to null,
        `prev` leads back from `tail` to `head` and then to null, every node
        is on the chain once, and `listSize` counts the nodes. */
    ghost predicate Valid()
      reads this, Repr
    {
      && this in Repr
      && (forall i :: 0 <= i < |nodes| ==> nodes[i] in Repr)
      && |nodes| == |items| == listSize
      && Distinct(nodes)
      && (forall i :: 0 <= i < |nodes| ==> nodes[i].data == items[i])
      && (forall i :: 0 <= i < |nodes| - 1 ==> nodes[i].next == nodes[i + 1])
      && (forall i :: 0 < i < |nodes| ==> nodes[i].prev == nodes[i - 1])
      && (nodes == [] ==> head == null && tail == null)
      && (nodes != [] ==> head == nodes[0] && head.prev == null && tail == nodes[|nodes| - 1] && tail.next == null)
    }

    constructor()
      ensures Valid() && fresh(Repr) && items == []
    {
      head, tail, listSize := null, null, 0;
      nodes, items, Repr := [], [], {this};
    }

    /** The copy constructor: addLast of the value of every node of `other`,
        walking its chain from the head; the copy owns new nodes. */
    constructor Copy(other: DoublyLinkedList<T>)
      requires other.Valid()
      ensures Valid() && fresh(Repr) && items == other.items
    {
      head, tail, listSize := null, null, 0;
      nodes, items, Repr := [], [], {this};
      new;
      var current := other.head;
      ghost var i := 0;
      while current != null
        invariant Valid() && fresh(Repr) && other.Valid()
        invariant i <= |other.nodes| && current == (if i < |other.nodes| then other.nodes[i] else null)
        invariant items == other.items[..i]
        decreases |other.nodes| - i
      {
        AddLast(current.data);
        assert other.items[..i + 1] == other.items[..i] + [other.items[i]];
        current := current.next;
        i := i + 1;
      }
      assert other.items[..i] == other.items;
    }

    /** addFirst: a new node in front of `head`, which links back to it. */
    method AddFirst(v: T)
      requires Valid()
      modifies Repr
      ensures Valid() && fresh(Repr - old(Repr))
      ensures items == [v] + old(items)
      ensures fresh(nodes[0]) && nodes[1..] == old(nodes)
    {
      var node := new DoublyNode(v);
      if head == null {
        head, tail := node, node;
      } else {
        node.next := head;
        head.prev := node;
        head := node;
      }
      listSize := listSize + 1;
      nodes, items, Repr := [node] + nodes, [v] + items, Repr + {node};
    }

    /** addLast: a new node after `tail`, which links forward to it. */
    method AddLast(v: T)
      requires Valid()
      modifies Repr
      ensures Valid() && fresh(Repr - old(Repr))
      ensures items == old(items) + [v]
      ensures fresh(nodes[|nodes| - 1]) && nodes[..|nodes| - 1] == old(nodes)
    {
      var node := new DoublyNode(v);
      if tail == null {
        head, tail := node, node;
      } else {
        node.prev := tail;
        tail.next := node;
        tail := node;
      }
      listSize := listSize + 1;
      nodes, items, Repr := nodes + [node], items + [v], Repr + {node};
    }

    /** getNodeAt: the node at `index`, walked to from the head when the
        index lies in the first half, otherwise back from the tail. */
    method NodeAt(index: nat) returns (node: DoublyNode<T>)
      requires Valid() && index < |nodes|
      ensures node == nodes[index]
    {
      if index < listSize / 2 {
        var current := head;
        var i := 0;
        while i < index
          invariant i <= index && current == nodes[i]
        {
          current := current.next;
          i := i + 1;
        }
        return current;
      }
      var current := tail;
      var i := listSize - 1;
      while i > index
        invariant index <= i < |nodes| && current == nodes[i]
      {
        current := current.prev;
        i := i - 1;
      }
      return current;
    }

    /** The splice of addAt: a new node holding `v` linked in between
        `current`, at position `index`, and its predecessor. */
    method LinkBefore(current: DoublyNode<T>, index: nat, v: T)
      requires Valid() && 0 < index < |nodes| && current == nodes[index]
      modifies Repr
      ensures Valid() && fresh(Repr - old(Repr))
      ensures items == InsertAt(old(items), index, v)
      ensures nodes == InsertAt(old(nodes), index, nodes[index]) && fresh(nodes[index])
    {
      ghost var chain, values := nodes, items;
      assert current.prev == chain[index - 1];
      var node := new DoublyNode(v);
      Splice(current.prev, node, current);
      listSize := listSize + 1;
      nodes, items, Repr := InsertAt(nodes, index, node), InsertAt(items, index, v), Repr + {node};
      SplicedValid(chain, values, index, node);
    }

    /** A chain linked both ways except around a node spliced in between
        positions `index - 1` and `index` is a valid list once the node is
        counted in. */
    lemma SplicedValid(chain: seq<DoublyNode<T>>, values: seq<T>, index: nat, node: DoublyNode<T>)
      requires 0 < index < |chain| == |values| && listSize == |chain| + 1
      requires this in Repr && node in Repr && Distinct(chain) && node !in chain
      requires forall k :: 0 <= k < |chain| ==> chain[k] in Repr && chain[k].data == values[k]
      requires forall k :: 0 <= k < |chain| - 1 && k != index - 1 ==> chain[k].next == chain[k + 1]
      requires forall k :: 0 < k < |chain| && k != index ==> chain[k].prev == chain[k - 1]
      requires chain[index - 1].next == node && node.prev == chain[index - 1]
      requires node.next == chain[index] && chain[index].prev == node
      requires head == chain[0] && head.prev == null && tail == chain[|chain| - 1] && tail.next == null
      requires nodes == InsertAt(chain, index, node) && items == InsertAt(values, index, node.data)
      ensures Valid()
    {
      forall i, j | 0 <= i < j < |nodes|
        ensures nodes[i] != nodes[j]
      {
        if i < index && index < j {
          assert nodes[i] == chain[i] && nodes[j] == chain[j - 1];
        }
      }
      forall k | 0 <= k < |nodes| - 1
        ensures nodes[k].next == nodes[k + 1]
      {
        if k < index - 1 {
          assert nodes[k] == chain[k] && nodes[k + 1] == chain[k + 1];
        } else if k > index {
          assert nodes[k] == chain[k - 1] && nodes[k + 1] == chain[k];
        }
      }
      forall k | 0 < k < |nodes|
        ensures nodes[k].prev == nodes[k - 1]
      {
        if k < index {
          assert nodes[k] == chain[k] && nodes[k - 1] == chain[k - 1];
        } else if k > index + 1 {
          assert nodes[k] == chain[k - 1] && nodes[k - 1] == chain[k - 2];
        }
      }
    }

    /** addAt: out_of_range past the end; position 0 is addFirst, position
        size is addLast, and otherwise the new node is linked in between
        the node getNodeAt finds and its predecessor. */
    method AddAt(index: nat, v: T) returns (o: Outcome)
      requires Valid()
      modifies Repr
      ensures Valid() && fresh(Repr - old(Repr))
      ensures index > |old(items)| ==> o == Fail(OutOfRange) && items == old(items) && nodes == old(nodes)
      ensures index <= |old(items)| ==> o == Pass && items == InsertAt(old(items), index, v)
      ensures index <= |old(items)| ==> nodes == InsertAt(old(nodes), index, nodes[index]) && fresh(nodes[index])
    {
      if index > listSize {
        return Fail(OutOfRange);
      }
      if index == 0 {
        AddFirst(v);
        return Pass;
      }
      if index == listSize {
        AddLast(v);
        return Pass;
      }
      var current := NodeAt(index);
      LinkBefore(current, index, v);
      return Pass;
    }

    /** removeFirst: runtime_error on an empty list; otherwise the second
        node becomes `head` and forgets its predecessor. */
    method RemoveFirst() returns (r: Result<T>)
      requires Valid()
      modifies Repr
      ensures Valid() && Repr == old(Repr)
      ensures old(items) == [] ==> r == Err(RuntimeError) && items == old(items) && nodes == old(nodes)
      ensures old(items) != [] ==> r == Ok(old(items)[0]) && items == old(items)[1..] && nodes == old(nodes)[1..]
    {
      if head == null {
        return Err(RuntimeError);
      }
      r := Ok(head.data);
      if head == tail {
        head, tail := null, null;
      } else {
        assert head.next == nodes[1];
        head := head.next;
        head.prev := null;
      }
      listSize := listSize - 1;
      nodes, items := nodes[1..], items[1..];
    }

    /** removeLast: runtime_error on an empty list; otherwise the node before
        `tail` becomes the tail and forgets its successor. */
    method RemoveLast() returns (r: Result<T>)
      requires Valid()
      modifies Repr
      ensures Valid() && Repr == old(Repr)
      ensures old(items) == [] ==> r == Err(RuntimeError) && items == old(items) && nodes == old(nodes)
      ensures old(items) != [] ==> r == Ok(old(items)[|old(items)| - 1])
      ensures old(items) != [] ==> items == old(items)[..|old(items)| - 1] && nodes == old(nodes)[..|old(nodes)| - 1]
    {
      if tail == null {
        return Err(RuntimeError);
      }
      r := Ok(tail.data);
      if head == tail {
        head, tail := null, null;
      } else {
        assert tail.prev == nodes[|nodes| - 2];
        tail := tail.prev;
        tail.next := null;
      }
      listSize := listSize - 1;
      nodes, items := nodes[..|nodes| - 1], items[..|items| - 1];
    }

    /** The unlinking of an inner node that removeAt and remove share: its
        neighbours are linked to each other. */
    method Unlink(node: DoublyNode<T>, ghost index: nat)
      requires Valid() && 0 < index < |nodes| - 1 && node == nodes[index]
      modifies Repr
      ensures Valid() && Repr == old(Repr)
      ensures items == ListSpec.RemoveAt(old(items), index) && nodes == ListSpec.RemoveAt(old(nodes), index)
    {
      assert node.prev == nodes[index - 1] && node.next == nodes[index + 1];
      node.prev.next := node.next;
      node.next.prev := node.prev;
      listSize := listSize - 1;
      nodes, items := ListSpec.RemoveAt(nodes, index), ListSpec.RemoveAt(items, index);
    }

    /** removeAt: out_of_range at or past the end; the first and last
        positions go through removeFirst and removeLast, any other node is
        unlinked from its neighbours. */
    method RemoveAt(index: nat) returns (r: Result<T>)
      requires Valid()
      modifies Repr
      ensures Valid() && Repr == old(Repr)
      ensures index >= |old(items)| ==> r == Err(OutOfRange) && items == old(items) && nodes == old(nodes)
      ensures index < |old(items)| ==> r == Ok(old(items)[index])
      ensures index < |old(items)| ==> items == ListSpec.RemoveAt(old(items), index) && nodes == ListSpec.RemoveAt(old(nodes), index)
    {
      if index >= listSize {
        return Err(OutOfRange);
      }
      if index == 0 {
        r := RemoveFirst();
        ListSpec.RemoveAtEnds(old(items));
        ListSpec.RemoveAtEnds(old(nodes));
        return;
      }
      if index == listSize - 1 {
        r := RemoveLast();
        ListSpec.RemoveAtEnds(old(items));
        ListSpec.RemoveAtEnds(old(nodes));
        return;
      }
      var toDelete := NodeAt(index);
      r := Ok(toDelete.data);
      Unlink(toDelete, index);
    }

    /** remove: walks from the head and unlinks the first node holding `v`,
        through removeFirst or removeLast when it is the head or the tail. */
    method Remove(v: T) returns (found: bool)
      requires Valid()
      modifies Repr
      ensures Valid() && Repr == old(Repr)
      ensures found <==> v in old(items)
      ensures found ==> items == ListSpec.RemoveAt(old(items), ListSpec.IndexOf(old(items), v))
      ensures found ==> nodes == ListSpec.RemoveAt(old(nodes), ListSpec.IndexOf(old(items), v))
      ensures !found ==> items == old(items) && nodes == old(nodes)
    {
      var current := head;
      ghost var i := 0;
      while current != null
        invariant i <= |nodes| && current == (if i < |nodes| then nodes[i] else null)
        invariant v !in items[..i]
        decreases |nodes| - i
      {
        if current.data == v {
          assert ListSpec.IndexOf(items, v) == i;
          if current == head {
            var _ := RemoveFirst();
          } else if current == tail {
            var _ := RemoveLast();
          } else {
            Unlink(current, i);
          }
          return true;
        }
        assert items[..i + 1] == items[..i] + [items[i]];
        current := current.next;
        i := i + 1;
      }
      assert items[..i] == items;
      return false;
    }

    /** get and operator[]: out_of_range at or past the end, otherwise the
        value of the node getNodeAt finds. */
    method Get(index: nat) returns (r: Result<T>)
      requires Valid()
      ensures index >= |items| ==> r == Err(OutOfRange)
      ensures index < |items| ==> r == Ok(items[index])
    {
      if index >= listSize {
        return Err(OutOfRange);
      }
      var node := NodeAt(index);
      return Ok(node.data);
    }

    /** front: the value at `head`. */
    method Front() returns (r: Result<T>)
      requires Valid()
      ensures items == [] ==> r == Err(RuntimeError)
      ensures items != [] ==> r == Ok(items[0])
    {
      if head == null {
        return Err(RuntimeError);
      }
      return Ok(head.data);
    }

    /** back: the value at `tail`. */
    method Back() returns (r: Result<T>)
      requires Valid()
      ensures items == [] ==> r == Err(RuntimeError)
      ensures items != [] ==> r == Ok(items[|items| - 1])
    {
      if tail == null {
        return Err(RuntimeError);
      }
      return Ok(tail.data);
    }

    /** indexOf: walks `next` from the head, counting, to the first node
        holding `v`. */
    method IndexOf(v: T) returns (r: int)
      requires Valid()
      ensures r == ListSpec.IndexOf(items, v)
    {
      var current := head;
      var index := 0;
      while current != null
        invariant index <= |nodes| && current == (if index < |nodes| then nodes[index] else null)
        invariant v !in items[..index]
        decreases |nodes| - index
      {
        if current.data == v {
          return index;
        }
        assert items[..index + 1] == items[..index] + [items[index]];
        current := current.next;
        index := index + 1;
      }
      assert items[..index] == items;
      return -1;
    }

    /** lastIndexOf: walks `prev` back from the tail, counting down, to the
        last node holding `v`. */
    method LastIndexOf(v: T) returns (r: int)
      requires Valid()
      ensures r == ListSpec.LastIndexOf(items, v)
    {
      var current := tail;
      var index := listSize as int - 1;
      while current != null
        invariant -1 <= index < |nodes| && current == (if index >= 0 then nodes[index] else null)
        invariant v !in items[index + 1..]
        decreases index + 1
      {
        if current.data == v {
          return index;
        }
        assert items[index..] == [items[index]] + items[index + 1..];
        current := current.prev;
        index := index - 1;
      }
      assert items[0..] == items;
      return -1;
    }

    /** contains: indexOf found a position. */
    method Contains(v: T) returns (b: bool)
      requires Valid()
      ensures b <==> v in items
    {
      var i := IndexOf(v);
      b := i != -1;
    }

    method Size() returns (n: nat)
      requires Valid()
      ensures n == |items|
    {
      return listSize;
    }

    method IsEmpty() returns (b: bool)
      requires Valid()
      ensures b <==> items == []
    {
      return listSize == 0;
    }

    /** clear: every node is freed and the list is left empty. */
    method Clear()
      requires Valid()
      modifies this
      ensures Valid() && Repr == old(Repr) && items == [] && nodes == []
    {
      head, tail, listSize := null, null, 0;
      nodes, items := [], [];
    }

    /** The loop of reverse: walks the chain from the head, exchanging
        `prev` and `next` of every node, and ends holding the old
        predecessor of the old tail. */
    method ExchangeLinks() returns (temp: DoublyNode?<T>)
      requires Valid()
      modifies Repr
      ensures unchanged(this) && Distinct(nodes)
      ensures temp == (if nodes == [] then null else old(nodes[|nodes| - 1].prev))
      ensures forall k :: 0 <= k < |nodes| ==> nodes[k].data == items[k]
      ensures forall k :: 0 <= k < |nodes| ==> nodes[k].next == old(nodes[k].prev) && nodes[k].prev == old(nodes[k].next)
      ensures forall k :: 0 < k < |nodes| ==> nodes[k].next == nodes[k - 1]
      ensures forall k :: 0 <= k < |nodes| - 1 ==> nodes[k].prev == nodes[k + 1]
    {
      var current := head;
      temp := null;
      ghost var n := |nodes|;
      ghost var i := 0;
      while current != null
        invariant unchanged(this) && Distinct(nodes)
        invariant i <= n && current == (if i < n then nodes[i] else null)
        invariant temp == (if i == 0 then null else old(nodes[i - 1].prev))
        invariant forall k :: 0 <= k < n ==> nodes[k].data == items[k]
        invariant forall k :: 0 <= k < i ==> nodes[k].next == old(nodes[k].prev) && nodes[k].prev == old(nodes[k].next)
        invariant forall k :: i <= k < n ==> nodes[k].next == old(nodes[k].next) && nodes[k].prev == old(nodes[k].prev)
        decreases n - i
      {
        assert i + 1 < n ==> old(nodes[i].next) == nodes[i + 1];
        temp := current.prev;
        current.prev := current.next;
        current.next := temp;
        current := current.prev;
        i := i + 1;
      }
    }

    /** reverse: exchanges `prev` and `next` of every node; then, for two
        nodes or more, the old head becomes the tail and the old tail, now
        after its old predecessor, becomes the head. */
    method Reverse()
      requires Valid()
      modifies Repr
      ensures Valid() && Repr == old(Repr)
      ensures items == ListSpec.Reverse(old(items)) && nodes == ListSpec.Reverse(old(nodes))
    {
      var temp := ExchangeLinks();
      ghost var n := |nodes|;
      assert n >= 2 ==> temp == nodes[n - 2] && temp.prev == nodes[n - 1];
      if temp != null {
        tail := head;
        head := temp.prev;
      }
      ghost var chain, values := nodes, items;
      nodes, items := ListSpec.Reverse(nodes), ListSpec.Reverse(items);
      ReversedValid(chain, values);
    }

    /** The chain left by the exchange of links, read from its far end, is
        a valid list once `head` and `tail` have traded places. */
    lemma ReversedValid(chain: seq<DoublyNode<T>>, values: seq<T>)
      requires this in Repr && |chain| == |values| == listSize && Distinct(chain)
      requires forall k :: 0 <= k < |chain| ==> chain[k] in Repr && chain[k].data == values[k]
      requires forall k :: 0 < k < |chain| ==> chain[k].next == chain[k - 1]
      requires forall k :: 0 <= k < |chain| - 1 ==> chain[k].prev == chain[k + 1]
      requires chain == [] ==> head == null && tail == null
      requires chain != [] ==> head == chain[|chain| - 1] && head.prev == null && tail == chain[0] && tail.next == null
      requires nodes == ListSpec.Reverse(chain) && items == ListSpec.Reverse(values)
      ensures Valid()
    {
      ReversedChain(chain, values, Repr);
    }

    /** The exchange of a pass of sort: the nodes at `j` and `j + 1` trade
        their data. */
    method ExchangeData(current: DoublyNode<T>, next: DoublyNode<T>, ghost j: nat)
      requires Valid() && j + 1 < |nodes| && current == nodes[j] && next == nodes[j + 1]
      modifies this, current, next
      ensures Valid() && Repr == old(Repr) && nodes == old(nodes)
      ensures head == old(head) && tail == old(tail) && items == Swap(old(items), j)
    {
      ghost var values := items;
      current.data, next.data := next.data, current.data;
      items := Swap(items, j);
      SwappedValid(values, j);
    }

    /** A valid chain whose nodes at `j` and `j + 1` have traded their data
        is valid for the values traded the same way. */
    lemma SwappedValid(values: seq<T>, j: nat)
      requires this in Repr && j + 1 < |nodes| == |values| == listSize && Distinct(nodes)
      requires forall k :: 0 <= k < |nodes| ==> nodes[k] in Repr
      requires forall k :: 0 <= k < |nodes| && k != j && k != j + 1 ==> nodes[k].data == values[k]
      requires nodes[j].data == values[j + 1] && nodes[j + 1].data == values[j]
      requires forall k :: 0 <= k < |nodes| - 1 ==> nodes[k].next == nodes[k + 1]
      requires forall k :: 0 < k < |nodes| ==> nodes[k].prev == nodes[k - 1]
      requires head == nodes[0] && head.prev == null && tail == nodes[|nodes| - 1] && tail.next == null
      requires items == Swap(values, j)
      ensures Valid()
    {
    }

    /** The step of a pass of sort at position `j`: `current` and `next`
        exchange their data when the strict comparison rejects their order. */
    method PassStep(key: T -> int, ascending: bool, ghost r0: seq<T>, current: DoublyNode<T>, next: DoublyNode<T>, ghost j: nat, ghost m: nat, swapped0: bool)
      returns (swapped: bool)
      requires Valid() && j + 1 < |nodes| && current == nodes[j] && next == nodes[j + 1]
      requires PassState(key, ascending, r0, items, j, m, swapped0)
      modifies this, current, next
      ensures Valid() && Repr == old(Repr) && nodes == old(nodes)
      ensures PassState(key, ascending, r0, items, j + 1, m, swapped)
    {
      var shouldSwap := if ascending then key(current.data) > key(next.data) else key(current.data) < key(next.data);
      if shouldSwap {
        PassSwap(key, ascending, r0, items, j, m, swapped0);
        ExchangeData(current, next, j);
        swapped := true;
      } else {
        PassKeep(key, ascending, r0, items, j, m, swapped0);
        swapped := swapped0;
      }
    }

    /** One pass of sort: walk from the head and exchange the data of every
        neighbouring pair whose order the strict comparison rejects; the
        nodes stay where they are. */
    method SortPass(key: T -> int, ascending: bool, ghost m: nat) returns (swapped: bool)
      requires Valid() && |items| >= 2 && m <= |items| && Settled(key, ascending, items, m)
      modifies Repr
      ensures Valid() && Repr == old(Repr) && nodes == old(nodes)
      ensures multiset(items) == multiset(old(items)) && Stable(key, old(items), items)
      ensures Settled(key, ascending, items, if m < |items| then m + 1 else m)
      ensures !swapped ==> items == old(items) && Sorted(key, ascending, items)
      ensures m == |items| ==> !swapped
    {
      swapped := false;
      var current := head;
      ghost var j := 0;
      while current.next != null
        invariant Valid() && Repr == old(Repr) && nodes == old(nodes)
        invariant j < |nodes| && current == nodes[j]
        invariant j + 1 < |nodes| ==> current.next == nodes[j + 1]
        invariant PassState(key, ascending, old(items), items, j, m, swapped)
        decreases |nodes| - j
      {
        var next := current.next;
        swapped := PassStep(key, ascending, old(items), current, next, j, m, swapped);
        current := next;
        j := j + 1;
      }
      if !swapped {
        NeighboursSorted(key, ascending, items, |items|);
      }
    }

    /** sort: bubble passes over the node data, under the order `key` gives
        the element type, until a pass exchanges nothing; lists of fewer
        than two nodes are left alone. Each pass settles one more position
        at the end, which bounds the number of passes. */
    method Sort(ascending: bool, key: T -> int)
      requires Valid()
      modifies Repr
      ensures Valid() && Repr == old(Repr) && nodes == old(nodes)
      ensures SortedStably(key, ascending, old(items), items)
      ensures items == MergeSort(key, ascending, old(items))
    {
      assert |nodes| >= 2 ==> head.next == nodes[1];
      if head == null || head.next == null {
        MergeSortCorrect(key, ascending, items);
        return;
      }
      assert |items| >= 2;
      var swapped := true;
      ghost var m := 0;
      while swapped
        invariant Valid() && Repr == old(Repr) && nodes == old(nodes) && m <= |items|
        invariant multiset(items) == multiset(old(items)) && Stable(key, old(items), items)
        invariant Settled(key, ascending, items, m)
        invariant !swapped ==> Sorted(key, ascending, items)
        decreases |items| - m + (if swapped then 1 else 0)
      {
        swapped := SortPass(key, ascending, m);
        m := if m < |items| then m + 1 else m;
      }
      SortsAgree(key, ascending, old(items), items);
    }

    /** operator+: a copy of this list with the value of every node of
        `other` appended; both operands keep their nodes. */
    method Plus(other: DoublyLinkedList<T>) returns (r: DoublyLinkedList<T>)
      requires Valid() && other.Valid()
      ensures fresh(r) && fresh(r.Repr) && r.Valid() && r.items == items + other.items
    {
      r := new DoublyLinkedList.Copy(this);
      r.Merge(other);
    }

    /** merge: addLast of the value of every node of `other`, walking its
        chain from the head. A non-empty list merged into itself never
        reaches the end of its growing chain; two lists never share nodes. */
    method Merge(other: DoublyLinkedList<T>)
      requires Valid() && other.Valid() && (other != this || items == [])
      requires other != this ==> Repr !! other.Repr
      modifies Repr
      ensures Valid() && fresh(Repr - old(Repr))
      ensures items == old(items) + old(other.items) && nodes[..|old(nodes)|] == old(nodes)
    {
      ghost var source := other.items;
      var current := other.head;
      ghost var i := 0;
      while current != null
        invariant Valid() && fresh(Repr - old(Repr))
        invariant |old(nodes)| <= |nodes| && nodes[..|old(nodes)|] == old(nodes)
        invariant i <= |source| && items == old(items) + source[..i]
        invariant other == this ==> current == null && source == []
        invariant other != this ==> other.Valid() && other.items == source && Repr !! other.Repr
        invariant other != this ==> i <= |other.nodes| && current == (if i < |other.nodes| then other.nodes[i] else null)
        decreases |source| - i
      {
        AddLast(current.data);
        assert source[..i + 1] == source[..i] + [source[i]];
        current := current.next;
        i := i + 1;
      }
      assert source[..i] == source;
    }
  }
}

// CircularLinkedList of linked_lists/linked_lists.hpp: a ring of SinglyNode
// objects reached through `tail`, whose successor is the head, and the
// counter `listSize`. The ghost `nodes` lists the ring from the head and
// `items` the values its nodes hold.
module CircularLists {
  import opened Wrappers
  import opened ListNodes
  import opened ListSpec
  import opened ListSort

  class CircularLinkedList<T(==)> {
    var tail: SinglyNode?<T>
    var listSize: nat
    ghost var nodes: seq<SinglyNode<T>>
    ghost var items: seq<T>
    ghost var Repr: set<object>

    /** `next` leads from the head through `nodes` to `tail` and from `tail`
        back to the head, every node is on the ring once, and `listSize`
        counts the nodes. */
    ghost predicate Valid()
      reads this, Repr
    {
      && this in Repr
      && (forall i :: 0 <= i < |nodes| ==> nodes[i] in Repr)
      && |nodes| == |items| == listSize
      && Distinct(nodes)
      && (forall i :: 0 <= i < |nodes| ==> nodes[i].data == items[i])
      && (forall i :: 0 <= i < |nodes| - 1 ==> nodes[i].next == nodes[i + 1])
      && (nodes == [] ==> tail == null)
      && (nodes != [] ==> tail == nodes[|nodes| - 1] && tail.next == nodes[0])
    }

    constructor()
      ensures Valid() && fresh(Repr) && items == []
    {
      tail, listSize := null, 0;
      nodes, items, Repr := [], [], {this};
    }

    /** The copy constructor: addLast of the value of every node of `other`,
        once round its ring from the head; the copy owns new nodes. */
    constructor Copy(other: CircularLinkedList<T>)
      requires other.Valid()
      ensures Valid() && fresh(Repr) && items == other.items
    {
      tail, listSize := null, 0;
      nodes, items, Repr := [], [], {this};
      new;
      if other.tail != null {
        var current := other.tail.next;
        ghost var i := 0;
        while true
          invariant Valid() && fresh(Repr) && other.Valid()
          invariant i < |other.nodes| && current == other.nodes[i]
          invariant items == other.items[..i]
          decreases |other.nodes| - i
        {
          AddLast(current.data);
          assert other.items[..i + 1] == other.items[..i] + [other.items[i]];
          assert i + 1 < |other.nodes| ==> current.next == other.nodes[i + 1];
          current := current.next;
          i := i + 1;
          if current == other.tail.next {
            break;
          }
        }
        assert other.items[..i] == other.items;
      }
    }

    /** addFirst: a new node in between `tail` and the head, or a node that
        rings to itself when the list is empty. */
    method AddFirst(v: T)
      requires Valid()
      modifies Repr
      ensures Valid() && fresh(Repr - old(Repr))
      ensures items == [v] + old(items)
      ensures fresh(nodes[0]) && nodes[1..] == old(nodes)
    {
      var node := new SinglyNode(v);
      if tail == null {
        tail := node;
        node.next := node;
      } else {
        node.next := tail.next;
        tail.next := node;
      }
      listSize := listSize + 1;
      nodes, items, Repr := [node] + nodes, [v] + items, Repr + {node};
    }

    /** addLast: addFirst, then `tail` moves on to the new node, which turns
        the ring so that the new node comes last. */
    method AddLast(v: T)
      requires Valid()
      modifies Repr
      ensures Valid() && fresh(Repr - old(Repr))
      ensures items == old(items) + [v]
      ensures fresh(nodes[|nodes| - 1]) && nodes[..|nodes| - 1] == old(nodes)
    {
      AddFirst(v);
      ghost var chain := nodes;
      tail := tail.next;
      nodes, items := nodes[1..] + [nodes[0]], items[1..] + [items[0]];
      forall k | 0 <= k < |nodes| - 1
        ensures nodes[k].next == nodes[k + 1]
      {
        assert nodes[k] == chain[k + 1];
        if k + 2 < |chain| {
          assert nodes[k + 1] == chain[k + 2];
        }
      }
    }

    /** getNodeAt: the node `index` steps on from the head. */
    method NodeAt(index: nat) returns (node: SinglyNode<T>)
      requires Valid() && index < |nodes|
      ensures node == nodes[index]
    {
      var current := tail.next;
      var i := 0;
      while i < index
        invariant i <= index && current == nodes[i]
      {
        current := current.next;
        i := i + 1;
      }
      return current;
    }

    /** The splice of addAt: a new node holding `v` linked in after `prev`,
        the node before position `index`. */
    method LinkAfter(prev: SinglyNode<T>, index: nat, v: T)
      requires Valid() && 0 < index < |nodes| && prev == nodes[index - 1]
      modifies Repr
      ensures Valid() && fresh(Repr - old(Repr))
      ensures items == InsertAt(old(items), index, v)
      ensures nodes == InsertAt(old(nodes), index, nodes[index]) && fresh(nodes[index])
    {
      ghost var chain, values := nodes, items;
      assert prev.next == chain[index];
      var node := new SinglyNode(v);
      node.next := prev.next;
      prev.next := node;
      listSize := listSize + 1;
      nodes, items, Repr := InsertAt(nodes, index, node), InsertAt(items, index, v), Repr + {node};
      SplicedValid(chain, values, index, node);
    }

    /** A ring linked all round except around a node spliced in between
        positions `index - 1` and `index` is a valid list once the node is
        counted in. */
    lemma SplicedValid(chain: seq<SinglyNode<T>>, values: seq<T>, index: nat, node: SinglyNode<T>)
      requires 0 < index < |chain| == |values| && listSize == |chain| + 1
      requires this in Repr && node in Repr && Distinct(chain) && node !in chain
      requires forall k :: 0 <= k < |chain| ==> chain[k] in Repr && chain[k].data == values[k]
      requires forall k :: 0 <= k < |chain| - 1 && k != index - 1 ==> chain[k].next == chain[k + 1]
      requires chain[index - 1].next == node && node.next == chain[index]
      requires tail == chain[|chain| - 1] && tail.next == chain[0]
      requires nodes == InsertAt(chain, index, node) && items == InsertAt(values, index, node.data)
      ensures Valid()
    {
      forall i, j | 0 <= i < j < |nodes|
        ensures nodes[i] != nodes[j]
      {
        if i < index && index < j {
          assert nodes[i] == chain[i] && nodes[j] == chain[j - 1];
        }
      }
      forall k | 0 <= k < |nodes| - 1
        ensures nodes[k].next == nodes[k + 1]
      {
        if k < index - 1 {
          assert nodes[k] == chain[k] && nodes[k + 1] == chain[k + 1];
        } else if k > index {
          assert nodes[k] == chain[k - 1] && nodes[k + 1] == chain[k];
        }
      }
    }

    /** addAt: out_of_range past the end; position 0 is addFirst, position
        size is addLast, and otherwise the new node is linked in after the
        node getNodeAt(index - 1) finds. */
    method AddAt(index: nat, v: T) returns (o: Outcome)
      requires Valid()
      modifies Repr
      ensures Valid() && fresh(Repr - old(Repr))
      ensures index > |old(items)| ==> o == Fail(OutOfRange) && items == old(items) && nodes == old(nodes)
      ensures index <= |old(items)| ==> o == Pass && items == InsertAt(old(items), index, v)
      ensures index <= |old(items)| ==> nodes == InsertAt(old(nodes), index, nodes[index]) && fresh(nodes[index])
    {
      if index > listSize {
        return Fail(OutOfRange);
      }
      if index == 0 {
        AddFirst(v);
        return Pass;
      }
      if index == listSize {
        AddLast(v);
        return Pass;
      }
      var prev := NodeAt(index - 1);
      LinkAfter(prev, index, v);
      return Pass;
    }

    /** removeFirst: runtime_error on an empty list; otherwise the head
        leaves the ring, which closes from `tail` to the second node, or the
        list becomes empty when the head was its only node. */
    method RemoveFirst() returns (r: Result<T>)
      requires Valid()
      modifies Repr
      ensures Valid() && Repr == old(Repr)
      ensures old(items) == [] ==> r == Err(RuntimeError) && items == old(items) && nodes == old(nodes)
      ensures old(items) != [] ==> r == Ok(old(items)[0]) && items == old(items)[1..] && nodes == old(nodes)[1..]
    {
      if tail == null {
        return Err(RuntimeError);
      }
      var head := tail.next;
      r := Ok(head.data);
      if tail == head {
        tail := null;
      } else {
        assert head.next == nodes[1];
        tail.next := head.next;
      }
      listSize := listSize - 1;
      nodes, items := nodes[1..], items[1..];
    }

    /** The end of removeLast and of remove at the tail: the node before
        `tail` closes the ring to the head and becomes the tail. */
    method UnlinkTail(current: SinglyNode<T>)
      requires Valid() && |nodes| >= 2 && current == nodes[|nodes| - 2]
      modifies Repr
      ensures Valid() && Repr == old(Repr)
      ensures items == old(items)[..|old(items)| - 1] && nodes == old(nodes)[..|old(nodes)| - 1]
    {
      current.next := tail.next;
      tail := current;
      listSize := listSize - 1;
      nodes, items := nodes[..|nodes| - 1], items[..|items| - 1];
    }

    /** removeLast: runtime_error on an empty list; a lone node empties the
        list; otherwise the walk from the head stops at the node before
        `tail`, which takes its place. */
    method RemoveLast() returns (r: Result<T>)
      requires Valid()
      modifies Repr
      ensures Valid() && Repr == old(Repr)
      ensures old(items) == [] ==> r == Err(RuntimeError) && items == old(items) && nodes == old(nodes)
      ensures old(items) != [] ==> r == Ok(old(items)[|old(items)| - 1])
      ensures old(items) != [] ==> items == old(items)[..|old(items)| - 1] && nodes == old(nodes)[..|old(nodes)| - 1]
    {
      if tail == null {
        return Err(RuntimeError);
      }
      r := Ok(tail.data);
      if tail.next == tail {
        tail := null;
        listSize := 0;
        nodes, items := [], [];
        return;
      }
      var current := tail.next;
      ghost var i := 0;
      while current.next != tail
        invariant i < |nodes| - 1 && current == nodes[i] && current.next == nodes[i + 1]
        decreases |nodes| - i
      {
        current := current.next;
        i := i + 1;
      }
      UnlinkTail(current);
    }

    /** The unlinking of removeAt: the node after `prev`, at the inner
        position `index`, leaves the ring. */
    method UnlinkAfter(prev: SinglyNode<T>, ghost index: nat) returns (value: T)
      requires Valid() && 0 < index < |nodes| - 1 && prev == nodes[index - 1]
      modifies Repr
      ensures Valid() && Repr == old(Repr) && value == old(items)[index]
      ensures items == ListSpec.RemoveAt(old(items), index) && nodes == ListSpec.RemoveAt(old(nodes), index)
    {
      ghost var chain := nodes;
      assert prev.next == chain[index] && chain[index].next == chain[index + 1];
      var toDelete := prev.next;
      value := toDelete.data;
      prev.next := toDelete.next;
      listSize := listSize - 1;
      nodes, items := ListSpec.RemoveAt(nodes, index), ListSpec.RemoveAt(items, index);
      forall k | 0 <= k < |nodes| - 1
        ensures nodes[k].next == nodes[k + 1]
      {
        if k < index - 1 {
          assert nodes[k] == chain[k] && nodes[k + 1] == chain[k + 1];
        } else if k >= index {
          assert nodes[k] == chain[k + 1] && nodes[k + 1] == chain[k + 2];
        }
      }
    }

    /** removeAt: out_of_range at or past the end; the first and last
        positions go through removeFirst and removeLast, any other node is
        unlinked after the node getNodeAt(index - 1) finds. */
    method RemoveAt(index: nat) returns (r: Result<T>)
      requires Valid()
      modifies Repr
      ensures Valid() && Repr == old(Repr)
      ensures index >= |old(items)| ==> r == Err(OutOfRange) && items == old(items) && nodes == old(nodes)
      ensures index < |old(items)| ==> r == Ok(old(items)[index])
      ensures index < |old(items)| ==> items == ListSpec.RemoveAt(old(items), index) && nodes == ListSpec.RemoveAt(old(nodes), index)
    {
      if index >= listSize {
        return Err(OutOfRange);
      }
      if index == 0 {
        r := RemoveFirst();
        ListSpec.RemoveAtEnds(old(items));
        ListSpec.RemoveAtEnds(old(nodes));
        return;
      }
      if index == listSize - 1 {
        r := RemoveLast();
        ListSpec.RemoveAtEnds(old(items));
        ListSpec.RemoveAtEnds(old(nodes));
        return;
      }
      var prev := NodeAt(index - 1);
      var value := UnlinkAfter(prev, index);
      return Ok(value);
    }

    /** The unlinking of remove once the node after `current`, at position
        `index`, holds the value: through the tail when it is the tail. */
    method UnlinkNext(current: SinglyNode<T>, ghost index: nat)
      requires Valid() && 0 < index < |nodes| && current == nodes[index - 1]
      modifies Repr
      ensures Valid() && Repr == old(Repr)
      ensures items == ListSpec.RemoveAt(old(items), index) && nodes == ListSpec.RemoveAt(old(nodes), index)
    {
      assert current.next == nodes[index];
      var toDelete := current.next;
      if toDelete == tail {
        UnlinkTail(current);
      } else {
        var _ := UnlinkAfter(current, index);
      }
    }

    /** remove: the head goes through removeFirst; otherwise the walk round
        the ring looks one node ahead of `current` until `current` is the
        tail, and unlinks the first node ahead holding `v`, moving `tail`
        back when that node is the tail. */
    method Remove(v: T) returns (found: bool)
      requires Valid()
      modifies Repr
      ensures Valid() && Repr == old(Repr)
      ensures found <==> v in old(items)
      ensures found ==> items == ListSpec.RemoveAt(old(items), ListSpec.IndexOf(old(items), v))
      ensures found ==> nodes == ListSpec.RemoveAt(old(nodes), ListSpec.IndexOf(old(items), v))
      ensures !found ==> items == old(items) && nodes == old(nodes)
    {
      if tail == null {
        return false;
      }
      var head := tail.next;
      if head.data == v {
        var _ := RemoveFirst();
        return true;
      }
      found := RemoveAhead(v);
    }

    /** The walk of remove past a head that does not hold `v`: looks one
        node ahead of `current` until `current` is the tail. */
    method RemoveAhead(v: T) returns (found: bool)
      requires Valid() && items != [] && items[0] != v
      modifies Repr
      ensures Valid() && Repr == old(Repr)
      ensures found <==> v in old(items)
      ensures found ==> items == ListSpec.RemoveAt(old(items), ListSpec.IndexOf(old(items), v))
      ensures found ==> nodes == ListSpec.RemoveAt(old(nodes), ListSpec.IndexOf(old(items), v))
      ensures !found ==> items == old(items) && nodes == old(nodes)
    {
      var current := tail.next;
      ghost var i := 0;
      while true
        invariant i < |nodes| && current == nodes[i] && v !in items[..i + 1]
        invariant i == 0 || i < |nodes| - 1
        decreases |nodes| - i
      {
        ghost var j := if i + 1 < |nodes| then i + 1 else 0;
        assert current.next == nodes[j];
        if current.next.data == v {
          assert ListSpec.IndexOf(items, v) == i + 1 by {
            assert items[..i + 2] == items[..i + 1] + [items[i + 1]];
          }
          UnlinkNext(current, i + 1);
          return true;
        }
        assert items[..j + 1] == items[..i + 1] + [items[j]] || j == 0;
        current := current.next;
        i := j;
        if current == tail {
          assert items[..i + 1] == items;
          return false;
        }
      }
    }

    /** get and operator[]: out_of_range at or past the end, otherwise the
        value of the node getNodeAt finds. */
    method Get(index: nat) returns (r: Result<T>)
      requires Valid()
      ensures index >= |items| ==> r == Err(OutOfRange)
      ensures index < |items| ==> r == Ok(items[index])
    {
      if index >= listSize {
        return Err(OutOfRange);
      }
      var node := NodeAt(index);
      return Ok(node.data);
    }

    /** front: the value at the successor of `tail`. */
    method Front() returns (r: Result<T>)
      requires Valid()
      ensures items == [] ==> r == Err(RuntimeError)
      ensures items != [] ==> r == Ok(items[0])
    {
      if tail == null {
        return Err(RuntimeError);
      }
      return Ok(tail.next.data);
    }

    /** back: the value at `tail`. */
    method Back() returns (r: Result<T>)
      requires Valid()
      ensures items == [] ==> r == Err(RuntimeError)
      ensures items != [] ==> r == Ok(items[|items| - 1])
    {
      if tail == null {
        return Err(RuntimeError);
      }
      return Ok(tail.data);
    }

    /** indexOf: walks once round the ring from the head, counting, to the
        first node holding `v`. */
    method IndexOf(v: T) returns (r: int)
      requires Valid()
      ensures r == ListSpec.IndexOf(items, v)
    {
      if tail == null {
        return -1;
      }
      var current := tail.next;
      var index := 0;
      while true
        invariant index < |nodes| && current == nodes[index] && v !in items[..index]
        decreases |nodes| - index
      {
        if current.data == v {
          return index;
        }
        assert items[..index + 1] == items[..index] + [items[index]];
        assert index + 1 < |nodes| ==> current.next == nodes[index + 1];
        current := current.next;
        index := index + 1;
        if current == tail.next {
          assert items[..index] == items;
          return -1;
        }
      }
    }

    /** lastIndexOf: walks once round the ring from the head, remembering
        the latest position holding `v`. */
    method LastIndexOf(v: T) returns (r: int)
      requires Valid()
      ensures r == ListSpec.LastIndexOf(items, v)
    {
      if tail == null {
        return -1;
      }
      var current := tail.next;
      var index := 0;
      var lastFound := -1;
      while true
        invariant index < |nodes| && current == nodes[index] && -1 <= lastFound < index
        invariant lastFound == -1 ==> v !in items[..index]
        invariant 0 <= lastFound ==> items[lastFound] == v && v !in items[lastFound + 1..index]
        decreases |nodes| - index
      {
        if current.data == v {
          lastFound := index;
        }
        assert index + 1 < |nodes| ==> current.next == nodes[index + 1];
        current := current.next;
        index := index + 1;
        if current == tail.next {
          assert items[..index] == items;
          if lastFound >= 0 {
            assert items[lastFound + 1..index] == items[lastFound + 1..];
          }
          return lastFound;
        }
      }
    }

    /** contains: indexOf found a position. */
    method Contains(v: T) returns (b: bool)
      requires Valid()
      ensures b <==> v in items
    {
      var i := IndexOf(v);
      b := i != -1;
    }

    method Size() returns (n: nat)
      requires Valid()
      ensures n == |items|
    {
      return listSize;
    }

    method IsEmpty() returns (b: bool)
      requires Valid()
      ensures b <==> items == []
    {
      return listSize == 0;
    }

    /** clear: every node is freed and the list is left empty. */
    method Clear()
      requires Valid()
      modifies this
      ensures Valid() && Repr == old(Repr) && items == [] && nodes == []
    {
      tail, listSize := null, 0;
      nodes, items := [], [];
    }

    /** The loop of reverse: walks once round the ring from the head,
        pointing every node at the node it was reached from, the head at
        `tail`. */
    method TurnLinks()
      requires Valid() && |nodes| >= 2
      modifies Repr
      ensures unchanged(this) && Distinct(nodes)
      ensures forall k :: 0 <= k < |nodes| ==> nodes[k].data == items[k]
      ensures nodes[0].next == nodes[|nodes| - 1]
      ensures forall k :: 0 <= k < |nodes| - 1 ==> nodes[k + 1].next == nodes[k]
    {
      var prev := tail;
      var current := tail.next;
      var head := tail.next;
      var next: SinglyNode?<T> := null;
      ghost var n := |nodes|;
      ghost var i := 0;
      while true
        invariant unchanged(this) && Distinct(nodes)
        invariant i < n && current == nodes[i] && prev == (if i == 0 then nodes[n - 1] else nodes[i - 1])
        invariant forall k :: 0 <= k < n ==> nodes[k].data == items[k]
        invariant 0 < i ==> nodes[0].next == nodes[n - 1]
        invariant forall k :: 0 <= k < i - 1 ==> nodes[k + 1].next == nodes[k]
        invariant forall k :: i <= k < n ==> nodes[k].next == old(nodes[k].next)
        decreases n - i
      {
        assert i + 1 < n ==> old(nodes[i].next) == nodes[i + 1];
        next := current.next;
        current.next := prev;
        prev := current;
        current := next;
        i := i + 1;
        if current == head {
          break;
        }
      }
    }

    /** reverse: lists of fewer than two nodes are left alone; otherwise
        every node is pointed back at its predecessor round the ring, and
        the old head becomes `tail`. */
    method Reverse()
      requires Valid()
      modifies Repr
      ensures Valid() && Repr == old(Repr)
      ensures items == ListSpec.Reverse(old(items)) && nodes == ListSpec.Reverse(old(nodes))
    {
      if tail == null || tail.next == tail {
        return;
      }
      var head := tail.next;
      TurnLinks();
      tail := head;
      ghost var chain := nodes;
      ghost var n := |nodes|;
      nodes, items := ListSpec.Reverse(nodes), ListSpec.Reverse(items);
      forall k | 0 <= k < n - 1
        ensures nodes[k].next == nodes[k + 1]
      {
        assert nodes[k] == chain[n - 1 - k] && nodes[k + 1] == chain[n - 2 - k];
      }
    }

    /** The exchange of a pass of sort: the nodes at `j` and `j + 1` trade
        their data. */
    method ExchangeData(current: SinglyNode<T>, next: SinglyNode<T>, ghost j: nat)
      requires Valid() && j + 1 < |nodes| && current == nodes[j] && next == nodes[j + 1]
      modifies this, current, next
      ensures Valid() && Repr == old(Repr) && nodes == old(nodes)
      ensures tail == old(tail) && items == Swap(old(items), j)
    {
      ghost var values := items;
      current.data, next.data := next.data, current.data;
      items := Swap(items, j);
      SwappedValid(values, j);
    }

    /** A valid ring whose nodes at `j` and `j + 1` have traded their data
        is valid for the values traded the same way. */
    lemma SwappedValid(values: seq<T>, j: nat)
      requires this in Repr && j + 1 < |nodes| == |values| == listSize && Distinct(nodes)
      requires forall k :: 0 <= k < |nodes| ==> nodes[k] in Repr
      requires forall k :: 0 <= k < |nodes| && k != j && k != j + 1 ==> nodes[k].data == values[k]
      requires nodes[j].data == values[j + 1] && nodes[j + 1].data == values[j]
      requires forall k :: 0 <= k < |nodes| - 1 ==> nodes[k].next == nodes[k + 1]
      requires tail == nodes[|nodes| - 1] && tail.next == nodes[0]
      requires items == Swap(values, j)
      ensures Valid()
    {
    }

    /** The step of a pass of sort at position `j`: `current` and `next`
        exchange their data when the strict comparison rejects their order. */
    method PassStep(key: T -> int, ascending: bool, ghost r0: seq<T>, current: SinglyNode<T>, next: SinglyNode<T>, ghost j: nat, ghost m: nat, swapped0: bool)
      returns (swapped: bool)
      requires Valid() && j + 1 < |nodes| && current == nodes[j] && next == nodes[j + 1]
      requires PassState(key, ascending, r0, items, j, m, swapped0)
      modifies this, current, next
      ensures Valid() && Repr == old(Repr) && nodes == old(nodes) && tail == old(tail)
      ensures PassState(key, ascending, r0, items, j + 1, m, swapped)
    {
      var shouldSwap := if ascending then key(current.data) > key(next.data) else key(current.data) < key(next.data);
      if shouldSwap {
        PassSwap(key, ascending, r0, items, j, m, swapped0);
        ExchangeData(current, next, j);
        swapped := true;
      } else {
        PassKeep(key, ascending, r0, items, j, m, swapped0);
        swapped := swapped0;
      }
    }

    /** One pass of sort: walk from the head until `current` is the tail and
        exchange the data of every neighbouring pair whose order the strict
        comparison rejects; the nodes stay where they are. */
    method SortPass(key: T -> int, ascending: bool, ghost m: nat) returns (swapped: bool)
      requires Valid() && |items| >= 2 && m <= |items| && Settled(key, ascending, items, m)
      modifies Repr
      ensures Valid() && Repr == old(Repr) && nodes == old(nodes)
      ensures multiset(items) == multiset(old(items)) && Stable(key, old(items), items)
      ensures Settled(key, ascending, items, if m < |items| then m + 1 else m)
      ensures !swapped ==> items == old(items) && Sorted(key, ascending, items)
      ensures m == |items| ==> !swapped
    {
      swapped := false;
      var current := tail.next;
      assert current.next == nodes[1];
      var next := current.next;
      ghost var j := 0;
      while true
        invariant Valid() && Repr == old(Repr) && nodes == old(nodes)
        invariant j + 1 < |nodes| && current == nodes[j] && next == nodes[j + 1]
        invariant PassState(key, ascending, old(items), items, j, m, swapped)
        decreases |nodes| - j
      {
        assert j + 2 < |nodes| ==> next.next == nodes[j + 2];
        swapped := PassStep(key, ascending, old(items), current, next, j, m, swapped);
        current := next;
        next := next.next;
        j := j + 1;
        if current == tail {
          break;
        }
      }
      if !swapped {
        NeighboursSorted(key, ascending, items, |items|);
      }
    }

    /** sort: bubble passes over the node data, under the order `key` gives
        the element type, until a pass exchanges nothing; lists of fewer
        than two nodes are left alone. Each pass settles one more position
        at the end, which bounds the number of passes. */
    method Sort(ascending: bool, key: T -> int)
      requires Valid()
      modifies Repr
      ensures Valid() && Repr == old(Repr) && nodes == old(nodes)
      ensures SortedStably(key, ascending, old(items), items)
      ensures items == MergeSort(key, ascending, old(items))
    {
      if tail == null || tail.next == tail {
        MergeSortCorrect(key, ascending, items);
        return;
      }
      assert |items| >= 2;
      var swapped := true;
      ghost var m := 0;
      while swapped
        invariant Valid() && Repr == old(Repr) && nodes == old(nodes) && m <= |items|
        invariant multiset(items) == multiset(old(items)) && Stable(key, old(items), items)
        invariant Settled(key, ascending, items, m)
        invariant !swapped ==> Sorted(key, ascending, items)
        decreases |items| - m + (if swapped then 1 else 0)
      {
        swapped := SortPass(key, ascending, m);
        m := if m < |items| then m + 1 else m;
      }
      SortsAgree(key, ascending, old(items), items);
    }

    /** operator+: a copy of this list with the value of every node of
        `other` appended; both operands keep their nodes. */
    method Plus(other: CircularLinkedList<T>) returns (r: CircularLinkedList<T>)
      requires Valid() && other.Valid()
      ensures fresh(r) && fresh(r.Repr) && r.Valid() && r.items == items + other.items
    {
      r := new CircularLinkedList.Copy(this);
      r.Merge(other);
    }

    /** merge: addLast of the value of every node of `other`, once round its
        ring from the head. A non-empty list merged into itself never gets
        back to its head, which stays ahead of the growing ring; two lists
        never share nodes. */
    method Merge(other: CircularLinkedList<T>)
      requires Valid() && other.Valid() && (other != this || items == [])
      requires other != this ==> Repr !! other.Repr
      modifies Repr
      ensures Valid() && fresh(Repr - old(Repr))
      ensures items == old(items) + old(other.items) && nodes[..|old(nodes)|] == old(nodes)
    {
      if other.tail != null {
        ghost var source := other.items;
        var current := other.tail.next;
        ghost var i := 0;
        while true
          invariant Valid() && fresh(Repr - old(Repr))
          invariant |old(nodes)| <= |nodes| && nodes[..|old(nodes)|] == old(nodes)
          invariant other != this && other.Valid() && other.items == source && Repr !! other.Repr
          invariant i < |source| && current == other.nodes[i]
          invariant items == old(items) + source[..i]
          decreases |source| - i
        {
          AddLast(current.data);
          assert source[..i + 1] == source[..i] + [source[i]];
          assert i + 1 < |source| ==> current.next == other.nodes[i + 1];
          current := current.next;
          i := i + 1;
          if current == other.tail.next {
            break;
          }
        }
        assert source[..i] == source;
      }
    }
  }
}

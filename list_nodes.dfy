// The node records of linked_lists/linked_lists.hpp: SinglyNode, which the
// circular list rings, and DoublyNode, which the doubly linked lists chain
// both ways.
module ListNodes {
  import opened ListSpec

  class SinglyNode<T> {
    var data: T
    var next: SinglyNode?<T>

    /** A node holding `v`, not yet linked to anything. */
    constructor(v: T)
      ensures data == v && next == null
    {
      data, next := v, null;
    }
  }

  class DoublyNode<T> {
    var data: T
    var prev: DoublyNode?<T>
    var next: DoublyNode?<T>

    /** A node holding `v`, not yet linked to anything. */
    constructor(v: T)
      ensures data == v && prev == null && next == null
    {
      data, prev, next := v, null, null;
    }
  }

  /** The four link updates of a splice: `node` goes in between `p` and
      `c` (the same node when it is alone on a ring), and nothing else
      about them changes. */
  method Splice<T>(p: DoublyNode<T>, node: DoublyNode<T>, c: DoublyNode<T>)
    requires p != node && node != c
    modifies p, node, c
    ensures p.next == node && node.prev == p && node.next == c && c.prev == node
    ensures p != c ==> p.prev == old(p.prev) && c.next == old(c.next)
    ensures p.data == old(p.data) && node.data == old(node.data) && c.data == old(c.data)
  {
    node.prev := p;
    node.next := c;
    p.next := node;
    c.prev := node;
  }

  /** The two link updates of an unlinking: `p` and `c`, the neighbours of
      the node taken out, are linked to each other, and nothing else about
      them changes. */
  method Bypass<T>(p: DoublyNode<T>, c: DoublyNode<T>)
    modifies p, c
    ensures p.next == c && c.prev == p
    ensures p != c ==> p.prev == old(p.prev) && c.next == old(c.next)
    ensures p.data == old(p.data) && c.data == old(c.data)
  {
    p.next := c;
    c.prev := p;
  }

  /** No node occurs twice in a chain. */
  ghost predicate Distinct<T>(s: seq<T>)
  {
    forall i, j :: 0 <= i < j < |s| ==> s[i] != s[j]
  }

  /** A chain whose links all point the other way is, read from its far
      end, a chain linked both ways that holds the reversed values. */
  lemma ReversedChain<T>(chain: seq<DoublyNode<T>>, items: seq<T>, repr: set<object>)
    requires |chain| == |items| && Distinct(chain)
    requires forall k :: 0 <= k < |chain| ==> chain[k] in repr && chain[k].data == items[k]
    requires forall k :: 0 < k < |chain| ==> chain[k].next == chain[k - 1]
    requires forall k :: 0 <= k < |chain| - 1 ==> chain[k].prev == chain[k + 1]
    ensures Distinct(Reverse(chain))
    ensures forall k :: 0 <= k < |chain| ==> Reverse(chain)[k] in repr && Reverse(chain)[k].data == Reverse(items)[k]
    ensures forall k :: 0 <= k < |chain| - 1 ==> Reverse(chain)[k].next == Reverse(chain)[k + 1]
    ensures forall k :: 0 < k < |chain| ==> Reverse(chain)[k].prev == Reverse(chain)[k - 1]
    ensures chain != [] ==> Reverse(chain)[0] == chain[|chain| - 1] && Reverse(chain)[|chain| - 1] == chain[0]
  {
    var n, r := |chain|, Reverse(chain);
    forall i, j | 0 <= i < j < n
      ensures r[i] != r[j]
    {
      assert r[i] == chain[n - 1 - i] && r[j] == chain[n - 1 - j];
    }
    forall k | 0 <= k < n - 1
      ensures r[k].next == r[k + 1]
    {
      assert r[k] == chain[n - 1 - k] && r[k + 1] == chain[n - 2 - k];
    }
    forall k | 0 < k < n
      ensures r[k].prev == r[k - 1]
    {
      assert r[k] == chain[n - 1 - k] && r[k - 1] == chain[n - k];
    }
  }
}

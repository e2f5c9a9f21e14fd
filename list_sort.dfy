// The sorts of linked_lists/linked_lists.hpp. The element type's ordering
// operators are modelled by an integer key: `a <= b` is key(a) <= key(b),
// so elements with equal keys are equivalent but may still differ, which is
// what makes stability observable.
module ListSort {

  /** comp(a, b) of SinglyLinkedList::sort: a <= b ascending, a >= b descending. */
  predicate InOrder<T>(key: T -> int, ascending: bool, a: T, b: T)
  {
    if ascending then key(a) <= key(b) else key(a) >= key(b)
  }

  /** Every element is in order with every later one. */
  ghost predicate Sorted<T>(key: T -> int, ascending: bool, s: seq<T>)
  {
    forall i, j :: 0 <= i < j < |s| ==> InOrder(key, ascending, s[i], s[j])
  }

  /** The elements of `s` whose key is `k`, in their order in `s`. */
  function KeyRun<T>(key: T -> int, k: int, s: seq<T>): (r: seq<T>)
    ensures |r| <= |s|
    ensures forall x :: x in r ==> x in s && key(x) == k
  {
    if s == [] then []
    else if key(s[0]) == k then [s[0]] + KeyRun(key, k, s[1..])
    else KeyRun(key, k, s[1..])
  }

  /** `r` holds the elements of `s` with equal-key elements in their original order. */
  ghost predicate Stable<T>(key: T -> int, s: seq<T>, r: seq<T>)
  {
    forall k :: KeyRun(key, k, r) == KeyRun(key, k, s)
  }

  /** A sorted permutation that keeps equal keys in order. */
  ghost predicate SortedStably<T>(key: T -> int, ascending: bool, s: seq<T>, r: seq<T>)
  {
    Sorted(key, ascending, r) && multiset(r) == multiset(s) && Stable(key, s, r)
  }

  lemma {:induction false} KeyRunConcat<T>(key: T -> int, k: int, a: seq<T>, b: seq<T>)
    ensures KeyRun(key, k, a + b) == KeyRun(key, k, a) + KeyRun(key, k, b)
  {
    if a == [] {
      assert a + b == b;
    } else {
      assert (a + b)[1..] == a[1..] + b;
      KeyRunConcat(key, k, a[1..], b);
    }
  }

  /** merge of SinglyLinkedList: take the head of `left` when comp(left, right) holds. */
  function Merge<T>(key: T -> int, ascending: bool, left: seq<T>, right: seq<T>): (r: seq<T>)
    ensures multiset(r) == multiset(left) + multiset(right)
    decreases |left| + |right|
  {
    if left == [] then right
    else if right == [] then left
    else if InOrder(key, ascending, left[0], right[0]) then
      assert left == [left[0]] + left[1..];
      [left[0]] + Merge(key, ascending, left[1..], right)
    else
      assert right == [right[0]] + right[1..];
      [right[0]] + Merge(key, ascending, left, right[1..])
  }

  /** mergeSort of SinglyLinkedList: the slow/fast split leaves the first
      ceil(n/2) nodes on the left. */
  function MergeSort<T>(key: T -> int, ascending: bool, s: seq<T>): (r: seq<T>)
    ensures multiset(r) == multiset(s)
    decreases |s|
  {
    if |s| <= 1 then s
    else
      var m := (|s| + 1) / 2;
      assert s == s[..m] + s[m..];
      Merge(key, ascending, MergeSort(key, ascending, s[..m]), MergeSort(key, ascending, s[m..]))
  }

  /** A head in order with every later element, before a sorted rest, is sorted. */
  lemma SortedCons<T>(key: T -> int, ascending: bool, h: T, rest: seq<T>)
    requires Sorted(key, ascending, rest)
    requires forall x :: x in multiset(rest) ==> InOrder(key, ascending, h, x)
    ensures Sorted(key, ascending, [h] + rest)
  {
    var s := [h] + rest;
    forall i, j | 0 <= i < j < |s| ensures InOrder(key, ascending, s[i], s[j]) {
      if i == 0 {
        assert s[j] == rest[j - 1];
        assert s[j] in multiset(rest);
      } else {
        assert s[i] == rest[i - 1] && s[j] == rest[j - 1];
      }
    }
  }

  lemma SortedTail<T>(key: T -> int, ascending: bool, s: seq<T>)
    requires Sorted(key, ascending, s) && s != []
    ensures Sorted(key, ascending, s[1..])
    ensures forall x :: x in multiset(s[1..]) ==> InOrder(key, ascending, s[0], x)
  {
    forall x | x in multiset(s[1..]) ensures InOrder(key, ascending, s[0], x) {
      var j :| 0 <= j < |s[1..]| && s[1..][j] == x;
      assert s[j + 1] == x;
    }
  }

  /** Merging two sorted lists gives a sorted list. */
  lemma {:induction false} MergeSorted<T>(key: T -> int, ascending: bool, left: seq<T>, right: seq<T>)
    requires Sorted(key, ascending, left) && Sorted(key, ascending, right)
    ensures Sorted(key, ascending, Merge(key, ascending, left, right))
    decreases |left| + |right|
  {
    if left != [] && right != [] {
      SortedTail(key, ascending, left);
      SortedTail(key, ascending, right);
      if InOrder(key, ascending, left[0], right[0]) {
        MergeSorted(key, ascending, left[1..], right);
        var rest := Merge(key, ascending, left[1..], right);
        assert right == [right[0]] + right[1..];
        SortedCons(key, ascending, left[0], rest);
      } else {
        MergeSorted(key, ascending, left, right[1..]);
        var rest := Merge(key, ascending, left, right[1..]);
        assert left == [left[0]] + left[1..];
        SortedCons(key, ascending, right[0], rest);
      }
    }
  }

  /** A sorted list whose head has a key other than `k` before `k` in the order has no element of key `k`. */
  lemma KeyRunPast<T>(key: T -> int, ascending: bool, s: seq<T>, k: int)
    requires Sorted(key, ascending, s) && s != []
    requires if ascending then key(s[0]) > k else key(s[0]) < k
    ensures KeyRun(key, k, s) == []
  {
    forall j | 0 < j < |s| ensures key(s[j]) != k {
      assert InOrder(key, ascending, s[0], s[j]);
    }
    assert forall x :: x in s ==> key(x) != k;
  }

  /** The run of a list with head `x`. */
  lemma KeyRunCons<T>(key: T -> int, k: int, x: T, s: seq<T>)
    ensures KeyRun(key, k, [x] + s) == (if key(x) == k then [x] else []) + KeyRun(key, k, s)
  {
    assert ([x] + s)[1..] == s;
  }

  /** Merging keeps every left element of a key before every right element of that key. */
  lemma {:induction false} MergeStable<T>(key: T -> int, ascending: bool, left: seq<T>, right: seq<T>, k: int)
    requires Sorted(key, ascending, left) && Sorted(key, ascending, right)
    ensures KeyRun(key, k, Merge(key, ascending, left, right)) == KeyRun(key, k, left) + KeyRun(key, k, right)
    decreases |left| + |right|
  {
    if left != [] && right != [] {
      SortedTail(key, ascending, left);
      SortedTail(key, ascending, right);
      if InOrder(key, ascending, left[0], right[0]) {
        MergeStable(key, ascending, left[1..], right, k);
        KeyRunCons(key, k, left[0], Merge(key, ascending, left[1..], right));
      } else {
        MergeStable(key, ascending, left, right[1..], k);
        KeyRunCons(key, k, right[0], Merge(key, ascending, left, right[1..]));
        if key(right[0]) == k {
          KeyRunPast(key, ascending, left, k);
        }
      }
    }
  }

  /** mergeSort sorts, keeps the elements, and keeps equal keys in order. */
  lemma {:induction false} MergeSortCorrect<T>(key: T -> int, ascending: bool, s: seq<T>)
    ensures SortedStably(key, ascending, s, MergeSort(key, ascending, s))
    decreases |s|
  {
    if |s| > 1 {
      var m := (|s| + 1) / 2;
      var l := MergeSort(key, ascending, s[..m]);
      var r := MergeSort(key, ascending, s[m..]);
      MergeSortCorrect(key, ascending, s[..m]);
      MergeSortCorrect(key, ascending, s[m..]);
      assert MergeSort(key, ascending, s) == Merge(key, ascending, l, r);
      MergeSorted(key, ascending, l, r);
      MergeKeepsRuns(key, ascending, s, m, l, r);
    }
  }

  /** Merging the stably sorted halves keeps the runs of the whole. */
  lemma MergeKeepsRuns<T>(key: T -> int, ascending: bool, s: seq<T>, m: nat, l: seq<T>, r: seq<T>)
    requires m <= |s|
    requires Sorted(key, ascending, l) && Sorted(key, ascending, r)
    requires Stable(key, s[..m], l) && Stable(key, s[m..], r)
    ensures Stable(key, s, Merge(key, ascending, l, r))
  {
    assert s[..m] + s[m..] == s;
    forall k ensures KeyRun(key, k, Merge(key, ascending, l, r)) == KeyRun(key, k, s) {
      MergeStable(key, ascending, l, r, k);
      KeyRunConcat(key, k, s[..m], s[m..]);
    }
  }

  /** Each element is found in the run of its own key. */
  lemma {:induction false} KeyRunHas<T>(key: T -> int, s: seq<T>, z: T)
    requires z in s
    ensures z in KeyRun(key, key(z), s)
  {
    if s[0] != z {
      KeyRunHas(key, s[1..], z);
    }
  }

  /** Lists with the same runs for every key hold the same elements. */
  lemma SameElements<T>(key: T -> int, r1: seq<T>, r2: seq<T>)
    requires Stable(key, r1, r2)
    ensures forall z :: z in r1 <==> z in r2
    ensures |r1| == 0 <==> |r2| == 0
  {
    forall z | z in r1 ensures z in r2 {
      KeyRunHas(key, r1, z);
      assert z in KeyRun(key, key(z), r2);
    }
    forall z | z in r2 ensures z in r1 {
      KeyRunHas(key, r2, z);
      assert z in KeyRun(key, key(z), r1);
    }
    assert |r1| != 0 ==> r1[0] in r2;
    assert |r2| != 0 ==> r2[0] in r1;
  }

  lemma HeadFirst<T>(key: T -> int, ascending: bool, s: seq<T>, z: T)
    requires Sorted(key, ascending, s) && z in s
    ensures InOrder(key, ascending, s[0], z)
  {
    var j :| 0 <= j < |s| && s[j] == z;
    if j > 0 {
      assert InOrder(key, ascending, s[0], s[j]);
    }
  }

  /** Two sorted, stable rearrangements of the same list are the same list:
      every correct sort gives one answer. */
  lemma {:induction false} SortedStablyUnique<T>(key: T -> int, ascending: bool, r1: seq<T>, r2: seq<T>)
    requires Sorted(key, ascending, r1) && Sorted(key, ascending, r2)
    requires Stable(key, r1, r2)
    ensures r1 == r2
    decreases |r1|
  {
    SameElements(key, r1, r2);
    if r1 != [] && r2 != [] {
      var x, y := r1[0], r2[0];
      // each head has the extreme key, so the two keys agree
      HeadFirst(key, ascending, r1, y);
      HeadFirst(key, ascending, r2, x);
      assert key(x) == key(y);
      var k := key(x);
      assert KeyRun(key, k, r1) == [x] + KeyRun(key, k, r1[1..]);
      assert KeyRun(key, k, r2) == [y] + KeyRun(key, k, r2[1..]);
      assert x == KeyRun(key, k, r1)[0] == KeyRun(key, k, r2)[0] == y;
      SortedTail(key, ascending, r1);
      SortedTail(key, ascending, r2);
      forall k' ensures KeyRun(key, k', r1[1..]) == KeyRun(key, k', r2[1..]) {
        assert KeyRun(key, k', r1) == KeyRun(key, k', r2);
        if k' == k {
          assert ([x] + KeyRun(key, k, r1[1..]))[1..] == KeyRun(key, k, r1[1..]);
          assert ([x] + KeyRun(key, k, r2[1..]))[1..] == KeyRun(key, k, r2[1..]);
        } else {
          assert KeyRun(key, k', r1) == KeyRun(key, k', r1[1..]);
          assert KeyRun(key, k', r2) == KeyRun(key, k', r2[1..]);
        }
      }
      SortedStablyUnique(key, ascending, r1[1..], r2[1..]);
      assert r1 == [x] + r1[1..] && r2 == [y] + r2[1..];
    }
  }

  /** The nodes at `j` and `j + 1` with their data exchanged. */
  function Swap<T>(s: seq<T>, j: nat): (r: seq<T>)
    requires j + 1 < |s|
    ensures |r| == |s| && r[j] == s[j + 1] && r[j + 1] == s[j]
    ensures forall i :: 0 <= i < |s| && i != j && i != j + 1 ==> r[i] == s[i]
  {
    s[..j] + [s[j + 1], s[j]] + s[j + 2..]
  }

  /** Replacing a middle part by one with the same runs keeps the runs. */
  lemma KeyRunSplice<T>(key: T -> int, k: int, a: seq<T>, b: seq<T>, b': seq<T>, c: seq<T>)
    requires KeyRun(key, k, b) == KeyRun(key, k, b')
    ensures KeyRun(key, k, a + b + c) == KeyRun(key, k, a + b' + c)
  {
    KeyRunConcat(key, k, a + b, c);
    KeyRunConcat(key, k, a, b);
    KeyRunConcat(key, k, a + b', c);
    KeyRunConcat(key, k, a, b');
  }

  /** Two elements with different keys have the same runs in either order. */
  lemma KeyRunPair<T>(key: T -> int, k: int, x: T, y: T)
    requires key(x) != key(y)
    ensures KeyRun(key, k, [x, y]) == KeyRun(key, k, [y, x])
  {
    assert [x, y][1..] == [y] && [y, x][1..] == [x];
  }

  /** Exchanging neighbours with different keys keeps the elements and every key's run. */
  lemma SwapKeeps<T>(key: T -> int, s: seq<T>, j: nat)
    requires j + 1 < |s| && key(s[j]) != key(s[j + 1])
    ensures multiset(Swap(s, j)) == multiset(s)
    ensures forall k :: KeyRun(key, k, Swap(s, j)) == KeyRun(key, k, s)
  {
    SwapParts(s, j);
    forall k ensures KeyRun(key, k, Swap(s, j)) == KeyRun(key, k, s) {
      KeyRunPair(key, k, s[j], s[j + 1]);
      KeyRunSplice(key, k, s[..j], [s[j], s[j + 1]], [s[j + 1], s[j]], s[j + 2..]);
    }
  }

  lemma SwapParts<T>(s: seq<T>, j: nat)
    requires j + 1 < |s|
    ensures s == s[..j] + [s[j], s[j + 1]] + s[j + 2..]
    ensures multiset(Swap(s, j)) == multiset(s)
  {
    assert s == s[..j] + [s[j], s[j + 1]] + s[j + 2..];
    assert multiset([s[j], s[j + 1]]) == multiset([s[j + 1], s[j]]);
  }

  /** The last `m` positions hold their final elements: each is in order
      with every element before it. */
  ghost predicate Settled<T>(key: T -> int, ascending: bool, s: seq<T>, m: nat)
  {
    forall i, k :: 0 <= i < k < |s| && |s| - m <= k ==> InOrder(key, ascending, s[i], s[k])
  }

  /** A list whose neighbours are all in order is sorted. */
  lemma {:induction false} NeighboursSorted<T>(key: T -> int, ascending: bool, s: seq<T>, n: nat)
    requires n <= |s|
    requires forall i :: 0 <= i && i + 1 < n ==> InOrder(key, ascending, s[i], s[i + 1])
    ensures forall i, k :: 0 <= i < k < n ==> InOrder(key, ascending, s[i], s[k])
  {
    if n > 0 {
      NeighboursSorted(key, ascending, s, n - 1);
      forall i, k | 0 <= i < k < n ensures InOrder(key, ascending, s[i], s[k]) {
        if k == n - 1 && i < n - 2 {
          assert InOrder(key, ascending, s[i], s[n - 2]);
          assert InOrder(key, ascending, s[n - 2], s[n - 1]);
        }
      }
    }
  }

  /** The state of a bubble pass that has compared the pairs before
      position `j`: `r[j]` is in order after everything before it, the last
      `m` positions are settled (and one more once the pass has reached
      them), and a pass that has exchanged nothing has found `r0` in order. */
  ghost predicate PassState<T>(key: T -> int, ascending: bool, r0: seq<T>, r: seq<T>, j: nat, m: nat, swapped: bool)
  {
    var n := |r0|;
    && j + 1 <= n && |r| == n && m <= n
    && multiset(r) == multiset(r0) && Stable(key, r0, r)
    && Settled(key, ascending, r, m)
    && (forall i :: 0 <= i < j ==> InOrder(key, ascending, r[i], r[j]))
    && (m < n && n - m - 1 <= j ==> Settled(key, ascending, r, m + 1))
    && (!swapped ==> r == r0 && forall i :: 0 <= i && i + 1 <= j ==> InOrder(key, ascending, r0[i], r0[i + 1]))
    && (m == n ==> !swapped)
  }

  /** The element after a settled prefix that is in order after all before it settles too. */
  lemma SettledGrow<T>(key: T -> int, ascending: bool, r: seq<T>, m: nat)
    requires m < |r| && Settled(key, ascending, r, m)
    requires forall i :: 0 <= i < |r| - m - 1 ==> InOrder(key, ascending, r[i], r[|r| - m - 1])
    ensures Settled(key, ascending, r, m + 1)
  {
  }

  /** Exchanging the out-of-order pair at `j` keeps the pass invariant. */
  lemma PassSwap<T>(key: T -> int, ascending: bool, r0: seq<T>, r: seq<T>, j: nat, m: nat, swapped: bool)
    requires PassState(key, ascending, r0, r, j, m, swapped) && j + 1 < |r0|
    requires !InOrder(key, ascending, r[j], r[j + 1])
    ensures PassState(key, ascending, r0, Swap(r, j), j + 1, m, true)
  {
    var n := |r0|;
    SwapPreserves(key, ascending, r, j, m);
    if m < n && n - m - 1 <= j + 1 {
      SettledGrow(key, ascending, Swap(r, j), m);
    }
  }

  lemma PassKeep<T>(key: T -> int, ascending: bool, r0: seq<T>, r: seq<T>, j: nat, m: nat, swapped: bool)
    requires PassState(key, ascending, r0, r, j, m, swapped) && j + 1 < |r0|
    requires InOrder(key, ascending, r[j], r[j + 1])
    ensures PassState(key, ascending, r0, r, j + 1, m, swapped)
  {
    var n := |r0|;
    forall i | 0 <= i < j + 1 ensures InOrder(key, ascending, r[i], r[j + 1]) {
      if i < j {
        assert InOrder(key, ascending, r[i], r[j]);
      }
    }
    if m < n && n - m - 1 == j + 1 {
      SettledGrow(key, ascending, r, m);
    }
  }

  /** What exchanging an out-of-order pair in the unsettled part keeps. */
  lemma SwapPreserves<T>(key: T -> int, ascending: bool, r: seq<T>, j: nat, m: nat)
    requires j + 1 < |r| && m <= |r| && Settled(key, ascending, r, m)
    requires !InOrder(key, ascending, r[j], r[j + 1])
    requires forall i :: 0 <= i < j ==> InOrder(key, ascending, r[i], r[j])
    ensures j + 1 < |r| - m
    ensures multiset(Swap(r, j)) == multiset(r)
    ensures forall k :: KeyRun(key, k, Swap(r, j)) == KeyRun(key, k, r)
    ensures Settled(key, ascending, Swap(r, j), m)
    ensures forall i :: 0 <= i < j + 1 ==> InOrder(key, ascending, Swap(r, j)[i], Swap(r, j)[j + 1])
    ensures m < |r| && |r| - m - 1 <= j + 1 ==> Settled(key, ascending, Swap(r, j), m + 1)
  {
    SwapKeeps(key, r, j);
    var r' := Swap(r, j);
    var n := |r|;
    forall i, k | 0 <= i < k < n && n - m <= k ensures InOrder(key, ascending, r'[i], r'[k]) {
      if i == j {
        assert InOrder(key, ascending, r[j + 1], r[k]);
      } else if i == j + 1 {
        assert InOrder(key, ascending, r[j], r[k]);
      }
    }
  }

  /** Every sorted, stable rearrangement is the one mergeSort computes: the
      bubble sorts of the other lists agree with SinglyLinkedList::sort. */
  lemma SortsAgree<T>(key: T -> int, ascending: bool, s: seq<T>, r: seq<T>)
    requires SortedStably(key, ascending, s, r)
    ensures r == MergeSort(key, ascending, s)
  {
    MergeSortCorrect(key, ascending, s);
    SortedStablyUnique(key, ascending, r, MergeSort(key, ascending, s));
  }
}

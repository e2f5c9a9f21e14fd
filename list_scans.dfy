// The pointer walks that the list classes of linked_lists/linked_lists.hpp
// share, on the sequence of node values from the head on: a node is its
// position, and following `next` (or `prev`) is moving one position on
// (or back).
module ListScans {
  import opened ListSpec

  /** indexOf: walk from the head and stop at the first node holding `v`. */
  method FindFirst<T(==)>(s: seq<T>, v: T) returns (r: int)
    ensures r == IndexOf(s, v)
  {
    var index := 0;
    while index < |s|
      invariant index <= |s| && v !in s[..index]
    {
      if s[index] == v {
        return index;
      }
      assert s[..index + 1] == s[..index] + [s[index]];
      index := index + 1;
    }
    assert s[..index] == s;
    return -1;
  }

  /** lastIndexOf of the singly and circular lists: walk the whole list from
      the head, remembering the latest position holding `v`. */
  method FindLast<T(==)>(s: seq<T>, v: T) returns (r: int)
    ensures r == LastIndexOf(s, v)
  {
    var index := 0;
    var lastFound := -1;
    while index < |s|
      invariant index <= |s| && -1 <= lastFound < index
      invariant lastFound == -1 ==> v !in s[..index]
      invariant 0 <= lastFound ==> s[lastFound] == v && v !in s[lastFound + 1..index]
    {
      if s[index] == v {
        lastFound := index;
      }
      index := index + 1;
    }
    assert s[..index] == s;
    if lastFound >= 0 {
      assert s[lastFound + 1..index] == s[lastFound + 1..];
    }
    return lastFound;
  }

  /** reverse: take the nodes one by one from the front and link each in
      front of those already taken. */
  method Reversed<T>(s: seq<T>) returns (r: seq<T>)
    ensures r == Reverse(s)
  {
    r := [];
    var current := 0;
    while current < |s|
      invariant current <= |s| && |r| == current
      invariant forall k :: 0 <= k < current ==> r[k] == s[current - 1 - k]
    {
      r := [s[current]] + r;
      current := current + 1;
    }
  }
}

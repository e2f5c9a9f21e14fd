// Trie of trees/trees.hpp. Every TrieNode is reached from the root by
// exactly one string, the characters on the way down, so the linked nodes are
// modelled by the set of those strings (`nodes`, the root being "") and the
// nodes whose isEndOfWord flag is set (`ends`).
module Tries {
  import opened Wrappers

  /** All prefixes of `w`, "" and `w` included. */
  function Prefixes(w: string): (r: set<string>)
    ensures forall p :: p in r <==> p <= w
  {
    var r := set i | 0 <= i <= |w| :: w[..i];
    assert forall p :: p <= w ==> p == w[..|p|];
    r
  }

  /** The prefixes of `w` of length at most `i`. */
  function PrefixesUpTo(w: string, i: nat): (r: set<string>)
    requires i <= |w|
    ensures forall p :: p in r <==> p <= w && |p| <= i
  {
    var r := set j | 0 <= j <= i :: w[..j];
    assert forall p :: p <= w && |p| <= i ==> p == w[..|p|];
    r
  }

  lemma PrefixesStep(w: string, i: nat)
    requires i < |w|
    ensures PrefixesUpTo(w, i + 1) == PrefixesUpTo(w, i) + {w[..i + 1]}
  {
    assert forall p :: p <= w && |p| == i + 1 ==> p == w[..i + 1];
  }

  class Trie {
    var nodes: set<string>
    var ends: set<string>
    /** For each node below the root, a word it leads to (nodes are only
        made by insert, on the way to a word). */
    ghost var cover: map<string, string>

    ghost predicate Valid()
      reads this
    {
      && "" in nodes
      && (forall p, i :: p in nodes && 0 <= i <= |p| ==> p[..i] in nodes)
      && ends <= nodes
      && (forall p :: p in nodes && p != "" ==> p in cover && cover[p] in ends && p <= cover[p])
    }

    constructor()
      ensures Valid() && nodes == {""} && ends == {}
    {
      nodes, ends, cover := {""}, {}, map[];
    }

    /** Valid, except that nodes made by an insert of `word` still in
        progress may lead to `word` rather than to a finished word. */
    ghost predicate Growing(word: string)
      reads this
    {
      && "" in nodes
      && (forall p, i :: p in nodes && 0 <= i <= |p| ==> p[..i] in nodes)
      && ends <= nodes
      && (forall p :: p in nodes && p != "" ==>
            p in cover && (cover[p] in ends || cover[p] == word) && p <= cover[p])
    }

    /** insert: walk down the word, creating each missing child, and mark
        the last node as the end of a word. */
    method Insert(word: string)
      requires Valid()
      modifies this
      ensures Valid()
      ensures nodes == old(nodes) + Prefixes(word) && ends == old(ends) + {word}
    {
      var i := 0;
      while i < |word|
        invariant 0 <= i <= |word|
        invariant nodes == old(nodes) + PrefixesUpTo(word, i)
        invariant ends == old(ends) && Growing(word)
      {
        assert word[..i] in PrefixesUpTo(word, i);
        AddChild(word, i);
        PrefixesStep(word, i);
        i := i + 1;
      }
      assert PrefixesUpTo(word, i) == Prefixes(word);
      ends := ends + {word};
    }

    /** One step of insert: the child for character `i` exists afterwards. */
    method AddChild(word: string, i: nat)
      requires i < |word| && Growing(word) && word[..i] in nodes
      modifies this
      ensures Growing(word) && ends == old(ends)
      ensures nodes == old(nodes) + {word[..i + 1]}
    {
      var child := word[..i + 1];
      ghost var before := nodes;
      assert forall p, k :: p in before && 0 <= k <= |p| ==> p[..k] in before;
      if child !in nodes {
        nodes := nodes + {child};
        cover := cover[child := word];
      }
      forall p, k | p in nodes && 0 <= k <= |p| ensures p[..k] in nodes {
        if p == child && k <= i {
          assert child[..k] == word[..i][..k];
        } else if p == child {
          assert p[..k] == child;
        } else {
          assert p in before;
        }
      }
    }

    /** search: follow the word; true when every character has a child and
        the last node ends a word. */
    method Search(word: string) returns (b: bool)
      requires Valid()
      ensures b <==> word in ends
    {
      var i := 0;
      while i < |word|
        invariant 0 <= i <= |word| && word[..i] in nodes
      {
        var child := word[..i + 1];
        if child !in nodes {
          assert word !in ends;
          return false;
        }
        i := i + 1;
      }
      assert word[..i] == word;
      return word in ends;
    }

    /** startsWith: follow the prefix; true when every character has a child. */
    method StartsWith(prefix: string) returns (b: bool)
      requires Valid()
      ensures b <==> prefix in nodes
      ensures b <==> prefix == "" || exists w :: w in ends && prefix <= w
    {
      var i := 0;
      while i < |prefix|
        invariant 0 <= i <= |prefix| && prefix[..i] in nodes
      {
        if prefix[..i + 1] !in nodes {
          NodesArePrefixes(prefix);
          return false;
        }
        i := i + 1;
      }
      assert prefix[..i] == prefix;
      NodesArePrefixes(prefix);
      return true;
    }

    /** A string is a node exactly when it is "" or a prefix of a word. */
    lemma NodesArePrefixes(p: string)
      requires Valid()
      ensures p in nodes <==> p == "" || exists w :: w in ends && p <= w
    {
      if p in nodes && p != "" {
        assert cover[p] in ends && p <= cover[p];
      }
      if p != "" && exists w :: w in ends && p <= w {
        var w :| w in ends && p <= w;
        assert w in nodes && p == w[..|p|];
      }
    }

    /** getWordDepth: logic_error when some character has no child, the
        word's length when its last node ends a word, otherwise -1. */
    method GetWordDepth(word: string) returns (r: Result<int>)
      requires Valid()
      ensures word !in nodes ==> r == Err(LogicError)
      ensures word in ends ==> r == Ok(|word|)
      ensures word in nodes && word !in ends ==> r == Ok(-1)
    {
      var i := 0;
      var depth := 0;
      while i < |word|
        invariant 0 <= i <= |word| && word[..i] in nodes && depth == i
      {
        var child := word[..i + 1];
        if child !in nodes {
          assert word !in nodes;
          return Err(LogicError);
        }
        i := i + 1;
        depth := depth + 1;
      }
      assert word[..i] == word;
      if word in ends {
        return Ok(depth);
      }
      return Ok(-1);
    }

    /** getMaxDepth: the greatest depth of any node (a node's depth is the
        length of its string), 0 for the root alone. It is the length of the
        longest word inserted. */
    method GetMaxDepth() returns (m: nat)
      requires Valid()
      ensures forall p :: p in nodes ==> |p| <= m
      ensures exists p :: p in nodes && |p| == m
      ensures forall w :: w in ends ==> |w| <= m
      ensures m == 0 || exists w :: w in ends && |w| == m
    {
      var todo := nodes;
      m := 0;
      ghost var deepest := "";
      while todo != {}
        invariant todo <= nodes && deepest in nodes && |deepest| == m
        invariant forall p :: p in nodes && p !in todo ==> |p| <= m
        decreases |todo|
      {
        var p :| p in todo;
        if |p| > m {
          m, deepest := |p|, p;
        }
        todo := todo - {p};
      }
      if m != 0 {
        var w := cover[deepest];
        assert w in nodes && |deepest| <= |w|;
      }
    }
  }
}

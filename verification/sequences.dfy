/** Facts about sequences used by the list-manipulating code of the engine. */
module Sequences {

  /** No element occurs twice. */
  predicate NoDup<T(==)>(s: seq<T>)
  {
    forall i, j :: 0 <= i < j < |s| ==> s[i] != s[j]
  }

  /** The tuple swap `(list[i], list[j]) = (list[j], list[i])`. */
  function Swap<T>(s: seq<T>, i: nat, j: nat): (r: seq<T>)
    requires i < |s| && j < |s|
    ensures |r| == |s|
    ensures r[i] == s[j] && r[j] == s[i]
    ensures forall k {:trigger r[k]} :: 0 <= k < |s| && k != i && k != j ==> r[k] == s[k]
  {
    s[i := s[j]][j := s[i]]
  }

  /** List<T>.Remove(x): drops the first occurrence of x, if any. */
  function RemoveFirst<T(==)>(s: seq<T>, x: T): (r: seq<T>)
    ensures x in s ==> multiset(r) == multiset(s) - multiset{x}
    ensures x !in s ==> r == s
  {
    if s == [] then []
    else
      assert s == [s[0]] + s[1..];
      if s[0] == x then s[1..] else [s[0]] + RemoveFirst(s[1..], x)
  }

  /** r is s with position k, the first occurrence of x, cut out. */
  predicate CutAt<T(==)>(s: seq<T>, x: T, k: int, r: seq<T>)
  {
    0 <= k < |s| && s[k] == x && x !in s[..k] && r == s[..k] + s[k + 1..]
  }

  /** A cut survives putting a different element in front. */
  lemma CutAtCons<T>(h: T, t: seq<T>, x: T, k: int, u: seq<T>)
    requires h != x && CutAt(t, x, k, u)
    ensures CutAt([h] + t, x, k + 1, [h] + u)
  {
    var s := [h] + t;
    assert s[..k + 1] == [h] + t[..k];
    assert s[k + 2..] == t[k + 1..];
  }

  /** RemoveFirst cuts out exactly the first occurrence of x: the elements
      before it and after it stay, in order. */
  lemma {:induction false} RemoveFirstAt<T>(s: seq<T>, x: T)
    requires x in s
    ensures exists k :: CutAt(s, x, k, RemoveFirst(s, x))
  {
    if s[0] == x {
      assert CutAt(s, x, 0, RemoveFirst(s, x));
    } else {
      var t := s[1..];
      assert s == [s[0]] + t;
      RemoveFirstAt(t, x);
      var k :| CutAt(t, x, k, RemoveFirst(t, x));
      CutAtCons(s[0], t, x, k, RemoveFirst(t, x));
    }
  }

  /** Removing x keeps exactly the elements other than x, when the list has
      no duplicates. */
  lemma {:induction false} RemoveFirstMembers<T>(s: seq<T>, x: T)
    requires NoDup(s)
    ensures forall y :: y in RemoveFirst(s, x) <==> y in s && y != x
  {
    if s != [] {
      assert s == [s[0]] + s[1..];
      assert NoDup(s[1..]);
      RemoveFirstMembers(s[1..], x);
      if s[0] == x {
        assert x !in s[1..];
      }
    }
  }

  /** Swapping two positions permutes a list. */
  lemma SwapMultiset<T>(s: seq<T>, i: nat, j: nat)
    requires i < |s| && j < |s|
    ensures multiset(Swap(s, i, j)) == multiset(s)
  {
    var t := s[i := s[j]];
    assert multiset(t) == multiset(s) - multiset{s[i]} + multiset{s[j]};
    assert multiset(t[j := s[i]]) == multiset(t) - multiset{t[j]} + multiset{s[i]};
  }

  /** The tail part of a duplicate-free list is duplicate-free. */
  lemma NoDupSuffix<T>(s: seq<T>, t: seq<T>)
    requires NoDup(s + t)
    ensures NoDup(t)
    ensures forall k :: 0 <= k < |t| ==> t[k] in s + t
  {
    forall i, j | 0 <= i < j < |t| ensures t[i] != t[j] {
      assert t[i] == (s + t)[|s| + i] && t[j] == (s + t)[|s| + j];
    }
    forall k | 0 <= k < |t| ensures t[k] in s + t {
      assert t[k] == (s + t)[|s| + k];
    }
  }

  /** A list without repeats has as many distinct elements as positions. */
  lemma {:induction false} NoDupCard<T>(s: seq<T>)
    requires NoDup(s)
    ensures |set x | x in s| == |s|
  {
    if s != [] {
      assert NoDup(s[1..]);
      NoDupCard(s[1..]);
      assert (set x | x in s) == {s[0]} + (set x | x in s[1..]);
    }
  }

  /** Prepending an element that is not yet present keeps a list duplicate-free. */
  lemma NoDupCons<T>(a: T, t: seq<T>)
    requires NoDup(t) && a !in t
    ensures NoDup([a] + t)
  {
    var r := [a] + t;
    forall i, j | 0 <= i < j < |r| ensures r[i] != r[j] {
      assert r[j] == t[j - 1];
      if i > 0 {
        assert r[i] == t[i - 1];
      }
    }
  }

  /** Removing from a duplicate-free list leaves a duplicate-free list that
      keeps exactly the other elements. */
  lemma {:induction false} RemoveFirstNoDup<T>(s: seq<T>, x: T)
    requires NoDup(s)
    ensures NoDup(RemoveFirst(s, x))
    ensures forall y :: y in RemoveFirst(s, x) <==> y in s && y != x
    ensures x in s ==> |RemoveFirst(s, x)| == |s| - 1
  {
    RemoveFirstMembers(s, x);
    if s != [] {
      assert s == [s[0]] + s[1..];
      assert NoDup(s[1..]);
      RemoveFirstNoDup(s[1..], x);
      if s[0] != x {
        var t := RemoveFirst(s[1..], x);
        assert s[0] !in t;
        NoDupCons(s[0], t);
      }
    }
    if x in s {
      assert |multiset(RemoveFirst(s, x))| == |multiset(s)| - 1;
    }
  }
}

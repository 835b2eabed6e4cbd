/** Facts about the plain lists the simulation keeps: duplicate-freedom, the set of
    elements a list holds, and Python's `list.remove`. */
module Seqs {

  /** No element occurs twice. */
  predicate Distinct<T(==)>(s: seq<T>) {
    forall i, j :: 0 <= i < j < |s| ==> s[i] != s[j]
  }

  /** The set of elements of `s`. */
  function Elems<T>(s: seq<T>): set<T> {
    set x | x in s
  }

  /** `list.remove(x)`: drops the first occurrence of `x`; the caller has checked
      that `x` is present (Python raises otherwise). */
  function RemoveFirst<T(==)>(s: seq<T>, x: T): (r: seq<T>)
    requires x in s
    ensures |r| == |s| - 1
    ensures multiset(r) == multiset(s) - multiset{x}
  {
    assert s == [s[0]] + s[1..];
    if s[0] == x then s[1..] else [s[0]] + RemoveFirst(s[1..], x)
  }

  /** Removing a present element from a duplicate-free list removes exactly that
      element and keeps the list duplicate-free. */
  lemma {:induction false} RemoveFromDistinct<T>(s: seq<T>, x: T)
    requires Distinct(s) && x in s
    ensures Distinct(RemoveFirst(s, x))
    ensures Elems(RemoveFirst(s, x)) == Elems(s) - {x}
  {
    assert s == [s[0]] + s[1..];
    if s[0] == x {
      assert x !in s[1..];
    } else {
      var tail := s[1..];
      assert Distinct(tail);
      RemoveFromDistinct(tail, x);
      var r' := RemoveFirst(tail, x);
      assert s[0] !in tail;
      assert s[0] !in Elems(r');
      assert RemoveFirst(s, x) == [s[0]] + r';
      assert Elems(s) == {s[0]} + Elems(tail);
      assert Elems([s[0]] + r') == {s[0]} + Elems(r');
    }
  }

  /** A duplicate-free list has as many elements as its set. */
  lemma {:induction false} DistinctCardinality<T>(s: seq<T>)
    requires Distinct(s)
    ensures |Elems(s)| == |s|
  {
    if s != [] {
      var init, last := s[..|s| - 1], s[|s| - 1];
      assert s == init + [last];
      assert Distinct(init);
      DistinctCardinality(init);
      assert last !in init;
      assert Elems(s) == Elems(init) + {last};
    }
  }

  /** A set of integers inside [0, n) has at most n elements. */
  lemma {:induction false} BoundedIntSet(s: set<int>, n: nat)
    requires forall v :: v in s ==> 0 <= v < n
    ensures |s| <= n
  {
    if n == 0 {
      assert forall v :: v !in s;
      assert s == {};
    } else {
      BoundedIntSet(s - {n - 1}, n - 1);
    }
  }
}

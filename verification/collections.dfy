/**
 * The few java.util list and map behaviours the library relies on:
 * `List.remove(Object)` and iteration over a `HashMap`'s entries.
 */
module Collections {

  /** No element occurs twice. */
  ghost predicate NoDuplicates<T>(s: seq<T>) {
    forall i, j :: 0 <= i < j < |s| ==> s[i] != s[j]
  }

  /** `List.remove(Object)`: drops the first occurrence of `x`, if there is one. */
  function RemoveFirst<T(==)>(s: seq<T>, x: T): (r: seq<T>)
    ensures x !in s ==> r == s
    ensures x in s ==> |r| == |s| - 1
    ensures multiset(r) == multiset(s) - multiset{x}
  {
    if s == [] then []
    else if s[0] == x then
      assert s == [s[0]] + s[1..];
      s[1..]
    else
      assert s == [s[0]] + s[1..];
      [s[0]] + RemoveFirst(s[1..], x)
  }

  /** Appending `x` and then removing it gives back a list that did not hold `x`. */
  lemma {:induction false} RemoveFirstOfAppended<T>(s: seq<T>, x: T)
    requires x !in s
    ensures RemoveFirst(s + [x], x) == s
  {
    if s != [] {
      assert (s + [x])[1..] == s[1..] + [x];
      RemoveFirstOfAppended(s[1..], x);
    }
  }

  /** In a list without duplicates, removing `x` removes every trace of it and keeps the rest. */
  lemma {:induction false} RemoveFirstNoDuplicates<T>(s: seq<T>, x: T)
    requires NoDuplicates(s)
    ensures NoDuplicates(RemoveFirst(s, x))
    ensures x !in RemoveFirst(s, x)
    ensures forall y :: y != x ==> (y in RemoveFirst(s, x) <==> y in s)
  {
    if s != [] {
      var t := s[1..];
      assert s == [s[0]] + t;
      assert NoDuplicates(t);
      assert s[0] !in t;
      RemoveFirstNoDuplicates(t, x);
      if s[0] != x {
        var r := RemoveFirst(t, x);
        assert RemoveFirst(s, x) == [s[0]] + r;
        assert s[0] !in r;
        NoDuplicatesCons(s[0], r);
      }
    }
  }

  /** Appending a new element to a list without duplicates keeps it so. */
  lemma NoDuplicatesSnoc<T>(s: seq<T>, x: T)
    requires NoDuplicates(s) && x !in s
    ensures NoDuplicates(s + [x])
  {
  }

  /** Putting a new element in front of a list without duplicates keeps it so. */
  lemma NoDuplicatesCons<T>(x: T, s: seq<T>)
    requires NoDuplicates(s) && x !in s
    ensures NoDuplicates([x] + s)
  {
    forall i, j | 0 <= i < j < |[x] + s|
      ensures ([x] + s)[i] != ([x] + s)[j]
    {
      if i == 0 {
        assert ([x] + s)[j] == s[j - 1];
      }
    }
  }

  /** A duplicate-free list whose only element is `x` is `[x]`. */
  lemma NoDuplicatesSingleton<T>(s: seq<T>, x: T)
    requires NoDuplicates(s) && x in s
    requires forall y :: y in s ==> y == x
    ensures s == [x]
  {
    assert s[0] in s;
    if |s| > 1 {
      SecondElementIn(s);
      assert false;
    }
  }

  lemma SecondElementIn<T>(s: seq<T>)
    requires |s| > 1
    ensures s[1] in s
  {
  }

  /** A list with no members is empty. */
  lemma NoMembersEmpty<T>(s: seq<T>)
    requires forall x :: x !in s
    ensures s == []
  {
    if s != [] {
      FirstElementIn(s);
      assert false;
    }
  }

  lemma FirstElementIn<T>(s: seq<T>)
    requires |s| > 0
    ensures s[0] in s
  {
  }

  /**
   * The values of a `java.util.HashMap` as its iteration produces them:
   * `keys` is the iteration order, which this model leaves unspecified.
   * Each key is visited exactly once.
   */
  method Values<K, V>(m: map<K, V>) returns (vs: seq<V>, ghost keys: seq<K>)
    ensures |vs| == |keys| == |m|
    ensures NoDuplicates(keys)
    ensures forall k :: k in keys <==> k in m
    ensures forall i :: 0 <= i < |keys| ==> keys[i] in m && vs[i] == m[keys[i]]
  {
    var rest := m.Keys;
    vs, keys := [], [];
    while rest != {}
      invariant rest <= m.Keys
      invariant |vs| == |keys| && |keys| + |rest| == |m|
      invariant NoDuplicates(keys)
      invariant forall k :: k in keys <==> k in m && k !in rest
      invariant forall i :: 0 <= i < |keys| ==> keys[i] in m && vs[i] == m[keys[i]]
      decreases rest
    {
      var k :| k in rest;
      vs, keys := vs + [m[k]], keys + [k];
      rest := rest - {k};
    }
  }
}

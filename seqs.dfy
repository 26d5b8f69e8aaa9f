/**
 * Sequence helpers shared by the models: `Map` and `Filter` stand for
 * JavaScript's `Array.prototype.map`/`filter` and Python's list
 * comprehensions, with the facts about them that the other modules use.
 */
module Seqs {

  function Map<A, B>(s: seq<A>, f: A -> B): (r: seq<B>)
    ensures |r| == |s|
    ensures forall i :: 0 <= i < |s| ==> r[i] == f(s[i])
  {
    seq(|s|, i requires 0 <= i < |s| => f(s[i]))
  }

  /** The elements of `s` that satisfy `p`, in their original order. */
  function Filter<T(!new)>(s: seq<T>, p: T -> bool): (r: seq<T>)
    ensures |r| <= |s|
    ensures forall x :: x in r <==> x in s && p(x)
  {
    if s == [] then []
    else
      assert s == [s[0]] + s[1..];
      (if p(s[0]) then [s[0]] else []) + Filter(s[1..], p)
  }

  lemma {:induction false} FilterConcat<T(!new)>(a: seq<T>, b: seq<T>, p: T -> bool)
    ensures Filter(a + b, p) == Filter(a, p) + Filter(b, p)
  {
    if a == [] {
      assert a + b == b;
    } else {
      assert (a + b)[1..] == a[1..] + b;
      FilterConcat(a[1..], b, p);
    }
  }

  /** Filtering keeps every passing copy of an element and no failing one. */
  lemma {:induction false} FilterMultiset<T(!new)>(s: seq<T>, p: T -> bool)
    ensures forall x :: multiset(Filter(s, p))[x] == if p(x) then multiset(s)[x] else 0
  {
    if s != [] {
      FilterMultiset(s[1..], p);
      assert s == [s[0]] + s[1..];
    }
  }

  /** The mapped survivors of a filter are exactly the images of the passing elements. */
  lemma MapFilterMembers<A(!new), B>(s: seq<A>, p: A -> bool, f: A -> B)
    ensures forall x :: x in s && p(x) ==> f(x) in Map(Filter(s, p), f)
    ensures forall y :: y in Map(Filter(s, p), f) ==> exists x :: x in s && p(x) && y == f(x)
  {
    var kept := Filter(s, p);
    var r := Map(kept, f);
    forall x | x in s && p(x) ensures f(x) in r {
      var k :| 0 <= k < |kept| && kept[k] == x;
      assert r[k] == f(x);
    }
    forall y | y in r ensures exists x :: x in s && p(x) && y == f(x) {
      var k :| 0 <= k < |r| && r[k] == y;
      assert kept[k] in kept;
    }
  }

  /** Filtering then mapping, one element at a time. */
  lemma MapFilterCons<A(!new), B>(x: A, s: seq<A>, p: A -> bool, f: A -> B)
    ensures Map(Filter([x] + s, p), f) == (if p(x) then [f(x)] else []) + Map(Filter(s, p), f)
  {
    FilterConcat([x], s, p);
    assert Filter([x], p) == (if p(x) then [x] else []) + Filter([], p);
    var a, b := Filter([x], p), Filter(s, p);
    assert Map(a + b, f) == Map(a, f) + Map(b, f);
  }

  /** Filtering keeps a sequence whose every element passes. */
  lemma {:induction false} FilterAll<T(!new)>(s: seq<T>, p: T -> bool)
    requires forall i :: 0 <= i < |s| ==> p(s[i])
    ensures Filter(s, p) == s
  {
    if s != [] {
      FilterAll(s[1..], p);
    }
  }

  /** Filtering empties a sequence whose every element fails. */
  lemma {:induction false} FilterNone<T(!new)>(s: seq<T>, p: T -> bool)
    requires forall i :: 0 <= i < |s| ==> !p(s[i])
    ensures Filter(s, p) == []
  {
    if s != [] {
      FilterNone(s[1..], p);
    }
  }

  lemma FilterTwice<T(!new)>(s: seq<T>, p: T -> bool)
    ensures Filter(Filter(s, p), p) == Filter(s, p)
  {
    var f := Filter(s, p);
    forall i | 0 <= i < |f| ensures p(f[i]) {
      assert f[i] in f;
    }
    FilterAll(f, p);
  }

  /** Filtering by `p` first changes nothing when `q` already implies `p`. */
  lemma {:induction false} FilterImplied<T(!new)>(s: seq<T>, p: T -> bool, q: T -> bool)
    requires forall x :: q(x) ==> p(x)
    ensures Filter(Filter(s, p), q) == Filter(s, q)
  {
    if s != [] {
      var t := Filter(s[1..], p);
      FilterImplied(s[1..], p, q);
      assert Filter(s, q) == (if q(s[0]) then [s[0]] else []) + Filter(s[1..], q);
      if p(s[0]) {
        assert Filter(s, p) == [s[0]] + t;
        assert [s[0]] + t == [s[0]] + t;
        FilterConcat([s[0]], t, q);
        assert Filter([s[0]], q) == (if q(s[0]) then [s[0]] else []) + Filter([], q);
      } else {
        assert Filter(s, p) == [] + t == t;
        assert !q(s[0]);
        assert Filter(s, q) == [] + Filter(s[1..], q) == Filter(s[1..], q);
      }
    }
  }

  /** Nothing that passed `p` passes a `q` that excludes `p`. */
  lemma FilterDisjoint<T(!new)>(s: seq<T>, p: T -> bool, q: T -> bool)
    requires forall x :: p(x) ==> !q(x)
    ensures Filter(Filter(s, p), q) == []
  {
    var f := Filter(s, p);
    forall i | 0 <= i < |f| ensures !q(f[i]) {
      assert f[i] in f;
    }
    FilterNone(f, q);
  }
}

/** Order-preserving operations on sequences that the table operations are
    built from: a boolean-mask selection (keeps the rows a predicate accepts,
    in their original order) and the removal of repeated values that keeps
    the first occurrence of each. */
module Sequences {

  /** r can be obtained from s by deleting elements, without reordering. */
  predicate IsSubsequence<T(==)>(r: seq<T>, s: seq<T>)
    decreases |s|
  {
    if r == [] then true
    else if s == [] then false
    else if r[0] == s[0] then IsSubsequence(r[1..], s[1..])
    else IsSubsequence(r, s[1..])
  }

  /** No value occurs twice. */
  predicate Distinct<T(==)>(s: seq<T>)
  {
    forall i, j :: 0 <= i < j < |s| ==> s[i] != s[j]
  }

  /** The elements of s that p accepts, in the order they occur in s. Each
      accepted value is kept as often as it occurs and every other value is
      dropped, so together with IsSubsequence the result is fully determined. */
  function Filter<T(==,!new)>(s: seq<T>, p: T -> bool): (r: seq<T>)
    ensures |r| <= |s|
    ensures forall x :: x in r <==> x in s && p(x)
    ensures forall x :: multiset(r)[x] == if p(x) then multiset(s)[x] else 0
    ensures IsSubsequence(r, s)
  {
    if s == [] then []
    else
      var rest := Filter(s[1..], p);
      assert s == [s[0]] + s[1..];
      if p(s[0]) then
        var r := [s[0]] + rest;
        assert r[1..] == rest;
        r
      else
        assert rest != [] ==> rest[0] != s[0];
        rest
  }

  /** A sequence is a subsequence of itself. */
  lemma {:induction false} SubsequenceReflexive<T>(s: seq<T>)
    ensures IsSubsequence(s, s)
  {
    if s != [] {
      SubsequenceReflexive(s[1..]);
    }
  }

  /** A sequence without repetitions has as many elements as it has values. */
  lemma {:induction false} DistinctCardinality<T>(s: seq<T>)
    requires Distinct(s)
    ensures |set x | x in s| == |s|
  {
    if s != [] {
      var rest := s[1..];
      forall i, j | 0 <= i < j < |rest| ensures rest[i] != rest[j] {
        assert rest[i] == s[i + 1] && rest[j] == s[j + 1];
      }
      DistinctCardinality(rest);
      forall i | 0 <= i < |rest| ensures rest[i] != s[0] {
        assert rest[i] == s[i + 1];
      }
      assert (set x | x in s) == {s[0]} + (set x | x in rest);
    }
  }

  /** Mapping a sequence yields no more distinct values than it has elements. */
  lemma {:induction false} ElementsCardinality<T>(s: seq<T>)
    ensures |set x | x in s| <= |s|
  {
    if s != [] {
      ElementsCardinality(s[1..]);
      assert (set x | x in s) == {s[0]} + (set x | x in s[1..]);
    }
  }

  /** A subset is no larger than its superset. */
  lemma {:induction false} SubsetCardinality<T>(a: set<T>, b: set<T>)
    requires a <= b
    ensures |a| <= |b|
  {
    if a != {} {
      var x :| x in a;
      SubsetCardinality(a - {x}, b - {x});
    }
  }

  /** A sequence without repetitions whose values all lie in a set is no
      longer than that set is large. */
  lemma DistinctWithin<T>(s: seq<T>, bound: set<T>)
    requires Distinct(s)
    requires forall i :: 0 <= i < |s| ==> s[i] in bound
    ensures |s| <= |bound|
  {
    DistinctCardinality(s);
    SubsetCardinality((set x | x in s), bound);
  }

  /** The values of s with repetitions removed; of each value its first
      occurrence is kept, as pandas' unique() does. */
  function Unique<T(==,!new)>(s: seq<T>): (u: seq<T>)
    ensures Distinct(u)
    ensures forall x :: x in u <==> x in s
    ensures |u| <= |s|
    ensures forall i, j :: 0 <= i < j < |u| ==>
              exists k :: 0 <= k < |s| && s[k] == u[i] && u[j] !in s[..k]
  {
    if s == [] then []
    else
      var init := s[..|s| - 1];
      var last := s[|s| - 1];
      assert s == init + [last];
      var rest := Unique(init);
      var u := if last in rest then rest else rest + [last];
      assert forall x :: x in u <==> x in init || x == last;
      assert Distinct(u) by {
        forall i, j | 0 <= i < j < |u| ensures u[i] != u[j] {
          if j >= |rest| {
            assert u[j] == last && u[i] == rest[i];
          } else {
            assert u[i] == rest[i] && u[j] == rest[j];
          }
        }
      }
      forall i, j | 0 <= i < j < |u|
        ensures exists k :: 0 <= k < |s| && s[k] == u[i] && u[j] !in s[..k]
      {
        if j < |rest| {
          var k :| 0 <= k < |init| && init[k] == rest[i] && rest[j] !in init[..k];
          assert s[..k] == init[..k];
          assert s[k] == u[i];
        } else {
          assert u[j] == last && last !in init;
          assert u[i] == rest[i] && rest[i] in init;
          var k :| 0 <= k < |init| && init[k] == rest[i];
          assert s[..k] == init[..k];
          assert s[k] == u[i];
        }
      }
      u
  }
}

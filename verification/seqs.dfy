/** Sequence helpers shared by the name-server model: the relational
    operators the SQL queries use (WHERE as Filter, SELECT DISTINCT as
    Distinct) together with the facts the rest of the model needs. */
module Seqs {

  /** The elements of `s` that satisfy `p`, in their original order
      (a WHERE clause over a table kept in storage order). */
  function Filter<T(==,!new)>(p: T -> bool, s: seq<T>): (r: seq<T>)
    ensures |r| <= |s|
    ensures forall i :: 0 <= i < |r| ==> p(r[i])
    ensures forall x :: x in r <==> x in s && p(x)
    ensures forall x :: multiset(r)[x] == if p(x) then multiset(s)[x] else 0
  {
    if |s| == 0 then []
    else
      assert s == [s[0]] + s[1..];
      if p(s[0]) then [s[0]] + Filter(p, s[1..]) else Filter(p, s[1..])
  }

  /** Filtering by `q` and then by `p` is filtering by their conjunction `c`. */
  lemma {:induction false} FilterTwice<T(!new)>(p: T -> bool, q: T -> bool, c: T -> bool, s: seq<T>)
    requires forall x :: c(x) == (q(x) && p(x))
    ensures Filter(p, Filter(q, s)) == Filter(c, s)
    decreases |s|
  {
    if |s| > 0 {
      FilterTwice(p, q, c, s[1..]);
    }
  }

  /** A filter that keeps nothing yields the empty sequence. */
  lemma FilterNone<T(!new)>(p: T -> bool, s: seq<T>)
    requires forall i :: 0 <= i < |s| ==> !p(s[i])
    ensures Filter(p, s) == []
  {
  }

  /** No two elements of `s` share a key. */
  ghost predicate DistinctKeys<T, K>(key: T -> K, s: seq<T>)
  {
    forall i, j :: 0 <= i < j < |s| ==> key(s[i]) != key(s[j])
  }

  /** Filtering keeps keys distinct: every kept element comes from its own
      position of the input. */
  lemma {:induction false} FilterDistinctKeys<T(!new), K>(p: T -> bool, key: T -> K, s: seq<T>)
    requires DistinctKeys(key, s)
    ensures DistinctKeys(key, Filter(p, s))
    decreases |s|
  {
    if |s| > 0 {
      var tail := s[1..];
      DistinctKeysTail(key, s);
      FilterDistinctKeys(p, key, tail);
      if p(s[0]) {
        var rest := Filter(p, tail);
        assert forall x :: x in rest ==> key(x) != key(s[0]) by {
          forall x | x in rest
            ensures key(x) != key(s[0])
          {
            assert x in tail;
            var k :| 0 <= k < |tail| && tail[k] == x;
            assert s[k + 1] == x;
          }
        }
        DistinctKeysCons(key, s[0], rest);
      }
    }
  }

  lemma DistinctKeysTail<T, K>(key: T -> K, s: seq<T>)
    requires |s| > 0 && DistinctKeys(key, s)
    ensures DistinctKeys(key, s[1..])
  {
    var tail := s[1..];
    forall i, j | 0 <= i < j < |tail|
      ensures key(tail[i]) != key(tail[j])
    {
      assert tail[i] == s[i + 1] && tail[j] == s[j + 1];
    }
  }

  lemma DistinctKeysCons<T, K>(key: T -> K, x: T, s: seq<T>)
    requires DistinctKeys(key, s)
    requires forall y :: y in s ==> key(y) != key(x)
    ensures DistinctKeys(key, [x] + s)
  {
    var r := [x] + s;
    forall i, j | 0 <= i < j < |r|
      ensures key(r[i]) != key(r[j])
    {
      assert r[j] == s[j - 1];
      if i > 0 {
        assert r[i] == s[i - 1];
      } else {
        assert s[j - 1] in s;
      }
    }
  }

  /** The elements of `s` with later repetitions dropped, each kept at its
      first occurrence (SELECT DISTINCT). */
  function Distinct<T(==,!new)>(s: seq<T>): (r: seq<T>)
    ensures forall x :: x in r <==> x in s
    ensures forall i, j :: 0 <= i < j < |r| ==> r[i] != r[j]
  {
    if |s| == 0 then []
    else
      var last := s[|s| - 1];
      var rest := Distinct(s[..|s| - 1]);
      assert s == s[..|s| - 1] + [last];
      if last in rest then rest else rest + [last]
  }

  /** The sum of a sequence of counts. */
  function Sum(xs: seq<nat>): nat
  {
    if |xs| == 0 then 0 else xs[0] + Sum(xs[1..])
  }
}

/** Sequence operations the crawler uses: list comprehensions with a
    condition (`[x for x in s if keep(x)]`) and `set(list)`. */
module Sequences {

  /** `sub` can be obtained from `s` by deleting elements, keeping order. */
  ghost predicate IsSubsequence<T>(sub: seq<T>, s: seq<T>)
    decreases |s|
  {
    |sub| == 0 ||
    (|s| > 0 && ((sub[0] == s[0] && IsSubsequence(sub[1..], s[1..])) || IsSubsequence(sub, s[1..])))
  }

  /** The elements of `s` for which `keep` holds, in order, duplicates kept. */
  function Filter<T(!new)>(s: seq<T>, keep: T -> bool): (r: seq<T>)
    ensures |r| <= |s|
    ensures forall k :: 0 <= k < |r| ==> keep(r[k])
    ensures forall x :: x in r <==> x in s && keep(x)
    ensures IsSubsequence(r, s)
    ensures forall x :: keep(x) ==> multiset(r)[x] == multiset(s)[x]
    ensures forall x :: !keep(x) ==> multiset(r)[x] == 0
    decreases |s|
  {
    if |s| == 0 then []
    else
      var rest := Filter(s[1..], keep);
      assert s == [s[0]] + s[1..];
      if keep(s[0]) then
        var r := [s[0]] + rest;
        assert r[1..] == rest;
        r
      else
        rest
  }

  /** Filtering distributes over concatenation. */
  lemma {:induction false} FilterAppend<T(!new)>(a: seq<T>, b: seq<T>, keep: T -> bool)
    ensures Filter(a + b, keep) == Filter(a, keep) + Filter(b, keep)
    decreases |a|
  {
    if |a| > 0 {
      assert (a + b)[1..] == a[1..] + b;
      FilterAppend(a[1..], b, keep);
    } else {
      assert a + b == b;
    }
  }

  /** `set(s)` */
  function Distinct<T>(s: seq<T>): set<T>
  {
    set x | x in s
  }

  lemma {:induction false} DistinctAtMostLength<T>(s: seq<T>)
    ensures |Distinct(s)| <= |s|
    decreases |s|
  {
    if |s| > 0 {
      assert Distinct(s) == {s[0]} + Distinct(s[1..]);
      DistinctAtMostLength(s[1..]);
    } else {
      assert Distinct(s) == {};
    }
  }

  /** Each extra copy of an element costs one distinct value: an element
      occurring `m` times leaves at most `|s| - m + 1` distinct values. */
  lemma {:induction false} DistinctPlusMultiplicity<T>(s: seq<T>, x: T)
    requires x in s
    ensures |Distinct(s)| + multiset(s)[x] <= |s| + 1
    decreases |s|
  {
    var t := s[1..];
    assert s == [s[0]] + t;
    assert Distinct(s) == {s[0]} + Distinct(t);
    if s[0] == x {
      assert multiset(s)[x] == multiset(t)[x] + 1;
      if x in t {
        DistinctPlusMultiplicity(t, x);
        assert Distinct(s) == Distinct(t);
      } else {
        DistinctAtMostLength(t);
      }
    } else {
      assert multiset(s)[x] == multiset(t)[x];
      DistinctPlusMultiplicity(t, x);
    }
  }
}

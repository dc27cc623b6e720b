/** Sequence helpers shared by the views: `Array.prototype.filter` and the
    subsequence relation it establishes. */
module Seqs {

  /** `a` can be obtained from `b` by deleting elements, keeping the order.
      Matching greedily is complete for this relation. */
  predicate IsSubsequence<T(==)>(a: seq<T>, b: seq<T>)
    decreases |b|
  {
    if a == [] then true
    else if b == [] then false
    else if a[0] == b[0] then IsSubsequence(a[1..], b[1..])
    else IsSubsequence(a, b[1..])
  }

  /** The elements of `s` that satisfy `f`, in their original order. */
  function Filter<T(==)>(f: T -> bool, s: seq<T>): (r: seq<T>)
    ensures forall x :: x in r ==> x in s && f(x)
    ensures forall x :: x in s && f(x) ==> x in r
    ensures |r| <= |s|
    decreases |s|
  {
    if s == [] then []
    else if f(s[0]) then [s[0]] + Filter(f, s[1..])
    else Filter(f, s[1..])
  }

  /** The filtered elements keep their order. */
  lemma {:induction false} FilterIsSubsequence<T>(f: T -> bool, s: seq<T>)
    ensures IsSubsequence(Filter(f, s), s)
    decreases |s|
  {
    if s != [] {
      FilterIsSubsequence(f, s[1..]);
      var rest := Filter(f, s[1..]);
      if f(s[0]) {
        assert ([s[0]] + rest)[1..] == rest;
      } else if rest != [] {
        assert rest[0] != s[0];
      }
    }
  }

  /** Each element that passes is kept as often as it occurs, and no other
      element is kept. */
  lemma {:induction false} FilterCounts<T>(f: T -> bool, s: seq<T>, x: T)
    ensures multiset(Filter(f, s))[x] == if f(x) then multiset(s)[x] else 0
    decreases |s|
  {
    if s != [] {
      FilterCounts(f, s[1..], x);
      assert s == [s[0]] + s[1..];
    }
  }

  /** Keeping what every element satisfies keeps everything. */
  lemma {:induction false} FilterKeepsAll<T>(f: T -> bool, s: seq<T>)
    requires forall x :: x in s ==> f(x)
    ensures Filter(f, s) == s
    decreases |s|
  {
    if s != [] {
      FilterKeepsAll(f, s[1..]);
    }
  }

  /** Tests that agree on every element keep the same elements. */
  lemma {:induction false} FilterCongruent<T>(f: T -> bool, g: T -> bool, s: seq<T>)
    requires forall x :: x in s ==> f(x) == g(x)
    ensures Filter(f, s) == Filter(g, s)
    decreases |s|
  {
    if s != [] {
      FilterCongruent(f, g, s[1..]);
    }
  }

  /** Filtering after a map equals mapping after filtering, when the two
      tests agree through the map. */
  lemma {:induction false} FilterMapCommute<A, B>(
    g: A -> B, keepA: A -> bool, keepB: B -> bool, s: seq<A>)
    requires forall x :: keepB(g(x)) == keepA(x)
    ensures Filter(keepB, Map(g, s)) == Map(g, Filter(keepA, s))
    decreases |s|
  {
    if s != [] {
      var m := Map(g, s);
      var rest := Filter(keepA, s[1..]);
      FilterMapCommute(g, keepA, keepB, s[1..]);
      assert m[1..] == Map(g, s[1..]);
      assert Filter(keepB, m[1..]) == Map(g, rest);
      if keepA(s[0]) {
        calc {
          Filter(keepB, m);
          [m[0]] + Filter(keepB, m[1..]);
          [g(s[0])] + Map(g, rest);
          { MapCons(g, s[0], rest); }
          Map(g, [s[0]] + rest);
          Map(g, Filter(keepA, s));
        }
      } else {
        calc {
          Filter(keepB, m);
          Filter(keepB, m[1..]);
          Map(g, Filter(keepA, s));
        }
      }
    }
  }

  /** Mapping keeps the first element in front. */
  lemma MapCons<A, B>(g: A -> B, x: A, t: seq<A>)
    ensures Map(g, [x] + t) == [g(x)] + Map(g, t)
  {
    var l, r := Map(g, [x] + t), [g(x)] + Map(g, t);
    assert |l| == |r|;
    forall i | 0 <= i < |l|
      ensures l[i] == r[i]
    {
      if i > 0 {
        assert ([x] + t)[i] == t[i - 1];
      }
    }
  }

  /** `Array.prototype.map` without the index argument. */
  function Map<A, B>(g: A -> B, s: seq<A>): (r: seq<B>)
    ensures |r| == |s|
    ensures forall i :: 0 <= i < |s| ==> r[i] == g(s[i])
  {
    seq(|s|, i requires 0 <= i < |s| => g(s[i]))
  }
}

/** `Array.prototype.filter` on sequences, and what it promises: it keeps
    exactly the elements that pass, in their original order. */
module Seqs {

  /** `a` can be obtained from `b` by dropping elements (order kept). */
  predicate IsSubseq<T(==)>(a: seq<T>, b: seq<T>)
    decreases |b|
  {
    if b == [] then a == []
    else (a != [] && a[0] == b[0] && IsSubseq(a[1..], b[1..])) || IsSubseq(a, b[1..])
  }

  /** `s.filter(p)`. */
  function Filter<T(==)>(s: seq<T>, p: T -> bool): (r: seq<T>)
    ensures |r| <= |s|
    ensures forall k :: 0 <= k < |r| ==> r[k] in s && p(r[k])
    ensures forall k :: 0 <= k < |s| && p(s[k]) ==> s[k] in r
  {
    if s == [] then [] else (if p(s[0]) then [s[0]] else []) + Filter(s[1..], p)
  }

  /** The kept elements appear in the same relative order as in `s`. */
  lemma {:induction false} FilterIsSubseq<T>(s: seq<T>, p: T -> bool)
    ensures IsSubseq(Filter(s, p), s)
  {
    if s != [] {
      FilterIsSubseq(s[1..], p);
      var r := Filter(s, p);
      if p(s[0]) {
        assert r[0] == s[0] && r[1..] == Filter(s[1..], p);
      } else {
        assert r == Filter(s[1..], p);
      }
    }
  }

  /** Each value is kept as often as it occurs in `s` if it passes, and
      never otherwise: no duplicate is lost or invented. */
  lemma {:induction false} FilterMultiplicity<T>(s: seq<T>, p: T -> bool, x: T)
    ensures multiset(Filter(s, p))[x] == if p(x) then multiset(s)[x] else 0
  {
    if s != [] {
      FilterMultiplicity(s[1..], p, x);
      assert s == [s[0]] + s[1..];
      var head: seq<T> := if p(s[0]) then [s[0]] else [];
      assert Filter(s, p) == head + Filter(s[1..], p);
      assert multiset(Filter(s, p)) == multiset(head) + multiset(Filter(s[1..], p));
      assert multiset(s) == multiset([s[0]]) + multiset(s[1..]);
    }
  }

  /** When every element passes, the filter returns `s` itself. */
  lemma {:induction false} FilterAllPass<T>(s: seq<T>, p: T -> bool)
    requires forall k :: 0 <= k < |s| ==> p(s[k])
    ensures Filter(s, p) == s
  {
    if s != [] {
      FilterAllPass(s[1..], p);
      assert [s[0]] + s[1..] == s;
    }
  }

  /** Filtering a second time with the same test changes nothing. */
  lemma FilterIdempotent<T>(s: seq<T>, p: T -> bool)
    ensures Filter(Filter(s, p), p) == Filter(s, p)
  {
    var r := Filter(s, p);
    FilterAllPass(r, p);
  }
}

/** `Array.prototype.filter` over sequences, and what it means for a result to keep its input's order. */
module Sequences {

  /** The elements of `s` that satisfy `p`, in the order of `s` (`s.filter(p)`). */
  function Filter<T(!new)>(p: T -> bool, s: seq<T>): (r: seq<T>)
    ensures |r| <= |s|
    ensures forall i :: 0 <= i < |r| ==> p(r[i])
  {
    if s == [] then [] else (if p(s[0]) then [s[0]] else []) + Filter(p, s[1..])
  }

  /** Filtering keeps every occurrence of an element that passes and none of one that does not. */
  lemma {:induction false} FilterCount<T(!new)>(p: T -> bool, s: seq<T>, x: T)
    ensures multiset(Filter(p, s))[x] == if p(x) then multiset(s)[x] else 0
  {
    if s != [] {
      FilterCount(p, s[1..], x);
      assert s == [s[0]] + s[1..];
    }
  }

  /** `r` is obtained from `s` by deleting elements, so what remains keeps its relative order. */
  predicate IsSubsequence<T(==)>(r: seq<T>, s: seq<T>)
    decreases |s|
  {
    r == [] || (s != [] && ((r[0] == s[0] && IsSubsequence(r[1..], s[1..])) || IsSubsequence(r, s[1..])))
  }

  /** Filtering never reorders. */
  lemma {:induction false} FilterIsSubsequence<T(!new)>(p: T -> bool, s: seq<T>)
    ensures IsSubsequence(Filter(p, s), s)
  {
    if s != [] {
      var r := Filter(p, s);
      FilterIsSubsequence(p, s[1..]);
      if p(s[0]) {
        assert r == [s[0]] + Filter(p, s[1..]);
        assert r[0] == s[0] && r[1..] == Filter(p, s[1..]);
      } else {
        assert r == Filter(p, s[1..]);
      }
    }
  }

  /** A filter that every element passes returns its input unchanged. */
  lemma {:induction false} FilterKeepsAll<T(!new)>(p: T -> bool, s: seq<T>)
    requires forall i :: 0 <= i < |s| ==> p(s[i])
    ensures Filter(p, s) == s
  {
    if s != [] {
      FilterKeepsAll(p, s[1..]);
      assert s == [s[0]] + s[1..];
    }
  }

  /** The conjunction of two tests. */
  function Both<T>(p: T -> bool, q: T -> bool): T -> bool {
    x => p(x) && q(x)
  }

  /** Two filters in a row keep what passes both. */
  lemma {:induction false} FilterTwice<T(!new)>(p: T -> bool, q: T -> bool, s: seq<T>)
    ensures Filter(q, Filter(p, s)) == Filter(Both(p, q), s)
  {
    var pq := Both(p, q);
    if s != [] {
      FilterTwice(p, q, s[1..]);
      assert Filter(pq, s) == (if pq(s[0]) then [s[0]] else []) + Filter(pq, s[1..]);
      if p(s[0]) {
        assert Filter(p, s) == [s[0]] + Filter(p, s[1..]);
        assert Filter(q, Filter(p, s)) == (if q(s[0]) then [s[0]] else []) + Filter(q, Filter(p, s[1..]));
      } else {
        assert Filter(p, s) == Filter(p, s[1..]);
      }
    }
  }

  /** Mapping a projection over a sequence (`s.map(f)`). */
  function Map<T, U>(f: T -> U, s: seq<T>): (r: seq<U>)
    ensures |r| == |s|
  {
    seq(|s|, i requires 0 <= i < |s| => f(s[i]))
  }

  /** Mapping over a non-empty sequence maps its head, then its tail. */
  lemma MapCons<T, U>(h: T -> U, s: seq<T>)
    requires s != []
    ensures Map(h, s) == [h(s[0])] + Map(h, s[1..])
  {
  }

  /** Filtering on a projection commutes with taking that projection. */
  lemma {:induction false} MapFilter<T(!new), U(!new)>(h: T -> U, p: U -> bool, q: T -> bool, s: seq<T>)
    requires forall x :: q(x) == p(h(x))
    ensures Map(h, Filter(q, s)) == Filter(p, Map(h, s))
  {
    if s != [] {
      var rest := Map(h, Filter(q, s[1..]));
      MapFilter(h, p, q, s[1..]);
      var m := Map(h, s);
      MapCons(h, s);
      assert m[0] == h(s[0]) && m[1..] == Map(h, s[1..]);
      assert Filter(p, m) == (if p(h(s[0])) then [h(s[0])] else []) + rest;
      if q(s[0]) {
        var kept := [s[0]] + Filter(q, s[1..]);
        assert Filter(q, s) == kept;
        MapCons(h, kept);
        assert kept[1..] == Filter(q, s[1..]);
        assert Map(h, Filter(q, s)) == [h(s[0])] + rest;
      } else {
        assert Filter(q, s) == Filter(q, s[1..]);
      }
    }
  }

  /** In a sequence without repeats, an element that occurs occurs once. */
  lemma {:induction false} DistinctOnce<T>(s: seq<T>, x: T)
    requires forall i, j :: 0 <= i < j < |s| ==> s[i] != s[j]
    requires x in s
    ensures multiset(s)[x] == 1
  {
    assert s == [s[0]] + s[1..];
    if s[0] == x {
      assert x !in s[1..] by {
        forall k | 0 <= k < |s| - 1 ensures s[1..][k] != x {
          assert s[1..][k] == s[k + 1];
        }
      }
    } else {
      DistinctOnce(s[1..], x);
    }
  }

  /** A contiguous slice keeps its elements' order. */
  lemma {:induction false} SliceIsSubsequence<T>(s: seq<T>, i: nat, j: nat)
    requires i <= j <= |s|
    ensures IsSubsequence(s[i..j], s)
    decreases |s|
  {
    if i > 0 {
      SliceIsSubsequence(s[1..], i - 1, j - 1);
      assert s[1..][i - 1..j - 1] == s[i..j];
    } else if j > 0 {
      SliceIsSubsequence(s[1..], 0, j - 1);
      assert s[i..j][1..] == s[1..][0..j - 1];
    }
  }

  /** Equal filters of two sequences with the same head stay equal on the tails. */
  lemma FilterTailsEqual<T(!new)>(p: T -> bool, r: seq<T>, t: seq<T>)
    requires r != [] && t != [] && r[0] == t[0]
    requires Filter(p, r) == Filter(p, t)
    ensures Filter(p, r[1..]) == Filter(p, t[1..])
  {
    var head := if p(r[0]) then [r[0]] else [];
    assert Filter(p, r) == head + Filter(p, r[1..]);
    assert Filter(p, t) == head + Filter(p, t[1..]);
    assert (head + Filter(p, r[1..]))[|head|..] == Filter(p, r[1..]);
    assert (head + Filter(p, t[1..]))[|head|..] == Filter(p, t[1..]);
  }
}

/** Sequence helpers standing for `Array.prototype.filter`, `find` and `findIndex`. */
module Seqs {
  import opened Wrappers

  /** `r` is `s` with some elements left out, the others kept in their order. */
  ghost predicate Subsequence<T>(r: seq<T>, s: seq<T>)
    decreases |s|
  {
    r == [] || (s != [] && (Subsequence(r, s[1..]) || (r[0] == s[0] && Subsequence(r[1..], s[1..]))))
  }

  /** The elements of `s` that satisfy `p`, in their original order. */
  function Filter<T>(s: seq<T>, p: T -> bool): (r: seq<T>)
    ensures |r| <= |s|
    ensures forall i :: 0 <= i < |r| ==> r[i] in s && p(r[i])
    ensures forall j :: 0 <= j < |s| && p(s[j]) ==> s[j] in r
  {
    if s == [] then []
    else if p(s[0]) then [s[0]] + Filter(s[1..], p)
    else Filter(s[1..], p)
  }

  /**
   * `Filter` keeps the order of `s` and holds each passing element as often
   * as `s` does, and nothing else.
   */
  lemma {:induction false} FilterOrderAndCounts<T>(s: seq<T>, p: T -> bool)
    ensures Subsequence(Filter(s, p), s)
    ensures forall x :: multiset(Filter(s, p))[x] == if p(x) then multiset(s)[x] else 0
  {
    if s != [] {
      assert s == [s[0]] + s[1..];
      FilterOrderAndCounts(s[1..], p);
    }
  }

  /** A subsequence has no element more often than the sequence it comes from. */
  lemma {:induction false} SubsequenceCounts<T>(r: seq<T>, s: seq<T>, x: T)
    requires Subsequence(r, s)
    ensures multiset(r)[x] <= multiset(s)[x]
    decreases |s|
  {
    if r != [] {
      assert s == [s[0]] + s[1..];
      if Subsequence(r, s[1..]) {
        SubsequenceCounts(r, s[1..], x);
      } else {
        assert r == [r[0]] + r[1..];
        SubsequenceCounts(r[1..], s[1..], x);
      }
    }
  }

  /**
   * What `FilterOrderAndCounts` states determines the result: a subsequence of `s` whose
   * elements pass `p`, holding each passing element as often as `s` does, is
   * `Filter(s, p)`.
   */
  lemma {:induction false} FilterUnique<T>(s: seq<T>, p: T -> bool, r: seq<T>)
    requires Subsequence(r, s)
    requires forall i :: 0 <= i < |r| ==> p(r[i])
    requires forall x :: p(x) ==> multiset(r)[x] == multiset(s)[x]
    ensures r == Filter(s, p)
    decreases |s|
  {
    if s == [] {
      assert r == [];
    } else {
      var a, t := s[0], s[1..];
      assert s == [a] + t;
      if p(a) {
        if r == [] || r[0] != a || !Subsequence(r[1..], t) {
          assert Subsequence(r, t);
          SubsequenceCounts(r, t, a);
          assert false;
        }
        assert r == [a] + r[1..];
        forall x | p(x)
          ensures multiset(r[1..])[x] == multiset(t)[x]
        {
        }
        FilterUnique(t, p, r[1..]);
      } else {
        if r != [] {
          assert r[0] != a;
        }
        assert Subsequence(r, t);
        forall x | p(x)
          ensures multiset(r)[x] == multiset(t)[x]
        {
          assert x != a;
        }
        FilterUnique(t, p, r);
      }
    }
  }

  /** Filtering a concatenation filters each half: the order of kept elements is preserved. */
  lemma {:induction false} FilterAppend<T>(a: seq<T>, b: seq<T>, p: T -> bool)
    ensures Filter(a + b, p) == Filter(a, p) + Filter(b, p)
  {
    if a == [] {
      assert a + b == b;
    } else {
      assert (a + b)[0] == a[0];
      assert (a + b)[1..] == a[1..] + b;
      FilterAppend(a[1..], b, p);
    }
  }

  /** When every element passes, filtering changes nothing. */
  lemma {:induction false} FilterAll<T>(s: seq<T>, p: T -> bool)
    requires forall i :: 0 <= i < |s| ==> p(s[i])
    ensures Filter(s, p) == s
  {
    if s != [] {
      FilterAll(s[1..], p);
    }
  }

  /** `findIndex`: the first index whose element satisfies `p`, or -1. */
  function FirstIndex<T>(s: seq<T>, p: T -> bool): (i: int)
    ensures -1 <= i < |s|
    ensures 0 <= i ==> p(s[i]) && forall j :: 0 <= j < i ==> !p(s[j])
    ensures i == -1 <==> forall j :: 0 <= j < |s| ==> !p(s[j])
  {
    if s == [] then -1
    else if p(s[0]) then 0
    else
      var k := FirstIndex(s[1..], p);
      if k == -1 then -1 else k + 1
  }

  /** `find`: the first element that satisfies `p`, if there is one. */
  function Find<T>(s: seq<T>, p: T -> bool): (r: Option<T>)
    ensures r.None? <==> forall j :: 0 <= j < |s| ==> !p(s[j])
    ensures r.Some? ==> r.value in s && p(r.value)
  {
    var i := FirstIndex(s, p);
    if i == -1 then None else Some(s[i])
  }

  /** When no element of `a` matches, `findIndex` on `a + b` skips all of `a`. */
  lemma {:induction false} FirstIndexAfterMisses<T>(a: seq<T>, b: seq<T>, p: T -> bool)
    requires forall j :: 0 <= j < |a| ==> !p(a[j])
    ensures FirstIndex(a + b, p) == if FirstIndex(b, p) == -1 then -1 else |a| + FirstIndex(b, p)
  {
    if a != [] {
      assert (a + b)[1..] == a[1..] + b;
      FirstIndexAfterMisses(a[1..], b, p);
    } else {
      assert a + b == b;
    }
  }

  /** When no element of `a` matches, `find` on `a + b` finds what it finds in `b`. */
  lemma FindAfterMisses<T>(a: seq<T>, b: seq<T>, p: T -> bool)
    requires forall j :: 0 <= j < |a| ==> !p(a[j])
    ensures Find(a + b, p) == Find(b, p)
  {
    FirstIndexAfterMisses(a, b, p);
  }
}

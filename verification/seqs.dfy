/** Order-preserving filtering of sequences, the shape of every list comprehension and query filter in the app. */
module Seqs {

  /** `r` can be obtained from `s` by deleting elements, keeping the order of the rest. */
  predicate IsSubsequence<T(==)>(r: seq<T>, s: seq<T>)
    decreases |s|
  {
    if r == [] then true
    else if s == [] then false
    else if r[0] == s[0] then IsSubsequence(r[1..], s[1..])
    else IsSubsequence(r, s[1..])
  }

  /** The elements of `s` satisfying `p`, in the order of `s` (`[x for x in s if p(x)]`). */
  function Filter<T(==)>(s: seq<T>, p: T -> bool): (r: seq<T>)
    ensures |r| <= |s|
    ensures IsSubsequence(r, s)
  {
    if s == [] then []
    else
      var rest := Filter(s[1..], p);
      assert s == [s[0]] + s[1..];
      if p(s[0]) then
        assert ([s[0]] + rest)[1..] == rest;
        [s[0]] + rest
      else
        SubsequenceCons(rest, s[0], s[1..]);
        rest
  }

  /** Dropping the first element of a subsequence leaves a subsequence. */
  lemma {:induction false} SubsequenceTail<T>(r: seq<T>, s: seq<T>)
    requires r != [] && IsSubsequence(r, s)
    ensures IsSubsequence(r[1..], s)
    decreases |s|, 0
  {
    if r[1..] != [] && s != [] {
      if r[0] == s[0] {
        if r[1] == s[0] {
          SubsequenceTail(r[1..], s[1..]);
          assert r[1..][1..] == r[2..];
        } else {
          SubsequenceCons(r[1..], s[0], s[1..]);
          assert s == [s[0]] + s[1..];
        }
      } else {
        SubsequenceTail(r, s[1..]);
        SubsequenceCons(r[1..], s[0], s[1..]);
        assert s == [s[0]] + s[1..];
      }
    }
  }

  /** A subsequence of `t` is a subsequence of `t` with one more element in front. */
  lemma {:induction false} SubsequenceCons<T>(r: seq<T>, x: T, t: seq<T>)
    requires IsSubsequence(r, t)
    ensures IsSubsequence(r, [x] + t)
    decreases |t|, 1
  {
    assert ([x] + t)[1..] == t;
    if r != [] && r[0] == x {
      SubsequenceTail(r, t);
    }
  }

  /** Two sequences with the same multiset of elements have the same members. */
  lemma SameMembers<T>(a: seq<T>, b: seq<T>)
    requires multiset(a) == multiset(b)
    ensures forall x :: x in a <==> x in b
  {
    forall x
      ensures x in a <==> x in b
    {
      assert x in a <==> x in multiset(a);
      assert x in b <==> x in multiset(b);
    }
  }

  lemma {:induction false} FilterAppend<T>(a: seq<T>, b: seq<T>, p: T -> bool)
    ensures Filter(a + b, p) == Filter(a, p) + Filter(b, p)
  {
    if a == [] {
      assert a + b == b;
    } else {
      assert (a + b)[0] == a[0];
      assert (a + b)[1..] == a[1..] + b;
      FilterAppend(a[1..], b, p);
    }
  }

  /** An element survives the filter exactly when it occurs in the input and satisfies the predicate. */
  lemma {:induction false} FilterMembership<T>(s: seq<T>, p: T -> bool)
    ensures forall x :: x in Filter(s, p) <==> x in s && p(x)
  {
    if s != [] {
      FilterMembership(s[1..], p);
      assert s == [s[0]] + s[1..];
    }
  }
}

/**
 Order-preserving filtering of sequences, the shape of a Python list
 comprehension `[x for x in s if keep(x)]`, and counting, the shape of
 `sum(1 for x in s if keep(x))`.
 */
module Seqs {

  /** `a` is `b` with zero or more elements dropped, the rest in their original order. */
  predicate IsSubseq<T(==)>(a: seq<T>, b: seq<T>)
    decreases |b|
  {
    a == [] ||
    (b != [] && ((a[0] == b[0] && IsSubseq(a[1..], b[1..])) || IsSubseq(a, b[1..])))
  }

  /** The number of elements of `s` that satisfy `keep`. */
  function CountIf<T>(s: seq<T>, keep: T -> bool): (n: nat)
    ensures n <= |s|
    ensures n == 0 <==> forall i :: 0 <= i < |s| ==> !keep(s[i])
  {
    if s == [] then 0
    else (if keep(s[0]) then 1 else 0) + CountIf(s[1..], keep)
  }

  /** The elements of `s` that satisfy `keep`, in their original order. */
  function Filter<T(==,!new)>(s: seq<T>, keep: T -> bool): (r: seq<T>)
    ensures IsSubseq(r, s)
    ensures forall x :: multiset(r)[x] == if keep(x) then multiset(s)[x] else 0
    ensures |r| == CountIf(s, keep)
  {
    if s == [] then []
    else
      assert s == [s[0]] + s[1..];
      var rest := Filter(s[1..], keep);
      if keep(s[0]) then
        assert ([s[0]] + rest)[1..] == rest;
        [s[0]] + rest
      else
        rest
  }

  /** Every element a filter keeps satisfies the test, and every element of the
      input that satisfies it is kept. */
  lemma FilterMembers<T(!new)>(s: seq<T>, keep: T -> bool, x: T)
    ensures x in Filter(s, keep) <==> x in s && keep(x)
  {
    var r := Filter(s, keep);
    assert x in r <==> multiset(r)[x] > 0;
    assert x in s <==> multiset(s)[x] > 0;
  }

  /** Filtering a second time with the same test changes nothing. */
  lemma {:induction false} FilterIdempotent<T(!new)>(s: seq<T>, keep: T -> bool)
    ensures Filter(Filter(s, keep), keep) == Filter(s, keep)
  {
    if s != [] {
      FilterIdempotent(s[1..], keep);
      var rest := Filter(s[1..], keep);
      if keep(s[0]) {
        assert ([s[0]] + rest)[1..] == rest;
      }
    }
  }

  /** A filter that every element passes returns its input. */
  lemma {:induction false} FilterKeepsAll<T(!new)>(s: seq<T>, keep: T -> bool)
    requires forall i :: 0 <= i < |s| ==> keep(s[i])
    ensures Filter(s, keep) == s
  {
    if s != [] {
      FilterKeepsAll(s[1..], keep);
      assert [s[0]] + s[1..] == s;
    }
  }

  /** Two complementary tests split the elements of `s` between them. */
  lemma {:induction false} CountIfComplement<T>(s: seq<T>, keep: T -> bool, drop: T -> bool)
    requires forall x :: drop(x) == !keep(x)
    ensures CountIf(s, keep) + CountIf(s, drop) == |s|
  {
    if s != [] {
      CountIfComplement(s[1..], keep, drop);
    }
  }

  /** Appending one element raises the count by one exactly when it passes the test. */
  lemma {:induction false} CountIfAppend<T>(s: seq<T>, x: T, keep: T -> bool)
    ensures CountIf(s + [x], keep) == CountIf(s, keep) + (if keep(x) then 1 else 0)
  {
    if s == [] {
      assert [] + [x] == [x];
    } else {
      assert (s + [x])[1..] == s[1..] + [x];
      CountIfAppend(s[1..], x, keep);
    }
  }

  /** A subsequence holds no element more often than the sequence it is taken from. */
  lemma {:induction false} SubseqMultiset<T>(a: seq<T>, b: seq<T>)
    requires IsSubseq(a, b)
    ensures multiset(a) <= multiset(b)
    decreases |b|
  {
    if a != [] {
      assert b == [b[0]] + b[1..];
      if a[0] == b[0] && IsSubseq(a[1..], b[1..]) {
        SubseqMultiset(a[1..], b[1..]);
        assert a == [a[0]] + a[1..];
      } else {
        SubseqMultiset(a, b[1..]);
      }
    }
  }

  /** The filter is the only subsequence of `s` that keeps every element passing
      the test as often as `s` has it and no element failing it. */
  lemma {:induction false} FilterUnique<T(!new)>(s: seq<T>, keep: T -> bool, r: seq<T>)
    requires IsSubseq(r, s)
    requires forall x :: multiset(r)[x] == if keep(x) then multiset(s)[x] else 0
    ensures r == Filter(s, keep)
    decreases |s|
  {
    if s == [] {
      assert r == [];
    } else {
      assert s == [s[0]] + s[1..];
      var x := s[0];
      if keep(x) {
        // r cannot skip s[0]: then it would be a subsequence of s[1..],
        // which holds one fewer copy of s[0] than r must.
        assert multiset(r)[x] == multiset(s)[x] == multiset(s[1..])[x] + 1;
        if !(r != [] && r[0] == x && IsSubseq(r[1..], s[1..])) {
          assert IsSubseq(r, s[1..]);
          SubseqMultiset(r, s[1..]);
          assert false;
        }
        assert r == [r[0]] + r[1..];
        forall y
          ensures multiset(r[1..])[y] == if keep(y) then multiset(s[1..])[y] else 0
        {
          assert multiset(r)[y] == multiset(r[1..])[y] + (if y == x then 1 else 0);
        }
        FilterUnique(s[1..], keep, r[1..]);
      } else {
        if r != [] {
          assert multiset(r)[r[0]] > 0;
          assert r[0] != x;
        }
        assert IsSubseq(r, s[1..]);
        forall y
          ensures multiset(r)[y] == if keep(y) then multiset(s[1..])[y] else 0
        {
          if y == x {
            assert multiset(r)[y] == 0;
          }
        }
        FilterUnique(s[1..], keep, r);
      }
    }
  }
}

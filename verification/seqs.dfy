/**
 Sequence helpers shared by the poll model: JavaScript's `Array.prototype.filter`,
 duplicate-freedom, and the position of a value in a sequence (`indexOf`).
 */
module Seqs {

  /** The elements of `s` that satisfy `keep`, in their original order. */
  function Filter<T(!new)>(keep: T -> bool, s: seq<T>): (r: seq<T>)
    ensures |r| <= |s|
    ensures forall x :: x in r <==> x in s && keep(x)
    decreases |s|
  {
    if s == [] then []
    else if keep(s[0]) then [s[0]] + Filter(keep, s[1..])
    else Filter(keep, s[1..])
  }

  /** No value occurs twice. */
  predicate Distinct<T(==)>(s: seq<T>) {
    forall i, j :: 0 <= i < j < |s| ==> s[i] != s[j]
  }

  /** Position of the first occurrence of `x` in `s`, or `|s|` when it is absent. */
  function IndexOf<T(==)>(s: seq<T>, x: T): (i: nat)
    ensures i <= |s|
    ensures i < |s| <==> x in s
    ensures i < |s| ==> s[i] == x
    ensures x !in s[..i]
    decreases |s|
  {
    if s == [] then 0
    else if s[0] == x then 0
    else
      assert s[1..][..IndexOf(s[1..], x)] == s[1..1 + IndexOf(s[1..], x)];
      1 + IndexOf(s[1..], x)
  }

  /** In a duplicate-free sequence the element at position `k` is found at `k`. */
  lemma IndexOfDistinct<T>(s: seq<T>, k: int)
    requires Distinct(s)
    requires 0 <= k < |s|
    ensures IndexOf(s, s[k]) == k
  {
  }

  /** Filtering distributes over concatenation: it keeps the relative order of what it keeps. */
  lemma {:induction false} FilterConcat<T(!new)>(keep: T -> bool, a: seq<T>, b: seq<T>)
    ensures Filter(keep, a + b) == Filter(keep, a) + Filter(keep, b)
    decreases |a|
  {
    if a == [] {
      assert a + b == b;
    } else {
      assert (a + b)[0] == a[0];
      assert (a + b)[1..] == a[1..] + b;
      FilterConcat(keep, a[1..], b);
    }
  }

  /** Filtering with a predicate that holds everywhere on `s` returns `s` itself. */
  lemma {:induction false} FilterKeepsAll<T(!new)>(keep: T -> bool, s: seq<T>)
    requires forall x :: x in s ==> keep(x)
    ensures Filter(keep, s) == s
    decreases |s|
  {
    if s != [] {
      assert s[0] in s;
      assert forall x :: x in s[1..] ==> x in s;
      FilterKeepsAll(keep, s[1..]);
    }
  }

  /** Filtering out one element that fails `keep`, with everything around it passing, just drops it. */
  lemma FilterDropsOnly<T(!new)>(keep: T -> bool, front: seq<T>, x: T, back: seq<T>)
    requires forall y :: y in front ==> keep(y)
    requires forall y :: y in back ==> keep(y)
    requires !keep(x)
    ensures Filter(keep, front + [x] + back) == front + back
  {
    assert Filter(keep, [x]) == [] by {
      assert [x][1..] == [];
    }
    FilterKeepsAll(keep, front);
    FilterKeepsAll(keep, back);
    FilterConcat(keep, front, [x]);
    assert Filter(keep, front + [x]) == front;
    FilterConcat(keep, front + [x], back);
  }

  /** Filtering removes exactly the occurrences that fail `keep` and no others. */
  lemma {:induction false} FilterMultiset<T(!new)>(keep: T -> bool, s: seq<T>, x: T)
    ensures multiset(Filter(keep, s))[x] == if keep(x) then multiset(s)[x] else 0
    decreases |s|
  {
    if s != [] {
      assert s == [s[0]] + s[1..];
      FilterMultiset(keep, s[1..], x);
    }
  }

  /** Filtering a duplicate-free sequence leaves it duplicate-free. */
  lemma {:induction false} FilterDistinct<T(!new)>(keep: T -> bool, s: seq<T>)
    requires Distinct(s)
    ensures Distinct(Filter(keep, s))
    decreases |s|
  {
    if s != [] {
      assert Distinct(s[1..]) by {
        forall i, j | 0 <= i < j < |s[1..]|
          ensures s[1..][i] != s[1..][j]
        {
          assert s[1..][i] == s[i + 1] && s[1..][j] == s[j + 1];
        }
      }
      FilterDistinct(keep, s[1..]);
      var rest := Filter(keep, s[1..]);
      if keep(s[0]) {
        assert s[0] !in s[1..] by {
          forall j | 0 <= j < |s[1..]| ensures s[1..][j] != s[0] {
            assert s[1..][j] == s[j + 1];
          }
        }
        assert s[0] !in rest;
        var r := [s[0]] + rest;
        forall i, j | 0 <= i < j < |r| ensures r[i] != r[j] {
          if i == 0 {
            assert r[j] == rest[j - 1];
            assert r[j] in rest;
          } else {
            assert r[i] == rest[i - 1] && r[j] == rest[j - 1];
          }
        }
      }
    }
  }

  /** Filtering out a value that occurs in `s` makes the sequence strictly shorter. */
  lemma {:induction false} FilterDropsSome<T(!new)>(keep: T -> bool, s: seq<T>, x: T)
    requires x in s && !keep(x)
    ensures |Filter(keep, s)| < |s|
    decreases |s|
  {
    if s[0] != x {
      assert x in s[1..];
      FilterDropsSome(keep, s[1..], x);
    }
  }
}

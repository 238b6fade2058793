/** Sequence helpers shared by the pair-maker model: the Option wrapper,
    distinctness, sums of integer lists, and list filtering by value. */
module Basics {

  datatype Option<+T> = None | Some(value: T)

  /** No person occurs twice. */
  predicate Distinct(s: seq<int>)
  {
    forall i, j :: 0 <= i < j < |s| ==> s[i] != s[j]
  }

  /** Python's `sum(...)` over a list of integers, summed from the back. */
  function Sum(s: seq<int>): int
  {
    if s == [] then 0 else Sum(s[..|s| - 1]) + s[|s| - 1]
  }

  lemma SumPrefixStep(s: seq<int>, i: nat)
    requires i < |s|
    ensures Sum(s[..i + 1]) == Sum(s[..i]) + s[i]
  {
    assert s[..i + 1][..i] == s[..i];
  }

  lemma {:induction false} SumUpdate(s: seq<int>, i: nat, v: int)
    requires i < |s|
    ensures Sum(s[i := v]) == Sum(s) - s[i] + v
  {
    if i == |s| - 1 {
      assert s[i := v][..|s| - 1] == s[..|s| - 1];
    } else {
      SumUpdate(s[..|s| - 1], i, v);
      assert s[i := v][..|s| - 1] == s[..|s| - 1][i := v];
    }
  }

  /** `[p for p in s if p != x]`: every copy of `x` is dropped, the rest keeps its order. */
  function Without(s: seq<int>, x: int): (r: seq<int>)
    ensures |r| <= |s|
    ensures x !in r
    ensures forall y :: y != x ==> (y in r <==> y in s)
  {
    if s == [] then []
    else if s[0] == x then Without(s[1..], x)
    else [s[0]] + Without(s[1..], x)
  }

  /** The tail of a distinct list is distinct and does not hold its head. */
  lemma DistinctTail(s: seq<int>)
    requires Distinct(s) && s != []
    ensures Distinct(s[1..]) && s[0] !in s[1..]
  {
    forall k | 1 <= k < |s| ensures s[k] != s[0] { }
    assert forall y :: y in s[1..] ==> exists k :: 1 <= k < |s| && s[k] == y;
  }

  /** On a list without repeats, dropping a member removes exactly one element. */
  lemma {:induction false} WithoutDistinct(s: seq<int>, x: int)
    requires Distinct(s)
    ensures Distinct(Without(s, x))
    ensures x in s ==> multiset(Without(s, x)) + multiset{x} == multiset(s)
    ensures x !in s ==> Without(s, x) == s
  {
    if s != [] {
      DistinctTail(s);
      WithoutDistinct(s[1..], x);
      assert s == [s[0]] + s[1..];
      if s[0] != x {
        var t := Without(s[1..], x);
        assert Distinct([s[0]] + t) by {
          forall i, j | 0 <= i < j < |[s[0]] + t| ensures ([s[0]] + t)[i] != ([s[0]] + t)[j] {
            if i == 0 {
              assert ([s[0]] + t)[j] == t[j - 1];
              assert t[j - 1] in t;
            } else {
              assert ([s[0]] + t)[i] == t[i - 1] && ([s[0]] + t)[j] == t[j - 1];
            }
          }
        }
      }
    }
  }

  /** A distinct list has exactly one copy of each of its members. */
  lemma {:induction false} DistinctMultiplicity(s: seq<int>, x: int)
    requires Distinct(s)
    ensures multiset(s)[x] == (if x in s then 1 else 0)
  {
    if s != [] {
      DistinctTail(s);
      DistinctMultiplicity(s[1..], x);
      assert s == [s[0]] + s[1..];
    }
  }

  /** Reordering a list keeps it free of repeats. */
  lemma DistinctPermutation(s: seq<int>, t: seq<int>)
    requires Distinct(s) && multiset(s) == multiset(t)
    ensures Distinct(t)
  {
    forall i, j | 0 <= i < j < |t| ensures t[i] != t[j] {
      assert t == t[..j] + [t[j]] + t[j + 1..];
      assert t[i] in t[..j];
      assert multiset(t)[t[i]] >= 1 + multiset([t[j]])[t[i]];
      DistinctMultiplicity(s, t[i]);
    }
  }
}

/** Trio fairness of the committed rounds (pair_maker.py:351-384): how many
    times each person sat in a 3-group, and how that compares with the even
    share of 3 trio places per round. */
module Fairness {
  import opened Basics
  import opened Groups

  /** What `get_trio_fairness_stats` reports. `actualCounts` maps every person
      of the list to the number of trio places they took. */
  datatype FairnessStats = FairnessStats(
    totalTrios: nat,
    optimalMin: int,
    optimalMax: int,
    actualMin: int,
    actualMax: int,
    actualCounts: map<int, nat>,
    isFair: bool)

  /** `trio_counts.get(p, 0)`. */
  function Get(counts: map<int, nat>, p: int): (count: nat)
    ensures p in counts ==> count == counts[p]
    ensures count != 0 ==> p in counts
  {
    if p in counts then counts[p] else 0
  }

  /** The trio places of one round: every member of every 3-group, a person
      counted once per place. */
  function RoundTrioPlaces(arr: Arrangement): multiset<int>
  {
    if arr == [] then multiset{}
    else
      var g := arr[|arr| - 1];
      RoundTrioPlaces(arr[..|arr| - 1]) + (if |g| == 3 then multiset(g) else multiset{})
  }

  /** The trio places of all committed rounds. */
  function TrioPlaces(hist: seq<Arrangement>): multiset<int>
  {
    if hist == [] then multiset{} else TrioPlaces(hist[..|hist| - 1]) + RoundTrioPlaces(hist[|hist| - 1])
  }

  /** Every committed round seats each person of `people` exactly once, in
      pairs with one trio last when the count is odd. */
  ghost predicate SeatsEveryone(hist: seq<Arrangement>, people: seq<int>)
  {
    forall k :: 0 <= k < |hist| ==> Partitions(hist[k], people) && WellShaped(hist[k], |people|)
  }

  /** The places the people of a list took, summed over the list. */
  function CountSum(people: seq<int>, b: multiset<int>): int
  {
    if people == [] then 0 else CountSum(people[..|people| - 1], b) + b[people[|people| - 1]]
  }

  lemma {:induction false} CountSumAdd(people: seq<int>, a: multiset<int>, b: multiset<int>)
    ensures CountSum(people, a + b) == CountSum(people, a) + CountSum(people, b)
  {
    if people != [] {
      CountSumAdd(people[..|people| - 1], a, b);
    }
  }

  lemma {:induction false} CountSumSingle(people: seq<int>, x: int)
    requires Distinct(people)
    ensures CountSum(people, multiset{x}) == if x in people then 1 else 0
  {
    if people != [] {
      var init := people[..|people| - 1];
      assert Distinct(init);
      assert people == init + [people[|people| - 1]];
      CountSumSingle(init, x);
    }
  }

  /** Over a list without repeats that holds every member of `g`, the places
      of `g` add up to its size. */
  lemma {:induction false} CountSumOfMembers(people: seq<int>, g: seq<int>)
    requires Distinct(people)
    requires forall x :: x in g ==> x in people
    ensures CountSum(people, multiset(g)) == |g|
  {
    if g == [] {
      CountSumEmpty(people);
    } else {
      var init := g[..|g| - 1];
      assert g == init + [g[|g| - 1]];
      CountSumOfMembers(people, init);
      CountSumSingle(people, g[|g| - 1]);
      CountSumAdd(people, multiset(init), multiset{g[|g| - 1]});
    }
  }

  lemma {:induction false} CountSumEmpty(people: seq<int>)
    ensures CountSum(people, multiset{}) == 0
  {
    if people != [] {
      CountSumEmpty(people[..|people| - 1]);
    }
  }

  /** A round of 2-groups only has no trio places. */
  lemma {:induction false} PairsOnlyNoTrioPlaces(arr: Arrangement)
    requires forall i :: 0 <= i < |arr| ==> |arr[i]| == 2
    ensures RoundTrioPlaces(arr) == multiset{}
  {
    if arr != [] {
      PairsOnlyNoTrioPlaces(arr[..|arr| - 1]);
    }
  }

  /** A round for an odd list has exactly the places of its last group, and
      that group is made of people of the list. */
  lemma OddRoundTrioPlaces(arr: Arrangement, people: seq<int>)
    requires |people| % 2 == 1
    requires Partitions(arr, people) && WellShaped(arr, |people|)
    ensures RoundTrioPlaces(arr) == multiset(arr[|arr| - 1])
    ensures forall x :: x in arr[|arr| - 1] ==> x in people
  {
    var init, last := arr[..|arr| - 1], arr[|arr| - 1];
    PairsOnlyNoTrioPlaces(init);
    forall x | x in last ensures x in people {
      assert x in Flatten(arr);
      assert x in multiset(Flatten(arr));
    }
  }

  /** For a list without repeats of odd size, every committed round hands out
      exactly 3 trio places among the people of the list. */
  lemma {:induction false} TrioPlacesTotal(hist: seq<Arrangement>, people: seq<int>)
    requires Distinct(people) && |people| % 2 == 1
    requires SeatsEveryone(hist, people)
    ensures CountSum(people, TrioPlaces(hist)) == 3 * |hist|
  {
    if hist == [] {
      CountSumEmpty(people);
    } else {
      var init, last := hist[..|hist| - 1], hist[|hist| - 1];
      assert SeatsEveryone(init, people) by {
        assert forall k :: 0 <= k < |init| ==> init[k] == hist[k];
      }
      TrioPlacesTotal(init, people);
      OddRoundTrioPlaces(last, people);
      CountSumOfMembers(people, last[|last| - 1]);
      CountSumAdd(people, TrioPlaces(init), RoundTrioPlaces(last));
    }
  }

  /** With every count at most `hi`, the sum is at most `hi` per person, and
      at most `hi` per other person plus the count of a chosen person `q`. */
  lemma {:induction false} CountSumAtMost(people: seq<int>, b: multiset<int>, hi: int, q: int)
    requires forall i :: 0 <= i < |people| ==> b[people[i]] <= hi
    requires q in people
    ensures CountSum(people, b) <= (|people| - 1) * hi + b[q]
  {
    var init, last := people[..|people| - 1], people[|people| - 1];
    assert people == init + [last];
    assert forall i :: 0 <= i < |init| ==> init[i] == people[i];
    if last == q {
      CountSumBelow(init, b, hi);
    } else {
      assert q in init;
      CountSumAtMost(init, b, hi, q);
    }
  }

  lemma {:induction false} CountSumBelow(people: seq<int>, b: multiset<int>, hi: int)
    requires forall i :: 0 <= i < |people| ==> b[people[i]] <= hi
    ensures CountSum(people, b) <= |people| * hi
  {
    if people != [] {
      var init := people[..|people| - 1];
      CountSumBelow(init, b, hi);
      assert |init| * hi + hi == |people| * hi;
    }
  }

  /** With every count at least `lo`, the sum is at least `lo` per other
      person plus the count of a chosen person `q`. */
  lemma {:induction false} CountSumAtLeast(people: seq<int>, b: multiset<int>, lo: int, q: int)
    requires forall i :: 0 <= i < |people| ==> lo <= b[people[i]]
    requires q in people
    ensures CountSum(people, b) >= (|people| - 1) * lo + b[q]
  {
    var init, last := people[..|people| - 1], people[|people| - 1];
    assert people == init + [last];
    assert forall i :: 0 <= i < |init| ==> init[i] == people[i];
    if last == q {
      CountSumAbove(init, b, lo);
    } else {
      assert q in init;
      CountSumAtLeast(init, b, lo, q);
    }
  }

  lemma {:induction false} CountSumAbove(people: seq<int>, b: multiset<int>, lo: int)
    requires forall i :: 0 <= i < |people| ==> lo <= b[people[i]]
    ensures CountSum(people, b) >= |people| * lo
  {
    if people != [] {
      var init := people[..|people| - 1];
      CountSumAbove(init, b, lo);
      assert |init| * lo + lo == |people| * lo;
    }
  }

  /** Integer division lands on `q` when `s` lies in `[q * n, (q + 1) * n)`. */
  lemma DivBetween(s: int, n: int, q: int)
    requires n > 0 && q * n <= s < (q + 1) * n
    ensures s / n == q
  {
    var d, r := s / n, s % n;
    assert s == d * n + r && 0 <= r < n;
    assert d * n + r < (d + 1) * n;
    MulLess(q, d + 1, n);
    MulLess(d, q + 1, n);
  }

  /** A total `s` over `n` counts that lie between `lo` and `hi`, with one
      count equal to each bound, has its floor share between the bounds, and
      equal to `lo` when the bounds differ by at most one. */
  lemma ShareBetween(s: int, n: int, lo: int, hi: int)
    requires n > 0 && lo <= hi
    requires (n - 1) * lo + hi <= s <= (n - 1) * hi + lo
    ensures lo <= s / n <= hi
    ensures hi - lo <= 1 ==> s / n == lo
  {
    assert n * lo <= (n - 1) * lo + hi;
    assert (n - 1) * hi + lo <= n * hi;
    var d, r := s / n, s % n;
    assert s == d * n + r;
    if hi - lo <= 1 {
      assert (n - 1) * hi + lo < n * (lo + 1);
      DivBetween(s, n, lo);
    } else {
      assert lo * n <= d * n + r < (d + 1) * n;
      assert d * n <= s <= hi * n;
      MulLess(lo, d + 1, n);
      MulAtMost(d, hi, n);
    }
  }

  lemma MulLess(a: int, b: int, n: int)
    requires n > 0 && a * n < b * n
    ensures a < b
  {
    assert (b - a) * n > 0;
  }

  lemma MulAtMost(a: int, b: int, n: int)
    requires n > 0 && a * n <= b * n
    ensures a <= b
  {
    assert (b - a) * n >= 0;
  }

  /** `optimal_min`, the floor of the even share, lies between the smallest
      and the largest count of a list without repeats of odd size; and when
      the counts differ by at most one, the smallest count is exactly
      `optimal_min` and the largest at most `optimal_max`. */
  lemma FairShare(hist: seq<Arrangement>, people: seq<int>, lo: int, hi: int)
    requires Distinct(people) && |people| % 2 == 1
    requires SeatsEveryone(hist, people)
    requires forall p :: p in people ==> lo <= TrioPlaces(hist)[p] <= hi
    requires exists p :: p in people && TrioPlaces(hist)[p] == lo
    requires exists p :: p in people && TrioPlaces(hist)[p] == hi
    ensures lo <= 3 * |hist| / |people| <= hi
    ensures hi - lo <= 1 ==> lo == 3 * |hist| / |people| && hi <= 3 * |hist| / |people| + 1
  {
    var n, s, b := |people|, 3 * |hist|, TrioPlaces(hist);
    TrioPlacesTotal(hist, people);
    var qLo :| qLo in people && b[qLo] == lo;
    var qHi :| qHi in people && b[qHi] == hi;
    assert forall i :: 0 <= i < n ==> lo <= b[people[i]] <= hi;
    CountSumAtLeast(people, b, lo, qHi);
    CountSumAtMost(people, b, hi, qLo);
    ShareBetween(s, n, lo, hi);
  }
}

/** The trio planner of `OptimizedPairMaker` (pair_maker.py:17-70): for an
    odd number of people, one 3-person group per round, chosen so that the
    3 * targetCount trio places are spread as evenly as integer division allows.
    People are addressed by their index in the list; a trio is the list of the
    three chosen people. */
module TrioPlanner {
  import opened Basics
  import opened Groups

  /** `target_counts`: 3 * t trio places over n people, the first `3t mod n`
      people taking one place more than the others. */
  function TrioTargets(n: nat, t: nat): (targets: seq<int>)
    requires n > 0
    ensures |targets| == n
    ensures forall i :: 0 <= i < n ==> 3 * t / n <= targets[i] <= 3 * t / n + 1
  {
    seq(n, i => 3 * t / n + (if i < 3 * t % n then 1 else 0))
  }

  /** The first `k` shares, when every share is `base` and the first `extra`
      get one more. */
  lemma {:induction false} TargetsPrefixSum(targets: seq<int>, base: int, extra: nat, k: nat)
    requires k <= |targets|
    requires forall i :: 0 <= i < |targets| ==> targets[i] == base + (if i < extra then 1 else 0)
    ensures Sum(targets[..k]) == k * base + (if k < extra then k else extra)
  {
    if k > 0 {
      TargetsPrefixSum(targets, base, extra, k - 1);
      SumPrefixStep(targets, k - 1);
      assert (k - 1) * base + base == k * base;
    }
  }

  /** The per-person targets add up to exactly the 3 * t trio places; every
      target is the base share or one more, and exactly the first `3t mod n`
      people get one more. */
  lemma TrioTargetsSum(n: nat, t: nat)
    requires n > 0
    ensures Sum(TrioTargets(n, t)) == 3 * t
    ensures forall i :: 0 <= i < n ==>
      (TrioTargets(n, t)[i] == 3 * t / n + 1 <==> i < 3 * t % n) &&
      (TrioTargets(n, t)[i] == 3 * t / n || TrioTargets(n, t)[i] == 3 * t / n + 1)
  {
    TargetsPrefixSum(TrioTargets(n, t), 3 * t / n, 3 * t % n, n);
    assert TrioTargets(n, t)[..n] == TrioTargets(n, t);
  }

  /** `weights`: each person's shortfall against their target, never negative. */
  function Deficits(targets: seq<int>, current: seq<int>): (weights: seq<int>)
    requires |targets| == |current|
    ensures |weights| == |targets|
    ensures forall i :: 0 <= i < |weights| ==>
      0 <= weights[i] && targets[i] - current[i] <= weights[i] &&
      (weights[i] == 0 <==> current[i] >= targets[i])
  {
    seq(|targets|, i requires 0 <= i < |targets| =>
      if targets[i] - current[i] > 0 then targets[i] - current[i] else 0)
  }

  /** The shortfalls add up to at least the places still to fill. */
  lemma {:induction false} DeficitSumBound(targets: seq<int>, current: seq<int>)
    requires |targets| == |current|
    ensures Sum(Deficits(targets, current)) >= Sum(targets) - Sum(current)
  {
    if targets != [] {
      var k := |targets| - 1;
      assert Deficits(targets, current)[..k] == Deficits(targets[..k], current[..k]);
      DeficitSumBound(targets[..k], current[..k]);
    }
  }

  /** `r <= cumsum` first holds at index `idx`: the weighted draw lands there. */
  ghost predicate IsDrawIndex(weights: seq<int>, r: int, idx: nat)
  {
    idx < |weights| && r <= Sum(weights[..idx + 1]) &&
    forall j :: 0 < j <= idx ==> Sum(weights[..j]) < r
  }

  /** The cumulative-sum scan of the weighted draw: walk the weights, adding
      each to a running total, and stop at the first index where the draw `r`
      is at most the total. */
  method DrawIndex(weights: seq<int>, r: int) returns (idx: nat)
    requires forall i :: 0 <= i < |weights| ==> weights[i] >= 0
    requires 0 <= r <= Sum(weights)
    requires weights != []
    ensures IsDrawIndex(weights, r, idx)
  {
    assert weights[..|weights|] == weights;
    var cumsum := 0;
    idx := 0;
    while idx < |weights|
      invariant idx <= |weights|
      invariant cumsum == Sum(weights[..idx])
      invariant idx > 0 ==> cumsum < r
      invariant forall j :: 0 < j <= idx ==> Sum(weights[..j]) < r
    {
      SumPrefixStep(weights, idx);
      cumsum := cumsum + weights[idx];
      if r <= cumsum {
        return;
      }
      idx := idx + 1;
    }
    assert false;
  }

  /** A draw in (0, total] lands on a person whose weight is positive. */
  lemma PositiveDrawSelectsPositiveWeight(weights: seq<int>, r: int, idx: nat)
    requires 0 < r && IsDrawIndex(weights, r, idx)
    ensures weights[idx] > 0
  {
    SumPrefixStep(weights, idx);
    if idx > 0 {
      assert Sum(weights[..idx]) < r;
    }
  }

  /** A draw of exactly zero, which `random.random() * total_weight` can
      produce, lands on the first person even when their weight is zero, for
      instance after they were already drawn for this trio. */
  lemma ZeroDrawSelectsZeroWeight()
    ensures IsDrawIndex([0, 2, 1], 0, 0)
    ensures forall idx :: IsDrawIndex([0, 2, 1], 0, idx) ==> idx == 0
  {
    assert [0, 2, 1][..1] == [0];
  }

  /** With fewer than three of at least three indices taken, one of 0, 1, 2 is free. */
  lemma FreeIndexExists(n: nat, taken: seq<nat>)
    requires n >= 3 && |taken| < 3
    ensures exists i :: 0 <= i < n && i !in taken
  {
    if 0 in taken && 1 in taken {
      assert 2 !in taken;
    }
  }

  /** `remaining`: the indices below n that are not in the trio yet. */
  function FreeIndices(n: nat, taken: seq<nat>): (free: seq<nat>)
    ensures forall i :: i in free <==> 0 <= i < n && i !in taken
  {
    if n == 0 then []
    else FreeIndices(n - 1, taken) + (if n - 1 in taken then [] else [n - 1])
  }

  /** `trio_indices` are three different people of the list. */
  ghost predicate DistinctIndices(trio: seq<nat>, n: nat)
  {
    (forall m :: 0 <= m < |trio| ==> trio[m] < n) &&
    forall a, b :: 0 <= a < b < |trio| ==> trio[a] != trio[b]
  }

  /** `trio_members`: the people at the chosen indices, one per index, all of
      them people of the list; different indices into a list without repeats
      give different people. */
  function Members(people: seq<int>, trio: seq<nat>): (members: seq<int>)
    requires forall m :: 0 <= m < |trio| ==> trio[m] < |people|
    ensures |members| == |trio|
    ensures forall x :: x in members ==> x in people
    ensures Distinct(people) && DistinctIndices(trio, |people|) ==> Distinct(members)
  {
    seq(|trio|, m requires 0 <= m < |trio| => people[trio[m]])
  }

  /** `current_counts[i] += 1` for every chosen index. */
  method CountTrio(current: seq<int>, trio: seq<nat>) returns (next: seq<int>)
    requires DistinctIndices(trio, |current|)
    ensures |next| == |current|
    ensures Sum(next) == Sum(current) + |trio|
    ensures forall i :: 0 <= i < |current| ==> next[i] == current[i] + (if i in trio then 1 else 0)
  {
    next := current;
    var m := 0;
    while m < |trio|
      invariant m <= |trio| && |next| == |current|
      invariant Sum(next) == Sum(current) + m
      invariant forall i :: 0 <= i < |current| ==> next[i] == current[i] + (if i in trio[..m] then 1 else 0)
    {
      SumUpdate(next, trio[m], next[trio[m]] + 1);
      assert trio[..m + 1] == trio[..m] + [trio[m]];
      next := next[trio[m] := next[trio[m]] + 1];
      m := m + 1;
    }
    assert trio[..m] == trio;
  }

  /** The weighted draw of one round: up to three draws, each landing on a
      person with positive weight whose weight is then zeroed, stopping early
      when no weight is left. The indices drawn are different people. */
  method DrawTrio(weights0: seq<int>) returns (trio: seq<nat>)
    requires forall i :: 0 <= i < |weights0| ==> weights0[i] >= 0
    ensures |trio| <= 3 && DistinctIndices(trio, |weights0|)
    ensures forall m :: 0 <= m < |trio| ==> weights0[trio[m]] > 0
    ensures |trio| < 3 ==> forall i :: 0 <= i < |weights0| && i !in trio ==> weights0[i] == 0
  {
    var weights := weights0;
    trio := [];
    var draws := 0;
    while draws < 3
      invariant |trio| == draws <= 3 && |weights| == |weights0|
      invariant DistinctIndices(trio, |weights0|)
      invariant forall i :: 0 <= i < |weights| ==> weights[i] == (if i in trio then 0 else weights0[i])
      invariant forall m :: 0 <= m < |trio| ==> weights0[trio[m]] > 0
    {
      var total := Sum(weights);
      if total == 0 {
        ZeroSumAllZero(weights);
        break;
      }
      NonnegativeSum(weights);
      assert total > 0;
      // `random.random() * total_weight` lies in [0, total); the cumulative
      // comparison only sees its ceiling, taken here in (0, total].
      var r: int :| 0 < r <= total;
      var idx := DrawIndex(weights, r);
      PositiveDrawSelectsPositiveWeight(weights, r, idx);
      trio := trio + [idx];
      weights := weights[idx := 0];
      draws := draws + 1;
    }
  }

  /** Nonnegative weights that add up to zero are all zero. */
  lemma {:induction false} ZeroSumAllZero(weights: seq<int>)
    requires forall i :: 0 <= i < |weights| ==> weights[i] >= 0
    requires Sum(weights) == 0
    ensures forall i :: 0 <= i < |weights| ==> weights[i] == 0
  {
    if weights != [] {
      var k := |weights| - 1;
      NonnegativeSum(weights[..k]);
      ZeroSumAllZero(weights[..k]);
      assert forall i :: 0 <= i < k ==> weights[i] == weights[..k][i];
    }
  }

  lemma {:induction false} NonnegativeSum(weights: seq<int>)
    requires forall i :: 0 <= i < |weights| ==> weights[i] >= 0
    ensures Sum(weights) >= 0
  {
    if weights != [] {
      NonnegativeSum(weights[..|weights| - 1]);
    }
  }

  /** People still short of their target come first: somebody with no
      shortfall is in the trio only when everybody with one is in it too. */
  ghost predicate ShortFirst(weights: seq<int>, trio: seq<nat>)
  {
    forall m, i ::
      0 <= m < |trio| && trio[m] < |weights| && weights[trio[m]] == 0 && 0 <= i < |weights| && weights[i] > 0
      ==> i in trio
  }

  /** One round's trio: the weighted draws, then the fill from the people not
      yet chosen until there are three. */
  method ChooseTrio(weights: seq<int>) returns (trio: seq<nat>)
    requires |weights| >= 3
    requires forall i :: 0 <= i < |weights| ==> weights[i] >= 0
    ensures |trio| == 3 && DistinctIndices(trio, |weights|)
    ensures ShortFirst(weights, trio)
  {
    var n := |weights|;
    trio := DrawTrio(weights);
    ghost var drawn := trio;
    while |trio| < 3
      invariant |trio| <= 3 && DistinctIndices(trio, n)
      invariant |drawn| <= |trio| && trio[..|drawn|] == drawn
      invariant |drawn| < 3 ==> forall i :: 0 <= i < n && weights[i] > 0 ==> i in drawn
      invariant forall m :: 0 <= m < |drawn| ==> weights[drawn[m]] > 0
      decreases 3 - |trio|
    {
      FreeIndexExists(n, trio);
      var remaining := FreeIndices(n, trio);
      var j :| j in remaining;
      assert (trio + [j])[..|drawn|] == trio[..|drawn|];
      trio := trio + [j];
    }
    forall m, i | 0 <= m < |trio| && weights[trio[m]] == 0 && 0 <= i < n && weights[i] > 0
      ensures i in trio
    {
      assert forall d :: 0 <= d < |drawn| ==> trio[d] == drawn[d];
      assert i in drawn;
      var d :| 0 <= d < |drawn| && drawn[d] == i;
      assert trio[d] == i;
    }
  }

  /** `current_counts` after the rounds whose trio indices are `picks`. */
  ghost function Tally(n: nat, picks: seq<seq<nat>>): (counts: seq<int>)
    ensures |counts| == n
  {
    if picks == [] then seq(n, i => 0)
    else
      var before := Tally(n, picks[..|picks| - 1]);
      seq(n, i requires 0 <= i < n => before[i] + (if i in picks[|picks| - 1] then 1 else 0))
  }

  /** Round `k` of a plan: three different indices chosen short-first against
      the shortfalls left by the rounds before, shown as their people. */
  ghost predicate PlannedRound(people: seq<int>, t: nat, before: seq<seq<nat>>, pick: seq<nat>, members: seq<int>)
    requires |people| > 0
  {
    |pick| == 3 && DistinctIndices(pick, |people|) && members == Members(people, pick) &&
    ShortFirst(Deficits(TrioTargets(|people|, t), Tally(|people|, before)), pick)
  }

  /** Every round of the plan was chosen short-first. */
  ghost predicate ShortFirstPlan(people: seq<int>, t: nat, picks: seq<seq<nat>>, plan: seq<seq<int>>)
    requires |people| > 0
  {
    |picks| == |plan| &&
    forall k {:trigger picks[k]} :: 0 <= k < |plan| ==> PlannedRound(people, t, picks[..k], picks[k], plan[k])
  }

  lemma TallySnoc(n: nat, picks: seq<seq<nat>>, pick: seq<nat>, next: seq<int>)
    requires |next| == n
    requires forall i :: 0 <= i < n ==> next[i] == Tally(n, picks)[i] + (if i in pick then 1 else 0)
    ensures next == Tally(n, picks + [pick])
  {
    assert (picks + [pick])[..|picks|] == picks;
  }

  lemma PlanSnoc(people: seq<int>, t: nat, picks: seq<seq<nat>>, plan: seq<seq<int>>, pick: seq<nat>, members: seq<int>)
    requires |people| > 0
    requires ShortFirstPlan(people, t, picks, plan)
    requires PlannedRound(people, t, picks, pick, members)
    ensures ShortFirstPlan(people, t, picks + [pick], plan + [members])
  {
    var picks', plan' := picks + [pick], plan + [members];
    forall k | 0 <= k < |plan'| ensures PlannedRound(people, t, picks'[..k], picks'[k], plan'[k]) {
      if k < |plan| {
        assert picks'[..k] == picks[..k];
      } else {
        assert picks'[..k] == picks;
      }
    }
  }

  /** One round of the planner once the shortfalls allow a trio: choose the
      trio, show it as people, and add it to the running counts. */
  method PlanRound(people: seq<int>, t: nat, current: seq<int>, ghost picks: seq<seq<nat>>)
    returns (trio: seq<nat>, members: seq<int>, next: seq<int>)
    requires |people| >= 3 && current == Tally(|people|, picks)
    ensures PlannedRound(people, t, picks, trio, members)
    ensures next == Tally(|people|, picks + [trio]) && Sum(next) == Sum(current) + 3
  {
    var weights := Deficits(TrioTargets(|people|, t), current);
    trio := ChooseTrio(weights);
    members := Members(people, trio);
    next := CountTrio(current, trio);
    TallySnoc(|people|, picks, trio, next);
  }

  /** A short-first plan is made of trios of the people. */
  lemma PlanShape(people: seq<int>, t: nat, picks: seq<seq<nat>>, plan: seq<seq<int>>)
    requires |people| > 0 && ShortFirstPlan(people, t, picks, plan)
    ensures forall k :: 0 <= k < |plan| ==> |plan[k]| == 3 && forall x :: x in plan[k] ==> x in people
    ensures Distinct(people) ==> forall k :: 0 <= k < |plan| ==> TrioOf(plan[k], people)
  {
    forall k | 0 <= k < |plan|
      ensures |plan[k]| == 3 && forall x :: x in plan[k] ==> x in people
      ensures Distinct(people) ==> TrioOf(plan[k], people)
    {
      assert PlannedRound(people, t, picks[..k], picks[k], plan[k]);
    }
  }

  /** `plan_trio_distribution`: no trios for an even list; otherwise one trio
      per round, drawn by shortfall and topped up from the people not yet in
      the trio. The number of trio places handed out is 3 per round. */
  method PlanTrioDistribution(people: seq<int>, targetCount: nat) returns (plan: seq<seq<int>>, ghost picks: seq<seq<nat>>)
    requires |people| != 1 || targetCount == 0
    ensures |people| % 2 == 0 ==> plan == []
    ensures |people| % 2 == 1 ==> |plan| == targetCount
    ensures forall k :: 0 <= k < |plan| ==> |plan[k]| == 3 && forall x :: x in plan[k] ==> x in people
    ensures Distinct(people) ==> forall k :: 0 <= k < |plan| ==> TrioOf(plan[k], people)
    ensures |people| % 2 == 1 ==> ShortFirstPlan(people, targetCount, picks, plan)
  {
    if |people| % 2 == 0 {
      return [], [];
    }
    var n := |people|;
    var targets := TrioTargets(n, targetCount);
    TrioTargetsSum(n, targetCount);
    var current := seq(n, i => 0);
    assert Sum(current) == 0 by {
      ZeroSumOfZeros(current);
    }
    plan, picks := [], [];
    var round := 0;
    while round < targetCount
      invariant round <= targetCount && |plan| == round && |current| == n
      invariant current == Tally(n, picks) && ShortFirstPlan(people, targetCount, picks, plan)
      invariant Sum(current) == 3 * round
    {
      var weights := Deficits(targets, current);
      DeficitSumBound(targets, current);
      if Sum(weights) >= 3 {
        var trio, members, next := PlanRound(people, targetCount, current, picks);
        PlanSnoc(people, targetCount, picks, plan, trio, members);
        current := next;
        plan, picks := plan + [members], picks + [trio];
      } else {
        assert false;
      }
      round := round + 1;
    }
    PlanShape(people, targetCount, picks, plan);
  }

  lemma {:induction false} ZeroSumOfZeros(s: seq<int>)
    requires forall i :: 0 <= i < |s| ==> s[i] == 0
    ensures Sum(s) == 0
  {
    if s != [] {
      ZeroSumOfZeros(s[..|s| - 1]);
    }
  }
}

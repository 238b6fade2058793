/** The multi-round driver of `OptimizedPairMaker` (pair_maker.py:9-15,
    258-349): the pair ledger and the committed rounds live in a `PairMaker`
    object; every round takes the planned trio, tries a bounded number of
    shuffled constructions, and commits the first arrangement that repeats no
    pair of the ledger. */
module Session {
  import opened Basics
  import opened Groups
  import opened Partitioner
  import opened TrioPlanner
  import opened Builder
  import opened Fairness

  /** The message `generate_multiple_arrangements` returns next to its count. */
  datatype Diagnostic =
    | Infeasible               // more pairs requested than the list has
    | RoundExhausted(count: nat) // only `count` rounds could be built

  /** Every pair key consumed by a list of committed rounds. */
  function HistoryLedger(hist: seq<Arrangement>): set<Pair>
  {
    if hist == [] then {} else HistoryLedger(hist[..|hist| - 1]) + LedgerPairs(hist[|hist| - 1])
  }

  /** The ledger of the history holds the keys of each of its rounds. */
  lemma {:induction false} HistoryLedgerHolds(hist: seq<Arrangement>, k: nat)
    requires k < |hist|
    ensures LedgerPairs(hist[k]) <= HistoryLedger(hist)
  {
    if k < |hist| - 1 {
      HistoryLedgerHolds(hist[..|hist| - 1], k);
      assert hist[..|hist| - 1][k] == hist[k];
    }
  }

  /** Each committed round passed validation against the ledger of the rounds
      before it. */
  ghost predicate RepeatsNothing(hist: seq<Arrangement>)
  {
    forall k :: 0 <= k < |hist| ==> IsArrangementValid(hist[k], HistoryLedger(hist[..k]))
  }

  /** `total_possible`: the number of 2-person combinations of n people. */
  function TotalPossible(n: nat): (total: nat)
    ensures 2 * total == n * (n - 1)
  {
    ConsecutiveProductEven(n);
    n * (n - 1) / 2
  }

  lemma {:induction false} ConsecutiveProductEven(n: nat)
    ensures n * (n - 1) % 2 == 0
  {
    if n > 1 {
      ConsecutiveProductEven(n - 1);
      assert n * (n - 1) == (n - 1) * (n - 2) + 2 * (n - 1);
    }
  }

  /** `needed_pairs`: n // 2 pairs per round, the estimate the guard uses. */
  function NeededPairs(targetCount: nat, n: nat): (needed: nat)
    ensures needed == 0 <==> targetCount == 0 || n < 2
  {
    targetCount * (n / 2)
  }

  /** Every committed round holds at least one group. */
  ghost predicate NoEmptyRound(hist: seq<Arrangement>)
  {
    forall k :: 0 <= k < |hist| ==> hist[k] != []
  }

  /** `max_attempts` of round `r`: 50 plus 10 per earlier round, at most 200. */
  function MaxAttempts(round: nat): (m: nat)
    ensures 50 <= m <= 200
    ensures round <= 15 ==> m == 50 + 10 * round
    ensures round >= 15 ==> m == 200
  {
    if 50 + 10 * round < 200 then 50 + 10 * round else 200
  }

  /** The number of replacement steps `adjust_trio_members` may take. */
  function Intensity(attempt: nat): (k: nat)
    ensures k <= 2 && k <= attempt / 50
    ensures k == 2 || k == attempt / 50
  {
    if attempt / 50 < 2 then attempt / 50 else 2
  }

  /** `list.remove(x)`: the first copy of `x` is dropped. */
  function RemoveFirst(s: seq<int>, x: int): (r: seq<int>)
    requires x in s
    ensures |r| == |s| - 1
    ensures multiset(r) == multiset(s) - multiset{x}
  {
    assert s == [s[0]] + s[1..];
    if s[0] == x then s[1..] else [s[0]] + RemoveFirst(s[1..], x)
  }

  /** `[p for p in people if p not in current]`. */
  function Outside(people: seq<int>, current: seq<int>): (r: seq<int>)
    ensures forall p :: p in r <==> p in people && p !in current
  {
    if people == [] then []
    else if people[0] in current then Outside(people[1..], current)
    else [people[0]] + Outside(people[1..], current)
  }

  /** A list without repeats keeps none after one copy is swapped for a
      newcomer it did not hold. */
  lemma SwapKeepsDistinct(s: seq<int>, old_: int, new_: int)
    requires Distinct(s) && old_ in s && new_ !in s
    ensures Distinct(RemoveFirst(s, old_) + [new_])
  {
    var t := RemoveFirst(s, old_) + [new_];
    forall x ensures multiset(t)[x] <= 1 {
      DistinctMultiplicity(s, x);
    }
    forall i, j | 0 <= i < j < |t| ensures t[i] != t[j] {
      assert t == t[..j] + [t[j]] + t[j + 1..];
      assert t[i] in t[..j];
      assert multiset(t)[t[j]] >= multiset(t[..j])[t[j]] + 1;
    }
  }

  /** `adjust_trio_members`: a planned trio of three, after `Intensity(attempt)`
      coin flips, each of which may swap one member for someone of `people`
      outside the trio. Anything but a trio of three is handed back as is. */
  method AdjustTrioMembers(people: seq<int>, original: seq<int>, attempt: nat) returns (current: seq<int>)
    ensures |original| != 3 || attempt < 50 ==> current == original
    ensures |current| == |original|
    ensures forall x :: x in current ==> x in original || x in people
    ensures Distinct(original) ==> Distinct(current)
  {
    if |original| != 3 {
      return original;
    }
    var intensity := Intensity(attempt);
    current := original;
    var step := 0;
    while step < intensity
      invariant step <= intensity && |current| == 3
      invariant forall x :: x in current ==> x in original || x in people
      invariant Distinct(original) ==> Distinct(current)
      invariant intensity == 0 ==> current == original
    {
      var change: bool :| true;
      if change {
        var i: nat :| i < |current|;
        var oldMember := current[i];
        var others := Outside(people, current);
        if others != [] {
          var j: nat :| j < |others|;
          var newMember := others[j];
          if Distinct(original) {
            SwapKeepsDistinct(current, oldMember, newMember);
          }
          var kept := RemoveFirst(current, oldMember);
          assert forall x :: x in kept ==> x in current by {
            forall x | x in kept ensures x in current {
              assert x in multiset(kept);
            }
          }
          current := kept + [newMember];
        }
      }
      step := step + 1;
    }
  }

  /** `if arrangement and self.is_arrangement_valid(arrangement)`: a round is
      accepted when it is non-empty and repeats no pair of the ledger. */
  predicate Acceptable(a: Option<Arrangement>, used: set<Pair>): (ok: bool)
    ensures ok <==> a.Some? && a.value != [] && forall g :: g in a.value ==> GroupLedger(g) !! used
  {
    a.Some? && a.value != [] && IsArrangementValid(a.value, used)
  }

  /** The corrected end of a round: the first acceptable attempt, if any. */
  function FirstValid(tries: seq<Option<Arrangement>>, used: set<Pair>): (r: Option<Arrangement>)
  {
    if tries == [] then None
    else if Acceptable(tries[0], used) then tries[0]
    else FirstValid(tries[1..], used)
  }

  /** The round's attempt loop and its fallback as written: the loop stops at
      the first acceptable attempt; if none was, the last attempt is
      committed whenever it is a non-empty arrangement, valid or not. */
  function RoundOutcomeAsWritten(tries: seq<Option<Arrangement>>, used: set<Pair>): (r: Option<Arrangement>)
    ensures r.Some? ==> r.value != [] && r in tries
    ensures r.None? ==> forall k :: 0 <= k < |tries| ==> !Acceptable(tries[k], used)
  {
    FirstValidAccepts(tries, used);
    var first := FirstValid(tries, used);
    if first.Some? then first
    else if tries != [] && tries[|tries| - 1].Some? && tries[|tries| - 1].value != [] then tries[|tries| - 1]
    else None
  }

  /** The corrected outcome is an acceptable attempt, and there is one exactly
      when some attempt was acceptable. */
  lemma {:induction false} FirstValidAccepts(tries: seq<Option<Arrangement>>, used: set<Pair>)
    ensures FirstValid(tries, used).Some? ==>
      Acceptable(FirstValid(tries, used), used) && FirstValid(tries, used) in tries
    ensures FirstValid(tries, used).None? <==> forall k :: 0 <= k < |tries| ==> !Acceptable(tries[k], used)
  {
    if tries != [] {
      FirstValidAccepts(tries[1..], used);
      assert forall k :: 1 <= k < |tries| ==> tries[k] == tries[1..][k - 1];
    }
  }

  /** The two outcomes agree whenever some attempt was acceptable. */
  lemma RoundOutcomesAgree(tries: seq<Option<Arrangement>>, used: set<Pair>)
    requires exists k :: 0 <= k < |tries| && Acceptable(tries[k], used)
    ensures RoundOutcomeAsWritten(tries, used) == FirstValid(tries, used)
    ensures Acceptable(RoundOutcomeAsWritten(tries, used), used)
  {
    FirstValidAccepts(tries, used);
  }

  /** With three people and two rounds requested, the first round seats them
      as one trio; in the second every construction is that trio again, and
      the fallback commits it although all three of its pairs are used. */
  lemma FallbackCommitsRepeatedTrio()
    ensures RoundOutcomeAsWritten([Some([[1, 2, 3]])], {(1, 2), (1, 3), (2, 3)}) == Some([[1, 2, 3]])
    ensures !IsArrangementValid([[1, 2, 3]], {(1, 2), (1, 3), (2, 3)})
    ensures FirstValid([Some([[1, 2, 3]])], {(1, 2), (1, 3), (2, 3)}) == None
  {
    var trio: Group := [1, 2, 3];
    var used: set<Pair> := {(1, 2), (1, 3), (2, 3)};
    assert !GroupFresh(trio, used);
    var noRounds: Arrangement := [];
    assert [trio][..0] == noRounds;
    assert !IsArrangementValid([trio], used);
    var noTries: seq<Option<Arrangement>> := [];
    assert [Some([trio])][1..] == noTries;
  }

  /** Rounds committed one after the other, each valid against the ledger of
      those before it, never seat two people together twice. */
  lemma NeverTogetherTwice(hist: seq<Arrangement>, k: nat, l: nat, x: int, y: int)
    requires RepeatsNothing(hist)
    requires k < l < |hist|
    requires TogetherIn(hist[l], x, y)
    ensures !TogetherIn(hist[k], x, y)
  {
    TogetherImpliesLedger(hist[k], x, y);
    TogetherInLedger(hist[l], x, y);
    assert hist[..l][k] == hist[k];
    HistoryLedgerHolds(hist[..l], k);
  }

  lemma TogetherImpliesLedger(arr: Arrangement, x: int, y: int)
    ensures TogetherIn(arr, x, y) ==> Ordered(x, y) in LedgerPairs(arr)
  {
    if TogetherIn(arr, x, y) {
      TogetherInLedger(arr, x, y);
    }
  }

  /** The ledger after one more committed round. */
  lemma HistoryLedgerSnoc(hist: seq<Arrangement>, a: Arrangement)
    ensures HistoryLedger(hist + [a]) == HistoryLedger(hist) + LedgerPairs(a)
  {
    assert (hist + [a])[..|hist|] == hist;
  }

  /** Committing a round that is valid against the ledger keeps every round
      free of repeats. */
  lemma RepeatsNothingSnoc(hist: seq<Arrangement>, a: Arrangement)
    requires RepeatsNothing(hist)
    requires IsArrangementValid(a, HistoryLedger(hist))
    ensures RepeatsNothing(hist + [a])
  {
    var h := hist + [a];
    forall k | 0 <= k < |h| ensures IsArrangementValid(h[k], HistoryLedger(h[..k])) {
      if k < |hist| {
        assert h[..k] == hist[..k];
      } else {
        assert h[..k] == hist;
      }
    }
  }

  /** One more group of the round adds its own keys to the ledger. */
  lemma LedgerPrefixStep(arr: Arrangement, i: nat)
    requires i < |arr|
    ensures LedgerPairs(arr[..i + 1]) == LedgerPairs(arr[..i]) + GroupLedger(arr[i])
  {
    assert arr[..i + 1][..i] == arr[..i];
  }

  /** The loop of `add_arrangement` that collects a round's pair keys: one
      key per 2-group, three per 3-group, none for any other group. */
  method NewPairs(arr: Arrangement) returns (newPairs: set<Pair>)
    ensures newPairs == LedgerPairs(arr)
  {
    newPairs := {};
    var i := 0;
    while i < |arr|
      invariant i <= |arr|
      invariant newPairs == LedgerPairs(arr[..i])
    {
      var g := arr[i];
      GroupLedgerSmall(g);
      LedgerPrefixStep(arr, i);
      if |g| == 2 {
        newPairs := newPairs + {Ordered(g[0], g[1])};
      } else if |g| == 3 {
        newPairs := newPairs + {Ordered(g[0], g[1]), Ordered(g[0], g[2]), Ordered(g[1], g[2])};
      } else {
        assert GroupPairs(g) == [];
      }
      i := i + 1;
    }
    assert arr[..i] == arr;
  }

  /** Committing an acceptable round that seats everyone keeps the history's
      promises. */
  lemma CommitKeepsHistory(hist: seq<Arrangement>, a: Arrangement, people: seq<int>)
    requires RepeatsNothing(hist) && NoEmptyRound(hist)
    requires Distinct(people) ==> SeatsEveryone(hist, people)
    requires Acceptable(Some(a), HistoryLedger(hist))
    requires Distinct(people) ==> Partitions(a, people) && WellShaped(a, |people|)
    ensures RepeatsNothing(hist + [a]) && NoEmptyRound(hist + [a])
    ensures Distinct(people) ==> SeatsEveryone(hist + [a], people)
  {
    RepeatsNothingSnoc(hist, a);
    NoEmptyRoundSnoc(hist, a);
    if Distinct(people) {
      SeatsEveryoneSnoc(hist, a, people);
    }
  }

  lemma NoEmptyRoundSnoc(hist: seq<Arrangement>, a: Arrangement)
    requires NoEmptyRound(hist) && a != []
    ensures NoEmptyRound(hist + [a])
  {
    var h := hist + [a];
    assert forall k :: 0 <= k < |hist| ==> h[k] == hist[k];
  }

  lemma SeatsEveryoneSnoc(hist: seq<Arrangement>, a: Arrangement, people: seq<int>)
    requires SeatsEveryone(hist, people)
    requires Partitions(a, people) && WellShaped(a, |people|)
    ensures SeatsEveryone(hist + [a], people)
  {
    var h := hist + [a];
    assert forall k :: 0 <= k < |hist| ==> h[k] == hist[k];
  }

  /** A shuffle of the round's people keeps them free of repeats and keeps
      the planned trio among them. */
  lemma ShuffleKeepsRound(people: seq<int>, shuffled: seq<int>, trio: seq<int>)
    requires multiset(shuffled) == multiset(people)
    ensures |shuffled| == |people|
    ensures Distinct(people) ==> Distinct(shuffled)
    ensures TrioOf(trio, people) ==> TrioOf(trio, shuffled)
    ensures people == [] ==> shuffled == []
  {
    assert |shuffled| == |multiset(shuffled)|;
    if Distinct(people) {
      DistinctPermutation(people, shuffled);
    }
    forall x | x in people ensures x in shuffled {
      assert x in multiset(people);
    }
  }

  /** `adjust_trio_members` keeps a trio of the round a trio of the round. */
  lemma AdjustedTrioOf(people: seq<int>, trio: seq<int>, current: seq<int>)
    requires TrioOf(trio, people)
    requires |current| == |trio| && Distinct(current)
    requires forall x :: x in current ==> x in trio || x in people
    ensures TrioOf(current, people)
  {
  }

  /** One more place for `p`. */
  lemma CountPlace(counts: map<int, nat>, x: int, p: int)
    ensures Get(counts[x := Get(counts, x) + 1], p) == Get(counts, p) + (if p == x then 1 else 0)
  {
  }

  /** One more member of a trio, one more group of a round, one more round:
      each adds its places to the running bag. */
  lemma TrioPrefixStep(g: Group, m: nat)
    requires m < |g|
    ensures multiset(g[..m + 1]) == multiset(g[..m]) + multiset{g[m]}
  {
    assert g[..m + 1] == g[..m] + [g[m]];
  }

  lemma RoundPrefixStep(arr: Arrangement, j: nat)
    requires j < |arr|
    ensures RoundTrioPlaces(arr[..j + 1]) ==
      RoundTrioPlaces(arr[..j]) + (if |arr[j]| == 3 then multiset(arr[j]) else multiset{})
  {
    assert arr[..j + 1][..j] == arr[..j];
  }

  lemma HistoryPrefixStep(hist: seq<Arrangement>, i: nat)
    requires i < |hist|
    ensures TrioPlaces(hist[..i + 1]) == TrioPlaces(hist[..i]) + RoundTrioPlaces(hist[i])
  {
    assert hist[..i + 1][..i] == hist[..i];
  }

  /** `for person in group: trio_counts[person] += 1` for one 3-group. */
  method TallyTrio(counts: map<int, nat>, group: Group) returns (next: map<int, nat>)
    ensures forall p :: Get(next, p) == Get(counts, p) + multiset(group)[p]
  {
    next := counts;
    var m := 0;
    while m < |group|
      invariant m <= |group|
      invariant forall p :: Get(next, p) == Get(counts, p) + multiset(group[..m])[p]
    {
      TrioPrefixStep(group, m);
      forall p ensures Get(next[group[m] := Get(next, group[m]) + 1], p) ==
        Get(next, p) + (if p == group[m] then 1 else 0) {
        CountPlace(next, group[m], p);
      }
      next := next[group[m] := Get(next, group[m]) + 1];
      m := m + 1;
    }
    assert group[..m] == group;
  }

  /** The counting loops of `get_trio_fairness_stats`: every member of every
      3-group of every committed round gets one more place. */
  method TallyTrioPlaces(hist: seq<Arrangement>) returns (counts: map<int, nat>)
    ensures forall p :: Get(counts, p) == TrioPlaces(hist)[p]
  {
    counts := map[];
    var i := 0;
    while i < |hist|
      invariant i <= |hist|
      invariant forall p :: Get(counts, p) == TrioPlaces(hist[..i])[p]
    {
      var arrangement := hist[i];
      var j := 0;
      while j < |arrangement|
        invariant j <= |arrangement|
        invariant forall p ::
          Get(counts, p) == TrioPlaces(hist[..i])[p] + RoundTrioPlaces(arrangement[..j])[p]
      {
        var group := arrangement[j];
        if |group| == 3 {
          counts := TallyTrio(counts, group);
        }
        RoundPrefixStep(arrangement, j);
        j := j + 1;
      }
      assert arrangement[..j] == arrangement;
      HistoryPrefixStep(hist, i);
      i := i + 1;
    }
    assert hist[..i] == hist;
  }

  /** `min(actual_counts.values())` and `max(...)`: the smallest and largest
      count of the people of a non-empty list. */
  method CountRange(counts: map<int, nat>, people: seq<int>) returns (lo: int, hi: int)
    requires people != []
    ensures forall p :: p in people ==> lo <= Get(counts, p) <= hi
    ensures exists p :: p in people && Get(counts, p) == lo
    ensures exists p :: p in people && Get(counts, p) == hi
  {
    lo := Get(counts, people[0]);
    hi := lo;
    var k := 1;
    while k < |people|
      invariant 1 <= k <= |people|
      invariant forall q :: 0 <= q < k ==> lo <= Get(counts, people[q]) <= hi
      invariant exists q :: 0 <= q < k && Get(counts, people[q]) == lo
      invariant exists q :: 0 <= q < k && Get(counts, people[q]) == hi
    {
      var c := Get(counts, people[k]);
      if c < lo {
        lo := c;
      }
      if c > hi {
        hi := c;
      }
      k := k + 1;
    }
    assert forall p :: p in people ==> exists q :: 0 <= q < |people| && people[q] == p;
  }

  class PairMaker {
    /** `used_pairs`, under sorted keys. */
    var usedPairs: set<Pair>
    /** The committed rounds, oldest first. */
    var arrangements: seq<Arrangement>
    /** `trio_assignments`: set up empty and never written afterwards. */
    var trioAssignments: seq<seq<int>>
    var peopleList: seq<int>

    /** The ledger holds exactly the pair keys of the committed rounds. */
    ghost predicate Valid()
      reads this
    {
      usedPairs == HistoryLedger(arrangements)
    }

    constructor()
      ensures Valid()
      ensures usedPairs == {} && arrangements == [] && trioAssignments == [] && peopleList == []
    {
      usedPairs := {};
      arrangements := [];
      trioAssignments := [];
      peopleList := [];
    }

    /** `add_arrangement`: record the pairs of every 2-group and the three
        pairs of every 3-group, then append the round. */
    method AddArrangement(arr: Arrangement)
      modifies this
      ensures usedPairs == old(usedPairs) + LedgerPairs(arr)
      ensures arrangements == old(arrangements) + [arr]
      ensures peopleList == old(peopleList) && trioAssignments == old(trioAssignments)
      ensures old(Valid()) ==> Valid()
    {
      var newPairs := NewPairs(arr);
      HistoryLedgerSnoc(arrangements, arr);
      usedPairs := usedPairs + newPairs;
      arrangements := arrangements + [arr];
    }

    /** The attempt loop of one round of `generate_multiple_arrangements`:
        from the second attempt on the people are reshuffled, and at every
        twentieth attempt the planned trio is perturbed; the first non-empty
        construction that repeats no pair of the ledger ends the round. At
        most `MaxAttempts(round)` constructions are tried. */
    method FindRoundArrangement(people: seq<int>, trio: seq<int>, round: nat)
      returns (found: Option<Arrangement>, attempts: nat)
      ensures attempts <= MaxAttempts(round)
      ensures found.Some? ==> Acceptable(found, usedPairs)
      ensures found.None? ==> attempts == MaxAttempts(round)
      ensures Distinct(people) && (|trio| != 3 || TrioOf(trio, people)) && found.Some? ==>
        Partitions(found.value, people) && WellShaped(found.value, |people|)
      ensures people == [] && trio == [] ==> found.None?
    {
      var maxAttempts := MaxAttempts(round);
      found := None;
      attempts := 0;
      while attempts < maxAttempts && found.None?
        invariant attempts <= maxAttempts
        invariant found.Some? ==> Acceptable(found, usedPairs)
        invariant Distinct(people) && (|trio| != 3 || TrioOf(trio, people)) && found.Some? ==>
          Partitions(found.value, people) && WellShaped(found.value, |people|)
        invariant people == [] && trio == [] ==> found.None?
      {
        var current := trio;
        if trio != [] && attempts > 0 && attempts % 20 == 0 {
          current := AdjustTrioMembers(people, trio, attempts);
          if TrioOf(trio, people) {
            AdjustedTrioOf(people, trio, current);
          }
        }
        var shuffled := people;
        if attempts > 0 {
          shuffled :| multiset(shuffled) == multiset(people);
        }
        ShuffleKeepsRound(people, shuffled, current);
        var arrangement := ConstructArrangementWithConstraints(shuffled, current, usedPairs);
        if arrangement.Some? && arrangement.value != [] && IsArrangementValid(arrangement.value, usedPairs) {
          found := arrangement;
        }
        attempts := attempts + 1;
      }
    }

    /** `generate_multiple_arrangements`: reset the ledger, refuse a request
        for more pairs than the list has, plan the trios, then build the rounds
        one by one, stopping at the first round no attempt could build. Every
        committed round repeats no earlier pair and, for people without
        repeats, seats everyone once in the round's shape. */
    method GenerateMultipleArrangements(people: seq<int>, targetCount: nat)
      returns (count: nat, diag: Option<Diagnostic>)
      requires |people| != 1 || targetCount == 0
      modifies this
      ensures Valid() && peopleList == people
      ensures trioAssignments == old(trioAssignments)
      ensures count == |arrangements| <= targetCount
      ensures diag.None? <==> count == targetCount
      ensures diag == Some(Infeasible) <==> NeededPairs(targetCount, |people|) > TotalPossible(|people|)
      ensures diag.Some? && diag != Some(Infeasible) ==> diag == Some(RoundExhausted(count))
      ensures diag == Some(Infeasible) ==> count == 0
      ensures RepeatsNothing(arrangements)
      ensures NoEmptyRound(arrangements)
      ensures Distinct(people) ==> SeatsEveryone(arrangements, people)
      ensures people == [] && targetCount > 0 ==> diag == Some(RoundExhausted(0))
    {
      peopleList := people;
      usedPairs := {};
      arrangements := [];
      var n := |people|;
      var totalPossible := TotalPossible(n);
      var neededPairs := NeededPairs(targetCount, n);
      if neededPairs > totalPossible {
        return 0, Some(Infeasible);
      }
      assert targetCount == 0 ==> neededPairs == 0;
      var plan, _ := PlanTrioDistribution(people, targetCount);
      count := 0;
      var round := 0;
      while round < targetCount
        invariant round <= targetCount && count == round == |arrangements|
        invariant Valid() && peopleList == people && trioAssignments == old(trioAssignments)
        invariant RepeatsNothing(arrangements)
        invariant NoEmptyRound(arrangements)
        invariant Distinct(people) ==> SeatsEveryone(arrangements, people)
        invariant people == [] ==> round == 0
      {
        var trio := if round < |plan| then plan[round] else [];
        assert Distinct(people) ==> |trio| != 3 || TrioOf(trio, people);
        var found, _ := FindRoundArrangement(people, trio, round);
        if found.None? {
          return count, Some(RoundExhausted(count));
        }
        CommitKeepsHistory(arrangements, found.value, people);
        AddArrangement(found.value);
        count := count + 1;
        round := round + 1;
      }
      return count, None;
    }

    /** `get_trio_fairness_stats`: nothing for an even list; otherwise count
        every trio place of the committed rounds per person, and compare the
        smallest and largest count of the people of the list with the floor
        of the even share, `3 * rounds / n`. */
    method GetTrioFairnessStats(people: seq<int>) returns (stats: Option<FairnessStats>)
      ensures stats.None? <==> |people| % 2 == 0
      ensures stats.Some? ==>
        var st := stats.value;
        st.totalTrios == |arrangements| &&
        st.optimalMin == 3 * |arrangements| / |people| && st.optimalMax == st.optimalMin + 1 &&
        (forall p :: p in st.actualCounts <==> p in people) &&
        (forall p :: p in people ==> st.actualCounts[p] == TrioPlaces(arrangements)[p]) &&
        (forall p :: p in people ==> st.actualMin <= TrioPlaces(arrangements)[p] <= st.actualMax) &&
        (exists p :: p in people && TrioPlaces(arrangements)[p] == st.actualMin) &&
        (exists p :: p in people && TrioPlaces(arrangements)[p] == st.actualMax) &&
        (st.isFair <==> st.actualMax - st.actualMin <= 1)
    {
      if |people| % 2 == 0 {
        return None;
      }
      var trioCounts := TallyTrioPlaces(arrangements);
      var actualCounts := map p | p in people :: Get(trioCounts, p);
      var minActual, maxActual := CountRange(trioCounts, people);
      var total := |arrangements|;
      var optimalMin := 3 * total / |people|;
      stats := Some(FairnessStats(total, optimalMin, optimalMin + 1, minActual, maxActual,
                                  actualCounts, maxActual - minActual <= 1));
    }
  }
}

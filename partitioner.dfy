/** The constrained partitioner of `OptimizedPairMaker` (pair_maker.py:118-203):
    split an even list of people into pairs none of which is in the ledger,
    by a count probe, a greedy pass over a shuffle, and an exhaustive
    backtracking search. Pairs come out as sorted tuples. */
module Partitioner {
  import opened Basics
  import opened Groups

  /** The members of a list of pairs, pair by pair. */
  function PairMembers(ps: seq<Pair>): seq<int>
  {
    if ps == [] then [] else [ps[0].0, ps[0].1] + PairMembers(ps[1..])
  }

  lemma {:induction false} PairMembersAppend(a: seq<Pair>, b: seq<Pair>)
    ensures PairMembers(a + b) == PairMembers(a) + PairMembers(b)
  {
    if a == [] {
      assert a + b == b;
    } else {
      assert (a + b)[1..] == a[1..] + b;
      PairMembersAppend(a[1..], b);
    }
  }

  /** Every pair of `ps` is a sorted key that is not in `used`: what the
      search checks of each pair it keeps. */
  ghost predicate FreshPairs(ps: seq<Pair>, used: set<Pair>)
  {
    forall p :: p in ps ==> p.0 <= p.1 && p !in used
  }

  /** `ps` is a perfect matching of `people` that avoids `used`: sorted pairs,
      none in `used`, holding every person exactly as often as `people` does
      (so, for a list without repeats, pairwise disjoint and covering it). */
  ghost predicate IsMatching(ps: seq<Pair>, people: seq<int>, used: set<Pair>)
  {
    FreshPairs(ps, used) &&
    multiset(PairMembers(ps)) == multiset(people)
  }

  // ---------------------------------------------------------------------------
  // Count probe (pair_maker.py:125-139)

  /** The pair (x, y) is not in the ledger under its sorted key. */
  predicate FreeWithUsed(x: int, y: int, used: set<Pair>)
  {
    Ordered(x, y) !in used
  }

  /** How many members of `t` form a free pair with `x`. */
  function FreeWith(x: int, t: seq<int>, used: set<Pair>): nat
  {
    if t == [] then 0 else (if FreeWithUsed(x, t[0], used) then 1 else 0) + FreeWith(x, t[1..], used)
  }

  /** The number of position pairs i < j of `people` whose sorted tuple is not
      in the ledger: each person with everybody after them. */
  function FreePairCount(people: seq<int>, used: set<Pair>): nat
  {
    if people == [] then 0 else FreeWith(people[0], people[1..], used) + FreePairCount(people[1..], used)
  }

  /** The probe's inner scan: free pairs (people[i], people[k]) for i < k < j. */
  function RowFree(people: seq<int>, used: set<Pair>, i: nat, j: nat): nat
    requires i < |people| && j <= |people|
  {
    if j <= i + 1 then 0
    else RowFree(people, used, i, j - 1) + (if FreeWithUsed(people[i], people[j - 1], used) then 1 else 0)
  }

  /** The probe's outer scan: free pairs whose first position is below `i`. */
  function RowsFree(people: seq<int>, used: set<Pair>, i: nat): nat
    requires i <= |people|
  {
    if i == 0 then 0 else RowsFree(people, used, i - 1) + RowFree(people, used, i - 1, |people|)
  }

  lemma {:induction false} FreeWithSnoc(x: int, a: seq<int>, y: int, used: set<Pair>)
    ensures FreeWith(x, a + [y], used) == FreeWith(x, a, used) + (if FreeWithUsed(x, y, used) then 1 else 0)
  {
    if a == [] {
      assert [y][1..] == [];
    } else {
      assert (a + [y])[1..] == a[1..] + [y];
      FreeWithSnoc(x, a[1..], y, used);
    }
  }

  /** Row `i` of the scan up to `j` counts the free partners of people[i] among
      people[i+1..j]. */
  lemma {:induction false} RowFreeCountsPartners(people: seq<int>, used: set<Pair>, i: nat, j: nat)
    requires i < |people| && i + 1 <= j <= |people|
    ensures RowFree(people, used, i, j) == FreeWith(people[i], people[i + 1..j], used)
  {
    if j > i + 1 {
      RowFreeCountsPartners(people, used, i, j - 1);
      assert people[i + 1..j] == people[i + 1..j - 1] + [people[j - 1]];
      FreeWithSnoc(people[i], people[i + 1..j - 1], people[j - 1], used);
    }
  }

  /** The rows scanned so far plus the pairs among the people not yet scanned
      make up every free pair. */
  lemma {:induction false} RowsFreePlusRest(people: seq<int>, used: set<Pair>, i: nat)
    requires i <= |people|
    ensures RowsFree(people, used, i) + FreePairCount(people[i..], used) == FreePairCount(people, used)
  {
    if i == 0 {
      assert people[0..] == people;
    } else {
      RowsFreePlusRest(people, used, i - 1);
      RowFreeCountsPartners(people, used, i - 1, |people|);
      var tail := people[i - 1..];
      assert tail[0] == people[i - 1] && tail[1..] == people[i..] == people[i..|people|];
      assert FreePairCount(tail, used) == FreeWith(people[i - 1], people[i..], used) + FreePairCount(people[i..], used);
    }
  }

  /** A partial scan never counts more free pairs than the whole list has. */
  lemma ScanBelowTotal(people: seq<int>, used: set<Pair>, i: nat, j: nat)
    requires i < |people| && j <= |people|
    ensures RowsFree(people, used, i) + RowFree(people, used, i, j) <= FreePairCount(people, used)
  {
    RowsFreePlusRest(people, used, i + 1);
    RowFreeMonotone(people, used, i, j);
  }

  lemma {:induction false} RowFreeMonotone(people: seq<int>, used: set<Pair>, i: nat, j: nat)
    requires i < |people| && j <= |people|
    ensures RowFree(people, used, i, j) <= RowFree(people, used, i, |people|)
    decreases |people| - j
  {
    if j < |people| {
      RowFreeMonotone(people, used, i, j + 1);
    }
  }

  /** The scan of the whole list counts every free pair. */
  lemma ScanCountsAll(people: seq<int>, used: set<Pair>)
    ensures RowsFree(people, used, |people|) == FreePairCount(people, used)
  {
    RowsFreePlusRest(people, used, |people|);
    assert people[|people|..] == [];
  }

  lemma {:induction false} FreeWithWithout(x: int, t: seq<int>, p: int, used: set<Pair>)
    ensures FreeWith(x, Without(t, p), used) <= FreeWith(x, t, used)
  {
    if t != [] {
      FreeWithWithout(x, t[1..], p, used);
      if t[0] != p {
        assert ([t[0]] + Without(t[1..], p))[1..] == Without(t[1..], p);
      }
    }
  }

  /** Leaving a person out never adds free pairs. */
  lemma {:induction false} FreePairCountWithout(t: seq<int>, p: int, used: set<Pair>)
    ensures FreePairCount(Without(t, p), used) <= FreePairCount(t, used)
  {
    if t != [] {
      FreePairCountWithout(t[1..], p, used);
      if t[0] != p {
        var w := Without(t[1..], p);
        assert ([t[0]] + w)[1..] == w;
        FreeWithWithout(t[0], t[1..], p, used);
      }
    }
  }

  lemma {:induction false} FreeWithMember(x: int, t: seq<int>, y: int, used: set<Pair>)
    requires y in t && FreeWithUsed(x, y, used)
    ensures FreeWith(x, t, used) >= 1
  {
    if t[0] != y {
      FreeWithMember(x, t[1..], y, used);
    }
  }

  // ---------------------------------------------------------------------------
  // Matching lemmas

  lemma {:induction false} FindPairOf(ps: seq<Pair>, x: int) returns (k: nat)
    requires x in PairMembers(ps)
    ensures k < |ps| && (ps[k].0 == x || ps[k].1 == x)
  {
    if ps[0].0 == x || ps[0].1 == x {
      k := 0;
    } else {
      assert PairMembers(ps) == [ps[0].0, ps[0].1] + PairMembers(ps[1..]);
      var k' := FindPairOf(ps[1..], x);
      k := k' + 1;
    }
  }

  /** The members of a single pair. */
  lemma PairMembersSingle(p: Pair)
    ensures PairMembers([p]) == [p.0, p.1]
  {
    assert [p][1..] == [];
  }

  /** Taking pair `k` out of a list of pairs takes its two members out of the members. */
  lemma RemovePair(ps: seq<Pair>, k: nat)
    requires k < |ps|
    ensures multiset(PairMembers(ps)) ==
      multiset(PairMembers(ps[..k] + ps[k + 1..])) + multiset{ps[k].0, ps[k].1}
    ensures forall p :: p in ps[..k] + ps[k + 1..] ==> p in ps
  {
    var before, after := ps[..k], ps[k + 1..];
    assert ps == before + ([ps[k]] + after);
    PairMembersAppend(before, [ps[k]] + after);
    PairMembersAppend([ps[k]], after);
    PairMembersSingle(ps[k]);
    PairMembersAppend(before, after);
    var mb, ma := multiset(PairMembers(before)), multiset(PairMembers(after));
    assert multiset(PairMembers(ps)) == mb + multiset{ps[k].0, ps[k].1} + ma;
    assert multiset(PairMembers(before + after)) == mb + ma;
  }

  /** Taking the first person and one other member out of a distinct list's
      multiset leaves the multiset of the tail without that member. */
  lemma CancelFirstAndPartner(people: seq<int>, restBag: multiset<int>, partner: int)
    requires Distinct(people) && people != []
    requires multiset(people) == restBag + multiset{people[0], partner}
    ensures partner in people[1..]
    ensures restBag == multiset(Without(people[1..], partner))
  {
    var first, others := people[0], people[1..];
    assert people == [first] + others;
    assert partner != first by {
      DistinctMultiplicity(people, first);
    }
    assert partner in others by {
      assert partner in multiset(people);
    }
    DistinctTail(people);
    WithoutDistinct(others, partner);
    forall x ensures restBag[x] == multiset(Without(others, partner))[x] {
      assert multiset(people)[x] == restBag[x] + multiset{first, partner}[x];
    }
  }

  /** The pair holding the first person of a distinct list names a partner
      further down the list; the other pairs hold the rest without that partner. */
  lemma SplitCover(ps: seq<Pair>, people: seq<int>) returns (k: nat, partner: int, rest: seq<Pair>)
    requires Distinct(people) && people != []
    requires multiset(PairMembers(ps)) == multiset(people)
    ensures k < |ps| && (ps[k] == (people[0], partner) || ps[k] == (partner, people[0]))
    ensures partner in people[1..]
    ensures multiset(PairMembers(rest)) == multiset(Without(people[1..], partner))
    ensures forall p :: p in rest ==> p in ps
  {
    var first := people[0];
    assert first in multiset(PairMembers(ps)) by {
      assert first in people;
    }
    k := FindPairOf(ps, first);
    partner := if ps[k].0 == first then ps[k].1 else ps[k].0;
    rest := ps[..k] + ps[k + 1..];
    RemovePair(ps, k);
    assert multiset{ps[k].0, ps[k].1} == multiset{first, partner};
    CancelFirstAndPartner(people, multiset(PairMembers(rest)), partner);
  }

  /** In a matching of a distinct list, the first person's pair names a free
      partner, and the other pairs match the rest of the list without that partner. */
  lemma SplitMatching(ps: seq<Pair>, people: seq<int>, used: set<Pair>) returns (partner: int, rest: seq<Pair>)
    requires Distinct(people) && people != []
    ensures IsMatching(ps, people, used) ==>
      partner in people[1..] && Ordered(people[0], partner) !in used &&
      IsMatching(rest, Without(people[1..], partner), used)
  {
    partner, rest := 0, [];
    if IsMatching(ps, people, used) {
      var k;
      k, partner, rest := SplitCover(ps, people);
      assert ps[k] in ps;
      assert ps[k] == Ordered(people[0], partner);
    }
  }

  /** Putting a free partner next to the first person extends a matching of the
      rest of the list to a matching of the whole list. */
  lemma ExtendMatching(first: int, others: seq<int>, partner: int, rest: seq<Pair>, used: set<Pair>)
    requires Distinct(others) && partner in others && Ordered(first, partner) !in used
    requires IsMatching(rest, Without(others, partner), used)
    ensures IsMatching([Ordered(first, partner)] + rest, [first] + others, used)
  {
    var ps := [Ordered(first, partner)] + rest;
    assert ps[1..] == rest;
    WithoutDistinct(others, partner);
    PairMembersCons(first, partner, rest);
  }

  lemma PairMembersCons(first: int, partner: int, rest: seq<Pair>)
    ensures multiset(PairMembers([Ordered(first, partner)] + rest)) ==
      multiset{first, partner} + multiset(PairMembers(rest))
  {
    var ps := [Ordered(first, partner)] + rest;
    assert ps[1..] == rest;
  }

  /** A list without repeats that has a matching has at least one free pair per
      pair of the matching, so the count probe never rejects it. */
  lemma {:induction false} MatchingNeedsFreePairs(ps: seq<Pair>, people: seq<int>, used: set<Pair>)
    requires Distinct(people)
    ensures IsMatching(ps, people, used) ==> FreePairCount(people, used) >= |people| / 2
    decreases |people|
  {
    if people != [] && IsMatching(ps, people, used) {
      var partner, rest := SplitMatching(ps, people, used);
      var others := people[1..];
      DistinctTail(people);
      WithoutDistinct(others, partner);
      var smaller := Without(others, partner);
      MatchingNeedsFreePairs(rest, smaller, used);
      assert |smaller| + 1 == |others| by {
        assert |multiset(smaller) + multiset{partner}| == |multiset(others)|;
      }
      FreePairCountWithout(others, partner, used);
      FreeWithMember(people[0], others, partner, used);
    }
  }

  // ---------------------------------------------------------------------------
  // Backtracking search (pair_maker.py:168-203)

  /** Pairing the first person with `p` is a dead end: the others without `p`
      have no matching. */
  ghost predicate DeadEnd(others: seq<int>, p: int, used: set<Pair>)
  {
    forall ps :: !IsMatching(ps, Without(others, p), used)
  }

  /** When every free partner of the first person has been tried and none leads
      to a matching of the rest, the list has no matching at all. */
  lemma NoMatchingWhenAllPartnersFail(remaining: seq<int>, used: set<Pair>, candidates: seq<int>)
    requires Distinct(remaining) && remaining != []
    requires forall p :: p in remaining[1..] && Ordered(remaining[0], p) !in used ==> p in candidates
    requires forall p :: p in candidates ==> DeadEnd(remaining[1..], p, used)
    ensures forall ps :: !IsMatching(ps, remaining, used)
  {
    forall ps ensures !IsMatching(ps, remaining, used) {
      var partner, rest := SplitMatching(ps, remaining, used);
    }
  }

  /** A matching of the rest after the pair (first, partner) completes the search's
      list of pairs into a matching of the whole remaining list. */
  lemma CompletedSearch(remaining: seq<int>, current: seq<Pair>, used: set<Pair>, partner: int, rs: seq<Pair>)
    requires Distinct(remaining) && remaining != []
    requires partner in remaining[1..] && Ordered(remaining[0], partner) !in used
    requires |rs| >= |current| + 1 && rs[..|current| + 1] == current + [Ordered(remaining[0], partner)]
    requires IsMatching(rs[|current| + 1..], Without(remaining[1..], partner), used)
    ensures rs[..|current|] == current
    ensures IsMatching(rs[|current|..], remaining, used)
  {
    assert rs[..|current|] == rs[..|current| + 1][..|current|];
    assert rs[|current|..] == [Ordered(remaining[0], partner)] + rs[|current| + 1..];
    DistinctTail(remaining);
    ExtendMatching(remaining[0], remaining[1..], partner, rs[|current| + 1..], used);
    assert remaining == [remaining[0]] + remaining[1..];
  }

  /** The filter of the inner `backtrack`: the others whose sorted pair with
      `first` is not in `used`, in list order. */
  method ValidPartners(first: int, others: seq<int>, used: set<Pair>) returns (valid: seq<int>)
    ensures forall p :: p in valid <==> p in others && Ordered(first, p) !in used
  {
    valid := [];
    var j := 0;
    while j < |others|
      invariant j <= |others|
      invariant forall p :: p in valid <==> p in others[..j] && Ordered(first, p) !in used
    {
      if Ordered(first, others[j]) !in used {
        valid := valid + [others[j]];
      }
      assert others[..j + 1] == others[..j] + [others[j]];
      j := j + 1;
    }
    assert others[..j] == others;
  }

  /** The inner `backtrack(remaining, current_pairs)`: pair the first person with
      each free partner in a random order, recursing on the rest, and return
      the first completed list of pairs. It fails only when no matching exists. */
  method Backtrack(remaining: seq<int>, current: seq<Pair>, used: set<Pair>) returns (r: Option<seq<Pair>>)
    ensures r.Some? ==>
      |r.value| >= |current| && r.value[..|current|] == current &&
      FreshPairs(r.value[|current|..], used)
    ensures Distinct(remaining) && r.Some? ==> IsMatching(r.value[|current|..], remaining, used)
    ensures Distinct(remaining) && r.None? ==> forall ps :: !IsMatching(ps, remaining, used)
    decreases |remaining|, 1
  {
    if remaining == [] {
      assert current[|current|..] == [];
      return Some(current);
    }
    var valid := ValidPartners(remaining[0], remaining[1..], used);
    if valid == [] {
      if Distinct(remaining) {
        NoMatchingWhenAllPartnersFail(remaining, used, valid);
      }
      return None;
    }
    var candidates: seq<int> :| multiset(candidates) == multiset(valid);
    forall p | p in candidates ensures p in valid {
      assert p in multiset(valid);
    }
    r := TryPartners(remaining, current, used, candidates);
    if Distinct(remaining) && r.None? {
      forall p | p in remaining[1..] && Ordered(remaining[0], p) !in used ensures p in candidates {
        assert p in multiset(valid);
      }
      NoMatchingWhenAllPartnersFail(remaining, used, candidates);
    }
  }

  /** The `for partner in valid_partners` loop of the inner `backtrack`: the
      first partner whose recursive search succeeds gives the result; when none
      does, every candidate is a dead end. */
  method TryPartners(remaining: seq<int>, current: seq<Pair>, used: set<Pair>, candidates: seq<int>)
    returns (r: Option<seq<Pair>>)
    requires remaining != []
    requires forall p :: p in candidates ==> p in remaining[1..] && Ordered(remaining[0], p) !in used
    ensures r.Some? ==>
      |r.value| >= |current| && r.value[..|current|] == current &&
      FreshPairs(r.value[|current|..], used)
    ensures Distinct(remaining) && r.Some? ==> IsMatching(r.value[|current|..], remaining, used)
    ensures Distinct(remaining) && r.None? ==> forall p :: p in candidates ==> DeadEnd(remaining[1..], p, used)
    decreases |remaining|, 0
  {
    var first, others := remaining[0], remaining[1..];
    var i := 0;
    while i < |candidates|
      invariant i <= |candidates|
      invariant Distinct(remaining) ==> forall p :: p in candidates[..i] ==> DeadEnd(others, p, used)
    {
      var partner := candidates[i];
      var extended := current + [Ordered(first, partner)];
      assert |extended| == |current| + 1;
      var result := Backtrack(Without(others, partner), extended, used);
      if Distinct(remaining) {
        DistinctTail(remaining);
        WithoutDistinct(others, partner);
      }
      if result.Some? {
        FreshExtend(result.value, current, Ordered(first, partner), used);
        if Distinct(remaining) {
          CompletedSearch(remaining, current, used, partner, result.value);
        }
        return result;
      }
      assert candidates[..i + 1] == candidates[..i] + [partner];
      i := i + 1;
    }
    assert candidates[..i] == candidates;
    return None;
  }

  /** A result that extends `current + [p]` by fresh pairs, with `p` itself
      fresh, extends `current` by fresh pairs. */
  lemma FreshExtend(r: seq<Pair>, current: seq<Pair>, p: Pair, used: set<Pair>)
    requires |r| >= |current| + 1 && r[..|current| + 1] == current + [p]
    requires p.0 <= p.1 && p !in used
    requires FreshPairs(r[|current| + 1..], used)
    ensures r[..|current|] == current && FreshPairs(r[|current|..], used)
  {
    assert r[|current|] == (current + [p])[|current|];
    assert r[|current|..] == [p] + r[|current| + 1..];
    assert r[..|current|] == r[..|current| + 1][..|current|];
  }

  /** `backtrack_pairing_optimized`: the search started with no pairs. */
  method BacktrackPairing(people: seq<int>, used: set<Pair>) returns (r: Option<seq<Pair>>)
    ensures r.Some? ==> FreshPairs(r.value, used)
    ensures Distinct(people) && r.Some? ==> IsMatching(r.value, people, used)
    ensures Distinct(people) && r.None? ==> forall ps :: !IsMatching(ps, people, used)
  {
    r := Backtrack(people, [], used);
    if r.Some? {
      assert r.value[0..] == r.value;
    }
  }

  // ---------------------------------------------------------------------------
  // Greedy pass (pair_maker.py:144-166)

  /** The sorted tuple of slots 2k and 2k+1 of a shuffle. */
  function SlotPair(s: seq<int>, k: nat): Pair
    requires 2 * k + 1 < |s|
  {
    Ordered(s[2 * k], s[2 * k + 1])
  }

  /** The first `m` slot pairs of the shuffle are free. */
  ghost predicate SlotsFreeBelow(s: seq<int>, used: set<Pair>, m: nat)
    requires 2 * m <= |s|
  {
    forall k :: 0 <= k < m ==> SlotPair(s, k) !in used
  }

  /** Every slot pair (2k, 2k+1) of the shuffle is free and nobody is left over. */
  ghost predicate AllSlotsFree(s: seq<int>, used: set<Pair>)
  {
    |s| % 2 == 0 && SlotsFreeBelow(s, used, |s| / 2)
  }

  lemma SlotsFreeStep(s: seq<int>, used: set<Pair>, m: nat)
    requires 2 * m + 1 < |s|
    ensures SlotsFreeBelow(s, used, m + 1) <==> SlotsFreeBelow(s, used, m) && SlotPair(s, m) !in used
  {
  }

  /** What the greedy loop knows after the slots below position `i`: its pairs
      are sorted and free, and, on a list without repeats, nobody from position
      `i` on is placed yet, it has placed two people per pair, and it has taken
      every slot exactly when every slot pair so far is free; when it has, its
      pairs hold exactly the people seen so far. */
  ghost predicate GreedyInv(s: seq<int>, used: set<Pair>, i: nat, pairs: seq<Pair>, placed: set<int>)
  {
    i % 2 == 0 && i <= |s| && 2 * |pairs| <= i &&
    FreshPairs(pairs, used) &&
    (Distinct(s) ==> forall k :: i <= k < |s| ==> s[k] !in placed) &&
    (Distinct(s) ==> |placed| == 2 * |pairs|) &&
    (Distinct(s) ==> (2 * |pairs| == i <==> SlotsFreeBelow(s, used, i / 2))) &&
    (2 * |pairs| == i ==> multiset(PairMembers(pairs)) == multiset(s[..i]))
  }

  lemma SlotPrefixBag(s: seq<int>, i: nat)
    requires i + 1 < |s|
    ensures multiset(s[..i + 2]) == multiset(s[..i]) + multiset{s[i], s[i + 1]}
  {
    assert s[..i + 2] == s[..i] + [s[i], s[i + 1]];
  }

  lemma OrderedBag(a: int, b: int)
    ensures multiset([Ordered(a, b).0, Ordered(a, b).1]) == multiset{a, b}
  {
  }

  /** Appending the sorted pair of slot (i, i+1) appends its two people to the members. */
  lemma TakeMembers(s: seq<int>, i: nat, pairs: seq<Pair>)
    requires i + 1 < |s| && multiset(PairMembers(pairs)) == multiset(s[..i])
    ensures multiset(PairMembers(pairs + [Ordered(s[i], s[i + 1])])) == multiset(s[..i + 2])
  {
    var pair := Ordered(s[i], s[i + 1]);
    SlotPrefixBag(s, i);
    PairMembersAppend(pairs, [pair]);
    PairMembersSingle(pair);
    OrderedBag(s[i], s[i + 1]);
  }

  /** Keeping the free slot pair (i, i+1) whose people are not yet placed. */
  lemma GreedyTake(s: seq<int>, used: set<Pair>, i: nat, pairs: seq<Pair>, placed: set<int>)
    requires i + 1 < |s| && GreedyInv(s, used, i, pairs, placed)
    requires s[i] !in placed && s[i + 1] !in placed && Ordered(s[i], s[i + 1]) !in used
    ensures GreedyInv(s, used, i + 2, pairs + [Ordered(s[i], s[i + 1])], placed + {s[i], s[i + 1]})
  {
    var a, b := s[i], s[i + 1];
    var pair := Ordered(a, b);
    var pairs', placed' := pairs + [pair], placed + {a, b};
    assert forall p :: p in pairs' ==> p.0 <= p.1 && p !in used;
    assert (i + 2) / 2 == i / 2 + 1;
    SlotsFreeStep(s, used, i / 2);
    assert SlotPair(s, i / 2) == pair;
    if 2 * |pairs| == i {
      TakeMembers(s, i, pairs);
    }
    if Distinct(s) {
      assert a != b;
      assert |placed'| == |placed| + 2;
      assert forall k :: i + 2 <= k < |s| ==> s[k] != a && s[k] != b;
    }
  }

  /** Passing over slot (i, i+1) because its pair is used or one of its people is placed. */
  lemma GreedySkip(s: seq<int>, used: set<Pair>, i: nat, pairs: seq<Pair>, placed: set<int>)
    requires i + 1 < |s| && GreedyInv(s, used, i, pairs, placed)
    requires s[i] in placed || s[i + 1] in placed || Ordered(s[i], s[i + 1]) in used
    ensures GreedyInv(s, used, i + 2, pairs, placed)
  {
    SlotsFreeStep(s, used, i / 2);
    assert SlotPair(s, i / 2) == Ordered(s[i], s[i + 1]);
  }

  /** At the end of the greedy loop: placing everybody means every slot pair was
      free, and then the pairs match the list. */
  lemma GreedyDone(s: seq<int>, used: set<Pair>, i: nat, pairs: seq<Pair>, placed: set<int>)
    requires i + 1 >= |s| && GreedyInv(s, used, i, pairs, placed)
    ensures Distinct(s) ==> (|placed| == |s| <==> AllSlotsFree(s, used))
    ensures Distinct(s) && |placed| == |s| ==> IsMatching(pairs, s, used)
  {
    if i == |s| {
      assert s[..i] == s;
    }
  }

  /** The loop of the greedy phase: take slots (0,1), (2,3), ... of the shuffle
      and keep each slot pair that is free and whose members are not yet placed.
      On a list without repeats it places everybody exactly when every slot pair
      is free, and then its pairs match the list. */
  method GreedyPhase(shuffled: seq<int>, used: set<Pair>) returns (pairs: seq<Pair>, placed: set<int>)
    ensures FreshPairs(pairs, used)
    ensures Distinct(shuffled) ==> (|placed| == |shuffled| <==> AllSlotsFree(shuffled, used))
    ensures Distinct(shuffled) && |placed| == |shuffled| ==> IsMatching(pairs, shuffled, used)
  {
    pairs, placed := [], {};
    var i := 0;
    while i + 1 < |shuffled|
      invariant GreedyInv(shuffled, used, i, pairs, placed)
    {
      var a, b := shuffled[i], shuffled[i + 1];
      if a !in placed && b !in placed && Ordered(a, b) !in used {
        GreedyTake(shuffled, used, i, pairs, placed);
        pairs := pairs + [Ordered(a, b)];
        placed := placed + {a, b};
      } else {
        GreedySkip(shuffled, used, i, pairs, placed);
      }
      i := i + 2;
    }
    GreedyDone(shuffled, used, i, pairs, placed);
  }

  /** `greedy_pairing_with_backtrack`: the greedy pass over a shuffle, falling
      back to the exhaustive search when somebody is left over. */
  method GreedyPairingWithBacktrack(people: seq<int>, used: set<Pair>) returns (r: Option<seq<Pair>>)
    ensures r.Some? ==> FreshPairs(r.value, used)
    ensures Distinct(people) && r.Some? ==> IsMatching(r.value, people, used)
    ensures Distinct(people) && r.None? ==> forall ps :: !IsMatching(ps, people, used)
  {
    ghost var unshuffled := people;
    assert multiset(unshuffled) == multiset(people);
    var shuffled: seq<int> :| multiset(shuffled) == multiset(people);
    var pairs, placed := GreedyPhase(shuffled, used);
    if Distinct(people) {
      DistinctPermutation(people, shuffled);
    }
    if |placed| == |people| {
      assert |shuffled| == |multiset(shuffled)| == |people|;
      return Some(pairs);
    }
    r := BacktrackPairing(people, used);
  }

  lemma {:induction false} PairMembersLength(ps: seq<Pair>)
    ensures |PairMembers(ps)| == 2 * |ps|
  {
    if ps != [] {
      PairMembersLength(ps[1..]);
    }
  }

  /** Only a list of even length has a matching. */
  lemma MatchingEven(ps: seq<Pair>, people: seq<int>, used: set<Pair>)
    ensures IsMatching(ps, people, used) ==> |people| % 2 == 0
  {
    PairMembersLength(ps);
    if IsMatching(ps, people, used) {
      assert |multiset(PairMembers(ps))| == |multiset(people)|;
    }
  }

  /** `find_valid_pairing_optimized`: nothing to pair gives no pairs, an odd list
      gives none, a list with fewer free pairs than it needs is rejected by the
      count probe, and otherwise the greedy-then-backtracking search decides. */
  method FindValidPairing(people: seq<int>, used: set<Pair>) returns (r: Option<seq<Pair>>)
    ensures people == [] ==> r == Some([])
    ensures |people| % 2 == 1 ==> r == None
    ensures people != [] && FreePairCount(people, used) < |people| / 2 ==> r == None
    ensures r.Some? ==> FreshPairs(r.value, used)
    ensures Distinct(people) && r.Some? ==> IsMatching(r.value, people, used)
    ensures Distinct(people) && r.None? ==> forall ps :: !IsMatching(ps, people, used)
  {
    if |people| == 0 {
      return Some([]);
    }
    if |people| % 2 != 0 {
      forall ps ensures !IsMatching(ps, people, used) {
        MatchingEven(ps, people, used);
      }
      return None;
    }
    var needed := |people| / 2;
    var count := 0;
    var i := 0;
    while i < |people|
      invariant i <= |people|
      invariant count <= FreePairCount(people, used)
      invariant count < needed && count == RowsFree(people, used, i)
    {
      var j := i + 1;
      while j < |people|
        invariant i + 1 <= j <= |people|
        invariant count == RowsFree(people, used, i) + RowFree(people, used, i, j)
        invariant count < needed
      {
        if Ordered(people[i], people[j]) !in used {
          count := count + 1;
          if count >= needed {
            ScanBelowTotal(people, used, i, j + 1);
            assert count == RowsFree(people, used, i) + RowFree(people, used, i, j + 1);
            assert count <= FreePairCount(people, used);
            break;
          }
        }
        j := j + 1;
      }
      if count >= needed {
        break;
      }
      RowsFreePlusRest(people, used, i + 1);
      i := i + 1;
    }
    if count < needed {
      if Distinct(people) {
        ScanCountsAll(people, used);
        forall ps ensures !IsMatching(ps, people, used) {
          MatchingNeedsFreePairs(ps, people, used);
        }
      }
      return None;
    }
    r := GreedyPairingWithBacktrack(people, used);
  }
}

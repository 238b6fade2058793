/** Pairs, groups, arrangements and the pair ledger of `OptimizedPairMaker`
    (pair_maker.py): the tuple vocabulary shared by the partitioner, the round
    builder and the session. A person is an integer, as in the numeric mode of
    the user interface. */
module Groups {
  import opened Basics

  type Pair = (int, int)
  /** A 2-tuple or 3-tuple of people, in display order. */
  type Group = seq<int>
  /** One round: groups in display order. */
  type Arrangement = seq<Group>

  /** A planned trio of a round: three different people of the round. */
  ghost predicate TrioOf(trio: seq<int>, people: seq<int>)
  {
    |trio| == 3 && Distinct(trio) && forall x :: x in trio ==> x in people
  }

  /** `tuple(sorted([a, b]))`, the key under which the partitioner probes the ledger. */
  function Ordered(a: int, b: int): (p: Pair)
    ensures p.0 <= p.1
    ensures (p.0 == a && p.1 == b) || (p.0 == b && p.1 == a)
  {
    if a <= b then (a, b) else (b, a)
  }

  /** `get_all_pairs_from_group`: the 2-combinations of a 2- or 3-group, each in
      display order; any other group size yields nothing. */
  function GroupPairs(g: Group): (ps: seq<Pair>)
    ensures |ps| == (if |g| == 2 then 1 else if |g| == 3 then 3 else 0)
    ensures |g| == 2 || |g| == 3 ==>
      forall i, j :: 0 <= i < j < |g| ==> (g[i], g[j]) in ps
    ensures forall p :: p in ps ==> exists i, j :: 0 <= i < j < |g| && p == (g[i], g[j])
  {
    if |g| == 2 then [(g[0], g[1])]
    else if |g| == 3 then [(g[0], g[1]), (g[0], g[2]), (g[1], g[2])]
    else []
  }

  /** The pairs of a list, as a set. */
  function Elements(ps: seq<Pair>): (r: set<Pair>)
    ensures forall p :: p in r <==> p in ps
  {
    set i | 0 <= i < |ps| :: ps[i]
  }

  /** The pairs a group consumes, each under its sorted key. */
  function GroupLedger(g: Group): set<Pair>
  {
    set p | p in GroupPairs(g) :: Ordered(p.0, p.1)
  }

  /** Any two members of a group at two different positions leave their sorted
      key in the group's ledger. */
  lemma GroupLedgerMembers(g: Group, i: nat, j: nat)
    requires |g| == 2 || |g| == 3
    requires i < j < |g|
    ensures Ordered(g[i], g[j]) in GroupLedger(g)
  {
    assert (g[i], g[j]) in GroupPairs(g);
  }

  /** The ledger entries an arrangement adds once its pairs are stored under
      their sorted keys (the corrected `add_arrangement`). */
  function LedgerPairs(arr: Arrangement): (ps: set<Pair>)
    ensures forall p :: p in ps <==> exists g :: g in arr && p in GroupLedger(g)
  {
    if arr == [] then {}
    else
      assert arr == arr[..|arr| - 1] + [arr[|arr| - 1]];
      LedgerPairs(arr[..|arr| - 1]) + GroupLedger(arr[|arr| - 1])
  }

  /** The ledger entries `add_arrangement` adds as written: each 2-group as it
      is displayed, and (g0,g1), (g0,g2), (g1,g2) of each 3-group. */
  function LedgerPairsAsWritten(arr: Arrangement): (ps: set<Pair>)
    ensures forall p :: p in ps <==> exists g :: g in arr && p in GroupPairs(g)
  {
    if arr == [] then {}
    else
      assert arr == arr[..|arr| - 1] + [arr[|arr| - 1]];
      LedgerPairsAsWritten(arr[..|arr| - 1]) + Elements(GroupPairs(arr[|arr| - 1]))
  }

  /** The ledger of two arrangements shown one after the other. */
  lemma LedgerPairsAppend(a: Arrangement, b: Arrangement)
    ensures LedgerPairs(a + b) == LedgerPairs(a) + LedgerPairs(b)
  {
    forall p ensures p in LedgerPairs(a + b) <==> p in LedgerPairs(a) + LedgerPairs(b) {
      if p in LedgerPairs(a + b) {
        var g :| g in a + b && p in GroupLedger(g);
      }
      if p in LedgerPairs(a) {
        var g :| g in a && p in GroupLedger(g);
        assert g in a + b;
      }
      if p in LedgerPairs(b) {
        var g :| g in b && p in GroupLedger(g);
        assert g in a + b;
      }
    }
  }

  /** Reordering the groups of an arrangement keeps its ledger entries. */
  lemma LedgerPairsPermutation(a: Arrangement, b: Arrangement)
    requires multiset(a) == multiset(b)
    ensures LedgerPairs(a) == LedgerPairs(b)
  {
    forall g ensures g in a <==> g in b {
      assert g in a <==> g in multiset(a);
      assert g in b <==> g in multiset(b);
    }
  }

  /** The sorted keys of a 2-group and of a 3-group, written out. */
  lemma GroupLedgerSmall(g: Group)
    ensures |g| == 2 ==> GroupLedger(g) == {Ordered(g[0], g[1])}
    ensures |g| == 3 ==> GroupLedger(g) == {Ordered(g[0], g[1]), Ordered(g[0], g[2]), Ordered(g[1], g[2])}
  {
    if |g| == 2 {
      assert GroupPairs(g) == [(g[0], g[1])];
    } else if |g| == 3 {
      assert GroupPairs(g) == [(g[0], g[1]), (g[0], g[2]), (g[1], g[2])];
    }
  }

  /** No pair of the group is in `used`, probing sorted keys. */
  predicate GroupFresh(g: Group, used: set<Pair>)
  {
    if |g| == 2 then Ordered(g[0], g[1]) !in used
    else if |g| == 3 then
      Ordered(g[0], g[1]) !in used && Ordered(g[0], g[2]) !in used && Ordered(g[1], g[2]) !in used
    else true
  }

  lemma GroupFreshLedger(g: Group, used: set<Pair>)
    ensures GroupFresh(g, used) <==> GroupLedger(g) !! used
  {
    GroupLedgerSmall(g);
    if |g| != 2 && |g| != 3 {
      assert GroupPairs(g) == [];
    }
  }

  /** The scan of `is_arrangement_valid`, probing sorted keys (corrected). It
      accepts exactly the arrangements whose sorted ledger entries are all new. */
  function IsArrangementValid(arr: Arrangement, used: set<Pair>): (ok: bool)
    ensures ok <==> LedgerPairs(arr) !! used
  {
    if arr == [] then true
    else
      var g := arr[|arr| - 1];
      GroupFreshLedger(g, used);
      IsArrangementValid(arr[..|arr| - 1], used) && GroupFresh(g, used)
  }

  /** `is_arrangement_valid` as written: a 2-group is probed as displayed, a
      3-group as (g0,g1), (g0,g2), (g1,g2). */
  function IsArrangementValidAsWritten(arr: Arrangement, used: set<Pair>): (ok: bool)
    ensures ok <==> LedgerPairsAsWritten(arr) !! used
  {
    if arr == [] then true
    else
      var g := arr[|arr| - 1];
      var unseen := if |g| == 2 then (g[0], g[1]) !in used
                   else if |g| == 3 then
                     (g[0], g[1]) !in used && (g[0], g[2]) !in used && (g[1], g[2]) !in used
                   else true;
      assert unseen <==> Elements(GroupPairs(g)) !! used;
      IsArrangementValidAsWritten(arr[..|arr| - 1], used) && unseen
  }

  /** `x` and `y` sit at two different positions of one 2- or 3-group. */
  ghost predicate TogetherIn(arr: Arrangement, x: int, y: int)
  {
    exists k, i, j :: 0 <= k < |arr| && (|arr[k]| == 2 || |arr[k]| == 3) &&
      0 <= i < j < |arr[k]| && Ordered(arr[k][i], arr[k][j]) == Ordered(x, y)
  }

  /** Two people grouped together leave their sorted pair in the ledger. */
  lemma TogetherInLedger(arr: Arrangement, x: int, y: int)
    requires TogetherIn(arr, x, y)
    ensures Ordered(x, y) in LedgerPairs(arr)
  {
    var k, i, j :| 0 <= k < |arr| && (|arr[k]| == 2 || |arr[k]| == 3) &&
      0 <= i < j < |arr[k]| && Ordered(arr[k][i], arr[k][j]) == Ordered(x, y);
    GroupLedgerMembers(arr[k], i, j);
  }

  /** With sorted keys, an arrangement that passes validation against the ledger
      of earlier arrangements puts no two people together a second time. */
  lemma ValidArrangementRepeatsNoPair(arr: Arrangement, earlier: Arrangement, x: int, y: int)
    requires IsArrangementValid(arr, LedgerPairs(earlier))
    requires TogetherIn(arr, x, y)
    ensures !TogetherIn(earlier, x, y)
  {
    TogetherInLedger(arr, x, y);
    if TogetherIn(earlier, x, y) {
      TogetherInLedger(earlier, x, y);
    }
  }

  /** As written, the ledger stores display order while the partitioner and the
      validation probe other orders: after a round shown as (2,1), (4,3) the
      round (1,2), (3,4) passes validation although it pairs 1 with 2 again. */
  lemma DisplayOrderLedgerMissesRepeat()
    ensures IsArrangementValidAsWritten([[1, 2], [3, 4]], LedgerPairsAsWritten([[2, 1], [4, 3]]))
    ensures TogetherIn([[2, 1], [4, 3]], 1, 2) && TogetherIn([[1, 2], [3, 4]], 1, 2)
  {
    var first: Arrangement := [[2, 1], [4, 3]];
    var second: Arrangement := [[1, 2], [3, 4]];
    assert Ordered(first[0][0], first[0][1]) == Ordered(1, 2);
    assert Ordered(second[0][0], second[0][1]) == Ordered(1, 2);
    DisplayLedgerOfFirstRound();
    SecondRoundPassesAsWritten();
  }

  lemma DisplayLedgerOfFirstRound()
    ensures LedgerPairsAsWritten([[2, 1], [4, 3]]) == {(2, 1), (4, 3)}
  {
    var first: Arrangement := [[2, 1], [4, 3]];
    assert GroupPairs(first[0]) == [(2, 1)] && GroupPairs(first[1]) == [(4, 3)];
    assert first[..1] == [first[0]];
    assert LedgerPairsAsWritten(first[..1]) == {(2, 1)};
  }

  lemma SecondRoundPassesAsWritten()
    ensures IsArrangementValidAsWritten([[1, 2], [3, 4]], {(2, 1), (4, 3)})
  {
    var second: Arrangement := [[1, 2], [3, 4]];
    assert GroupPairs(second[0]) == [(1, 2)] && GroupPairs(second[1]) == [(3, 4)];
    assert second[..1] == [second[0]];
    assert IsArrangementValidAsWritten(second[..1], {(2, 1), (4, 3)});
  }

  /** The sorted ledger is the display-order ledger with every pair sorted. */
  lemma LedgerPairsSortsAsWritten(arr: Arrangement)
    ensures LedgerPairs(arr) == set p | p in LedgerPairsAsWritten(arr) :: Ordered(p.0, p.1)
  {
  }

  // ---------------------------------------------------------------------------
  // Coverage and shape of an arrangement

  /** All members of an arrangement in display order. */
  function Flatten(arr: Arrangement): seq<int>
  {
    if arr == [] then [] else Flatten(arr[..|arr| - 1]) + arr[|arr| - 1]
  }

  lemma {:induction false} FlattenAppend(a: Arrangement, b: Arrangement)
    ensures Flatten(a + b) == Flatten(a) + Flatten(b)
  {
    if b == [] {
      assert a + b == a;
    } else {
      assert (a + b)[..|a + b| - 1] == a + b[..|b| - 1];
      FlattenAppend(a, b[..|b| - 1]);
    }
  }

  /** The last group of `a` sits somewhere in any reordering `b` of `a`; taking
      it out of both leaves two reorderings of each other. */
  lemma MatchLast(a: Arrangement, b: Arrangement) returns (k: nat)
    requires multiset(a) == multiset(b) && a != []
    ensures k < |b| && b[k] == a[|a| - 1]
    ensures multiset(a[..|a| - 1]) == multiset(b[..k] + b[k + 1..])
  {
    var last := a[|a| - 1];
    assert a == a[..|a| - 1] + [last];
    assert last in multiset(b);
    k :| 0 <= k < |b| && b[k] == last;
    assert b == b[..k] + [last] + b[k + 1..];
    var rest := b[..k] + b[k + 1..];
    assert multiset(b) == multiset(b[..k]) + multiset{last} + multiset(b[k + 1..]);
    assert multiset(a) == multiset(a[..|a| - 1]) + multiset{last};
    assert multiset(rest) == multiset(b[..k]) + multiset(b[k + 1..]);
    forall x ensures multiset(a[..|a| - 1])[x] == multiset(rest)[x] {
      assert multiset(a)[x] == multiset(b)[x];
    }
    assert multiset(a[..|a| - 1]) == multiset(rest);
  }

  /** The people of a one-group arrangement are the people of that group. */
  lemma FlattenSingle(g: Group)
    ensures Flatten([g]) == g
  {
    assert [g][..0] == [];
  }

  /** Reordering the groups of an arrangement keeps the people it holds. */
  lemma {:induction false} FlattenPermutation(a: Arrangement, b: Arrangement)
    requires multiset(a) == multiset(b)
    ensures multiset(Flatten(a)) == multiset(Flatten(b))
  {
    if a == [] {
      assert |b| == |multiset(b)| == 0;
    } else {
      var init, last := a[..|a| - 1], a[|a| - 1];
      var k := MatchLast(a, b);
      var pre, post := b[..k], b[k + 1..];
      calc {
        multiset(Flatten(b));
        { assert b == (pre + [last]) + post;
          FlattenAppend(pre + [last], post);
          FlattenAppend(pre, [last]);
          FlattenSingle(last); }
        multiset(Flatten(pre) + last + Flatten(post));
        multiset(Flatten(pre) + Flatten(post)) + multiset(last);
        { FlattenAppend(pre, post); }
        multiset(Flatten(pre + post)) + multiset(last);
        { FlattenPermutation(init, pre + post); }
        multiset(Flatten(init)) + multiset(last);
        multiset(Flatten(a));
      }
    }
  }

  /** Each group as a multiset of people: the group with member order forgotten. */
  function Bags(arr: Arrangement): (bs: seq<multiset<int>>)
    ensures |bs| == |arr|
    ensures forall i :: 0 <= i < |arr| ==> bs[i] == multiset(arr[i])
  {
    if arr == [] then [] else Bags(arr[..|arr| - 1]) + [multiset(arr[|arr| - 1])]
  }

  lemma BagsAppend(a: Arrangement, b: Arrangement)
    ensures Bags(a + b) == Bags(a) + Bags(b)
  {
    assert |Bags(a + b)| == |Bags(a) + Bags(b)|;
    forall i | 0 <= i < |a + b| ensures Bags(a + b)[i] == (Bags(a) + Bags(b))[i] {
      if i < |a| {
        assert (a + b)[i] == a[i];
      } else {
        assert (a + b)[i] == b[i - |a|];
      }
    }
  }

  /** Taking one group out of the middle removes its multiset once. */
  lemma BagsMoveOut(pre: Arrangement, g: Group, post: Arrangement)
    ensures multiset(Bags(pre + [g] + post)) == multiset(Bags(pre + post)) + multiset{multiset(g)}
  {
    BagsAppend(pre + [g], post);
    BagsAppend(pre, [g]);
    BagsAppend(pre, post);
  }

  /** Reordering the groups of an arrangement keeps its groups. */
  lemma {:induction false} BagsPermutation(a: Arrangement, b: Arrangement)
    requires multiset(a) == multiset(b)
    ensures multiset(Bags(a)) == multiset(Bags(b))
  {
    if a == [] {
      assert |b| == |multiset(b)| == 0;
    } else {
      var init, last := a[..|a| - 1], a[|a| - 1];
      var k := MatchLast(a, b);
      var pre, post := b[..k], b[k + 1..];
      calc {
        multiset(Bags(b));
        { assert b == pre + [last] + post;
          BagsMoveOut(pre, last, post); }
        multiset(Bags(pre + post)) + multiset{multiset(last)};
        { BagsPermutation(init, pre + post); }
        multiset(Bags(init)) + multiset{multiset(last)};
        { assert Bags(a) == Bags(init) + [multiset(last)]; }
        multiset(Bags(a));
      }
    }
  }



  /** Every person appears in exactly as many groups as in `people`. */
  ghost predicate Partitions(arr: Arrangement, people: seq<int>)
  {
    multiset(Flatten(arr)) == multiset(people)
  }

  /** Every group is a 2-group or a 3-group, and all 2-groups come first. */
  ghost predicate PairsThenTrios(arr: Arrangement)
  {
    (forall g :: g in arr ==> |g| == 2 || |g| == 3) &&
    (forall i, j :: 0 <= i < j < |arr| && |arr[i]| == 3 ==> |arr[j]| == 3)
  }

  /** The round shape for `n` people: 2-groups only when `n` is even; when `n`
      is odd, 2-groups followed by exactly one 3-group. */
  ghost predicate WellShaped(arr: Arrangement, n: nat)
  {
    if n % 2 == 0 then forall g :: g in arr ==> |g| == 2
    else |arr| > 0 && |arr[|arr| - 1]| == 3 && forall i :: 0 <= i < |arr| - 1 ==> |arr[i]| == 2
  }
}

/** Round assembly of `OptimizedPairMaker` (pair_maker.py:89-116, 205-231):
    one arrangement from a shuffled list and an optional planned trio, by
    pairing everybody outside the trio and shuffling the result for display. */
module Builder {
  import opened Basics
  import opened Groups
  import opened Partitioner

  /** `random.shuffle` on a 3-group: one of its six orders, chosen by `k`. */
  function Permute3(g: Group, k: nat): (h: Group)
    requires |g| == 3 && k < 6
    ensures |h| == 3 && forall x :: x in h <==> x in g
  {
    if k == 0 then [g[0], g[1], g[2]]
    else if k == 1 then [g[0], g[2], g[1]]
    else if k == 2 then [g[1], g[0], g[2]]
    else if k == 3 then [g[1], g[2], g[0]]
    else if k == 4 then [g[2], g[0], g[1]]
    else [g[2], g[1], g[0]]
  }

  /** The three sorted keys of a trio (a, b, c). */
  function TrioKeys(a: int, b: int, c: int): set<Pair>
  {
    {Ordered(a, b), Ordered(a, c), Ordered(b, c)}
  }

  lemma TrioKeysOrderFree(a: int, b: int, c: int)
    ensures TrioKeys(a, c, b) == TrioKeys(a, b, c)
    ensures TrioKeys(b, a, c) == TrioKeys(a, b, c)
    ensures TrioKeys(b, c, a) == TrioKeys(a, b, c)
    ensures TrioKeys(c, a, b) == TrioKeys(a, b, c)
    ensures TrioKeys(c, b, a) == TrioKeys(a, b, c)
  {
    assert Ordered(b, a) == Ordered(a, b);
    assert Ordered(c, a) == Ordered(a, c);
    assert Ordered(c, b) == Ordered(b, c);
  }

  lemma TrioLedger(g: Group)
    requires |g| == 3
    ensures GroupLedger(g) == TrioKeys(g[0], g[1], g[2])
  {
    GroupLedgerSmall(g);
  }

  lemma TrioBag(x: int, y: int, z: int)
    ensures multiset([x, y, z]) == multiset{x, y, z}
  {
  }

  lemma TrioReorder(a: int, b: int, c: int, x: int, y: int, z: int)
    requires multiset{x, y, z} == multiset{a, b, c}
    ensures multiset([x, y, z]) == multiset([a, b, c])
  {
    TrioBag(x, y, z);
    TrioBag(a, b, c);
  }

  /** Reordering a trio keeps its members. */
  lemma Permute3Bag(g: Group, k: nat)
    requires |g| == 3 && k < 6
    ensures multiset(Permute3(g, k)) == multiset(g)
  {
    var a, b, c := g[0], g[1], g[2];
    assert g == [a, b, c];
    var h := Permute3(g, k);
    if k == 0 {
      assert h == g;
    } else if k == 1 {
      assert h == [a, c, b];
      TrioReorder(a, b, c, a, c, b);
    } else if k == 2 {
      assert h == [b, a, c];
      TrioReorder(a, b, c, b, a, c);
    } else if k == 3 {
      assert h == [b, c, a];
      TrioReorder(a, b, c, b, c, a);
    } else if k == 4 {
      assert h == [c, a, b];
      TrioReorder(a, b, c, c, a, b);
    } else {
      assert h == [c, b, a];
      TrioReorder(a, b, c, c, b, a);
    }
  }

  lemma Permute3Keys(g: Group, k: nat)
    requires |g| == 3 && k < 6
    ensures TrioKeys(Permute3(g, k)[0], Permute3(g, k)[1], Permute3(g, k)[2]) == TrioKeys(g[0], g[1], g[2])
  {
    TrioKeysOrderFree(g[0], g[1], g[2]);
  }

  /** Reordering a trio keeps the three sorted pair keys it consumes. */
  lemma Permute3Ledger(g: Group, k: nat)
    requires |g| == 3 && k < 6
    ensures GroupLedger(Permute3(g, k)) == GroupLedger(g)
  {
    TrioLedger(g);
    TrioLedger(Permute3(g, k));
    Permute3Keys(g, k);
  }

  /** A 2-group shown in either order. */
  function Flip(g: Group, flip: bool): (h: Group)
    requires |g| == 2
    ensures |h| == 2 && multiset(h) == multiset(g)
  {
    assert g == [g[0], g[1]];
    if flip then [g[1], g[0]] else g
  }

  lemma FlipKeeps(g: Group, flip: bool)
    requires |g| == 2
    ensures GroupLedger(Flip(g, flip)) == GroupLedger(g)
  {
    assert g == [g[0], g[1]];
    GroupLedgerSmall(g);
    GroupLedgerSmall(Flip(g, flip));
  }

  /** The 2-groups of an arrangement, in order. */
  function TwoGroups(arr: Arrangement): Arrangement
  {
    if arr == [] then []
    else TwoGroups(arr[..|arr| - 1]) + (if |arr[|arr| - 1]| == 2 then [arr[|arr| - 1]] else [])
  }

  /** The 3-groups of an arrangement, in order. */
  function ThreeGroups(arr: Arrangement): Arrangement
  {
    if arr == [] then []
    else ThreeGroups(arr[..|arr| - 1]) + (if |arr[|arr| - 1]| == 3 then [arr[|arr| - 1]] else [])
  }

  /** The 2-groups and 3-groups of an arrangement are exactly its groups of those sizes. */
  lemma {:induction false} SizeGroupsMembers(arr: Arrangement)
    ensures forall g :: g in TwoGroups(arr) <==> g in arr && |g| == 2
    ensures forall g :: g in ThreeGroups(arr) <==> g in arr && |g| == 3
  {
    if arr != [] {
      var k := |arr| - 1;
      SizeGroupsMembers(arr[..k]);
      assert arr == arr[..k] + [arr[k]];
    }
  }

  lemma PrefixStep(arr: Arrangement, i: nat)
    requires i < |arr|
    ensures |arr[i]| == 2 ==> TwoGroups(arr[..i + 1]) == TwoGroups(arr[..i]) + [arr[i]]
    ensures |arr[i]| != 2 ==> TwoGroups(arr[..i + 1]) == TwoGroups(arr[..i])
    ensures |arr[i]| == 3 ==> ThreeGroups(arr[..i + 1]) == ThreeGroups(arr[..i]) + [arr[i]]
    ensures |arr[i]| != 3 ==> ThreeGroups(arr[..i + 1]) == ThreeGroups(arr[..i])
  {
    assert arr[..i + 1][..i] == arr[..i];
    assert TwoGroups(arr[..i]) + [] == TwoGroups(arr[..i]);
    assert ThreeGroups(arr[..i]) + [] == ThreeGroups(arr[..i]);
  }

  /** The ledger of an arrangement is that of its 2-groups and its 3-groups. */
  lemma LedgerOfSizes(arr: Arrangement)
    ensures LedgerPairs(arr) == LedgerPairs(TwoGroups(arr)) + LedgerPairs(ThreeGroups(arr))
  {
    SizeGroupsMembers(arr);
    forall p | p in LedgerPairs(arr) ensures p in LedgerPairs(TwoGroups(arr)) + LedgerPairs(ThreeGroups(arr)) {
      var g :| g in arr && p in GroupLedger(g);
      if |g| != 2 && |g| != 3 {
        assert GroupPairs(g) == [];
      }
    }
  }

  /** `shown` holds the groups of `src` one for one, each with only its member
      order changed. */
  ghost predicate Reorders(shown: Arrangement, src: Arrangement)
  {
    |shown| == |src| &&
    forall j :: 0 <= j < |src| ==>
      |shown[j]| == |src[j]| && multiset(shown[j]) == multiset(src[j]) &&
      GroupLedger(shown[j]) == GroupLedger(src[j])
  }

  lemma ReordersSnoc(shown: Arrangement, src: Arrangement, h: Group, g: Group)
    requires Reorders(shown, src)
    requires |h| == |g| && multiset(h) == multiset(g) && GroupLedger(h) == GroupLedger(g)
    ensures Reorders(shown + [h], src + [g])
  {
  }

  lemma {:induction false} ReordersFlatten(shown: Arrangement, src: Arrangement)
    requires Reorders(shown, src)
    ensures multiset(Flatten(shown)) == multiset(Flatten(src))
  {
    if src != [] {
      var k := |src| - 1;
      assert Reorders(shown[..k], src[..k]) by {
        assert forall j :: 0 <= j < k ==> shown[..k][j] == shown[j] && src[..k][j] == src[j];
      }
      ReordersFlatten(shown[..k], src[..k]);
      assert multiset(Flatten(shown)) == multiset(Flatten(shown[..k])) + multiset(shown[k]);
      assert multiset(Flatten(src)) == multiset(Flatten(src[..k])) + multiset(src[k]);
    }
  }

  lemma ReordersBags(shown: Arrangement, src: Arrangement)
    requires Reorders(shown, src)
    ensures Bags(shown) == Bags(src)
  {
  }

  lemma ReordersSymmetric(shown: Arrangement, src: Arrangement)
    requires Reorders(shown, src)
    ensures Reorders(src, shown)
  {
  }

  lemma ReordersLedgerWithin(shown: Arrangement, src: Arrangement)
    requires Reorders(shown, src)
    ensures LedgerPairs(shown) <= LedgerPairs(src)
  {
    forall p | p in LedgerPairs(shown) ensures p in LedgerPairs(src) {
      var g :| g in shown && p in GroupLedger(g);
      var j :| 0 <= j < |shown| && shown[j] == g;
      assert src[j] in src;
    }
  }

  lemma ReordersLedger(shown: Arrangement, src: Arrangement)
    requires Reorders(shown, src)
    ensures LedgerPairs(shown) == LedgerPairs(src)
  {
    ReordersLedgerWithin(shown, src);
    ReordersSymmetric(shown, src);
    ReordersLedgerWithin(src, shown);
  }

  /** What the display shuffle guarantees about `r` shown for `arr`: the
      2-groups of `arr` come first, shuffled among themselves and each perhaps
      reversed, then its 3-groups in their order, each in some member order;
      the sorted ledger entries are those of `arr`, for the 2-groups alone and
      overall, and the people shown are those of the 2- and 3-groups. */
  ghost predicate Displays(r: Arrangement, arr: Arrangement)
  {
    |r| == |TwoGroups(arr)| + |ThreeGroups(arr)| &&
    (forall j :: 0 <= j < |r| ==> |r[j]| == (if j < |TwoGroups(arr)| then 2 else 3)) &&
    multiset(Bags(r[..|TwoGroups(arr)|])) == multiset(Bags(TwoGroups(arr))) &&
    Bags(r[|TwoGroups(arr)|..]) == Bags(ThreeGroups(arr)) &&
    LedgerPairs(r[..|TwoGroups(arr)|]) == LedgerPairs(TwoGroups(arr)) &&
    LedgerPairs(r) == LedgerPairs(arr) &&
    multiset(Flatten(r)) == multiset(Flatten(TwoGroups(arr))) + multiset(Flatten(ThreeGroups(arr)))
  }

  /** After the shuffle every 2-group comes before every 3-group. */
  lemma JoinShape(arr: Arrangement, pairs: Arrangement, shuffled: Arrangement, trios: Arrangement)
    requires Reorders(pairs, TwoGroups(arr)) && Reorders(trios, ThreeGroups(arr))
    requires multiset(shuffled) == multiset(pairs)
    ensures |shuffled| == |TwoGroups(arr)|
    ensures forall j :: 0 <= j < |shuffled + trios| ==>
      |(shuffled + trios)[j]| == (if j < |TwoGroups(arr)| then 2 else 3)
  {
    assert |shuffled| == |multiset(shuffled)| == |pairs|;
    SizeGroupsMembers(arr);
    var r := shuffled + trios;
    forall j | 0 <= j < |r| ensures |r[j]| == (if j < |shuffled| then 2 else 3) {
      if j < |shuffled| {
        assert r[j] == shuffled[j] && shuffled[j] in multiset(pairs);
        var m :| 0 <= m < |pairs| && pairs[m] == shuffled[j];
        assert TwoGroups(arr)[m] in TwoGroups(arr);
      } else {
        assert r[j] == trios[j - |shuffled|];
        assert ThreeGroups(arr)[j - |shuffled|] in ThreeGroups(arr);
      }
    }
  }

  /** The members shown are those of the 2-groups and 3-groups of the input. */
  lemma JoinMembers(arr: Arrangement, pairs: Arrangement, shuffled: Arrangement, trios: Arrangement)
    requires Reorders(pairs, TwoGroups(arr)) && Reorders(trios, ThreeGroups(arr))
    requires multiset(shuffled) == multiset(pairs)
    requires |shuffled| == |TwoGroups(arr)|
    ensures multiset(Bags((shuffled + trios)[..|TwoGroups(arr)|])) == multiset(Bags(TwoGroups(arr)))
    ensures Bags((shuffled + trios)[|TwoGroups(arr)|..]) == Bags(ThreeGroups(arr))
    ensures multiset(Flatten(shuffled + trios)) ==
      multiset(Flatten(TwoGroups(arr))) + multiset(Flatten(ThreeGroups(arr)))
  {
    assert (shuffled + trios)[..|shuffled|] == shuffled && (shuffled + trios)[|shuffled|..] == trios;
    ReordersBags(pairs, TwoGroups(arr));
    ReordersBags(trios, ThreeGroups(arr));
    BagsPermutation(shuffled, pairs);
    ReordersFlatten(pairs, TwoGroups(arr));
    ReordersFlatten(trios, ThreeGroups(arr));
    FlattenPermutation(shuffled, pairs);
    FlattenAppend(shuffled, trios);
  }

  /** The sorted ledger entries are those of the input, for the 2-groups and overall. */
  lemma JoinLedger(arr: Arrangement, pairs: Arrangement, shuffled: Arrangement, trios: Arrangement)
    requires Reorders(pairs, TwoGroups(arr)) && Reorders(trios, ThreeGroups(arr))
    requires multiset(shuffled) == multiset(pairs)
    requires |shuffled| == |TwoGroups(arr)|
    ensures LedgerPairs((shuffled + trios)[..|TwoGroups(arr)|]) == LedgerPairs(TwoGroups(arr))
    ensures LedgerPairs(shuffled + trios) == LedgerPairs(arr)
  {
    assert (shuffled + trios)[..|shuffled|] == shuffled;
    ReordersLedger(pairs, TwoGroups(arr));
    ReordersLedger(trios, ThreeGroups(arr));
    LedgerPairsPermutation(shuffled, pairs);
    LedgerPairsAppend(shuffled, trios);
    LedgerOfSizes(arr);
  }

  /** The first loop of `randomize_final_arrangement_optimized`: each 2-group
      goes to `pairs`, perhaps reversed, each 3-group to `trios` in a shuffled
      order, both in input order; other groups are skipped. */
  method SplitBySize(arr: Arrangement) returns (pairs: Arrangement, trios: Arrangement)
    ensures Reorders(pairs, TwoGroups(arr)) && Reorders(trios, ThreeGroups(arr))
  {
    pairs, trios := [], [];
    ghost var twoSrc: Arrangement := [];
    ghost var threeSrc: Arrangement := [];
    var i := 0;
    while i < |arr|
      invariant i <= |arr|
      invariant twoSrc == TwoGroups(arr[..i]) && threeSrc == ThreeGroups(arr[..i])
      invariant Reorders(pairs, twoSrc) && Reorders(trios, threeSrc)
    {
      var group := arr[i];
      PrefixStep(arr, i);
      if |group| == 2 {
        var flip: bool :| true;
        var shown := Flip(group, flip);
        FlipKeeps(group, flip);
        ReordersSnoc(pairs, twoSrc, shown, group);
        pairs, twoSrc := pairs + [shown], twoSrc + [group];
      } else if |group| == 3 {
        var k: nat :| k < 6;
        var shown := Permute3(group, k);
        Permute3Bag(group, k);
        Permute3Ledger(group, k);
        ReordersSnoc(trios, threeSrc, shown, group);
        trios, threeSrc := trios + [shown], threeSrc + [group];
      }
      i := i + 1;
    }
    assert arr[..i] == arr;
  }

  lemma JoinDisplays(arr: Arrangement, pairs: Arrangement, shuffled: Arrangement, trios: Arrangement)
    requires Reorders(pairs, TwoGroups(arr)) && Reorders(trios, ThreeGroups(arr))
    requires multiset(shuffled) == multiset(pairs)
    ensures Displays(shuffled + trios, arr)
  {
    JoinShape(arr, pairs, shuffled, trios);
    JoinMembers(arr, pairs, shuffled, trios);
    JoinLedger(arr, pairs, shuffled, trios);
  }

  lemma DisplaysEmpty()
    ensures Displays([], [])
  {
  }

  /** `randomize_final_arrangement_optimized`: an empty arrangement comes back
      as it is; otherwise every 2-group is kept, perhaps reversed, every
      3-group is kept in a shuffled order, the 2-groups are shuffled among
      themselves and all of them come before the 3-groups, which keep their
      order. Groups of other sizes are dropped. */
  method RandomizeFinalArrangement(arr: Arrangement) returns (r: Arrangement)
    ensures arr == [] ==> r == []
    ensures Displays(r, arr)
  {
    if arr == [] {
      DisplaysEmpty();
      return arr;
    }
    var pairs, trios := SplitBySize(arr);
    var shuffled: Arrangement :| multiset(shuffled) == multiset(pairs);
    r := shuffled + trios;
    JoinDisplays(arr, pairs, shuffled, trios);
  }

  // ---------------------------------------------------------------------------
  // Turning the matching and the planned trio into one round

  /** `arrangement.extend(pairs)`: each pair becomes a 2-group. */
  function PairGroups(ps: seq<Pair>): (groups: Arrangement)
    ensures |groups| == |ps|
    ensures forall i :: 0 <= i < |groups| ==> |groups[i]| == 2
  {
    if ps == [] then [] else [[ps[0].0, ps[0].1]] + PairGroups(ps[1..])
  }

  lemma {:induction false} TwoGroupsPrepend(g: Group, a: Arrangement)
    ensures TwoGroups([g] + a) == (if |g| == 2 then [g] else []) + TwoGroups(a)
    ensures ThreeGroups([g] + a) == (if |g| == 3 then [g] else []) + ThreeGroups(a)
  {
    if a != [] {
      var k := |a| - 1;
      assert ([g] + a)[..|[g] + a| - 1] == [g] + a[..k];
      TwoGroupsPrepend(g, a[..k]);
    }
  }

  /** A list of pairs turned into groups: all of them 2-groups, holding the
      pairs' members, and consuming exactly the pairs when those are sorted. */
  lemma {:induction false} PairGroupsFacts(ps: seq<Pair>)
    ensures |PairGroups(ps)| == |ps|
    ensures TwoGroups(PairGroups(ps)) == PairGroups(ps)
    ensures ThreeGroups(PairGroups(ps)) == []
    ensures Flatten(PairGroups(ps)) == PairMembers(ps)
  {
    if ps != [] {
      PairGroupsFacts(ps[1..]);
      var g: Group := [ps[0].0, ps[0].1];
      TwoGroupsPrepend(g, PairGroups(ps[1..]));
      FlattenAppend([g], PairGroups(ps[1..]));
      assert Flatten([g]) == Flatten([]) + g;
    }
  }

  lemma PairLedger(g: Group)
    requires |g| == 2
    ensures LedgerPairs([g]) == {Ordered(g[0], g[1])}
  {
    GroupLedgerSmall(g);
    assert LedgerPairs([g]) == GroupLedger(g);
  }

  lemma {:induction false} PairGroupsLedger(ps: seq<Pair>)
    requires forall p :: p in ps ==> p.0 <= p.1
    ensures forall p :: p in LedgerPairs(PairGroups(ps)) <==> p in ps
  {
    if ps != [] {
      var tail := ps[1..];
      PairGroupsLedger(tail);
      assert LedgerPairs(PairGroups(ps)) == {ps[0]} + LedgerPairs(PairGroups(tail)) by {
        var g: Group := [ps[0].0, ps[0].1];
        assert PairGroups(ps) == [g] + PairGroups(tail);
        LedgerPairsAppend([g], PairGroups(tail));
        PairLedger(g);
        assert Ordered(g[0], g[1]) == ps[0];
      }
      assert forall p :: p in ps <==> p == ps[0] || p in tail by {
        assert ps == [ps[0]] + tail;
      }
    }
  }

  /** `list(set(xs) - drop)`: the members of `xs` outside `drop`, each once,
      in an order the model does not fix. */
  method ListOfSetWithout(xs: seq<int>, drop: seq<int>) returns (r: seq<int>)
    ensures Distinct(r)
    ensures forall x :: x in r <==> x in xs && x !in drop
  {
    var kept: seq<int> := [];
    var i := 0;
    while i < |xs|
      invariant i <= |xs|
      invariant Distinct(kept)
      invariant forall x :: x in kept <==> x in xs[..i] && x !in drop
    {
      if xs[i] !in drop && xs[i] !in kept {
        kept := kept + [xs[i]];
      }
      assert xs[..i + 1] == xs[..i] + [xs[i]];
      i := i + 1;
    }
    assert xs[..i] == xs;
    r :| multiset(r) == multiset(kept);
    DistinctPermutation(kept, r);
    assert forall x :: x in r <==> x in multiset(kept);
  }

  /** Taking the trio out of a list of distinct people leaves the others. */
  lemma SplitOffTrio(people: seq<int>, trio: seq<int>, rest: seq<int>)
    requires Distinct(people) && Distinct(trio) && Distinct(rest)
    requires forall x :: x in trio ==> x in people
    requires forall x :: x in rest <==> x in people && x !in trio
    ensures multiset(rest) + multiset(trio) == multiset(people)
  {
    forall x ensures (multiset(rest) + multiset(trio))[x] == multiset(people)[x] {
      DistinctMultiplicity(rest, x);
      DistinctMultiplicity(trio, x);
      DistinctMultiplicity(people, x);
    }
  }

  /** A matching depends only on who is to be matched, not on their order. */
  lemma MatchingReorder(ps: seq<Pair>, a: seq<int>, b: seq<int>, used: set<Pair>)
    requires multiset(a) == multiset(b)
    ensures IsMatching(ps, a, used) <==> IsMatching(ps, b, used)
  {
  }

  lemma MultisetCancel(a: multiset<int>, b: multiset<int>, c: multiset<int>)
    requires a + c == b + c
    ensures a == b
  {
    forall x ensures a[x] == b[x] {
      assert (a + c)[x] == a[x] + c[x] && (b + c)[x] == b[x] + c[x];
    }
  }

  lemma GroupSizes(r: Arrangement, k: nat)
    requires forall j :: 0 <= j < |r| ==> |r[j]| == (if j < k then 2 else 3)
    ensures forall g :: g in r ==> |g| == 2 || |g| == 3
  {
    forall g | g in r ensures |g| == 2 || |g| == 3 {
      var j :| 0 <= j < |r| && r[j] == g;
    }
  }

  /** The 2-groups shown come from a matching that avoids `used`, so none of
      them repeats a pair. */
  lemma ShownPairsFresh(ps: seq<Pair>, used: set<Pair>, r: Arrangement, k: nat)
    requires FreshPairs(ps, used)
    requires k <= |r| && LedgerPairs(r[..k]) == LedgerPairs(PairGroups(ps))
    requires forall j :: k <= j < |r| ==> |r[j]| == 3
    ensures forall g :: g in r && |g| == 2 ==> GroupLedger(g) !! used
  {
    PairGroupsLedger(ps);
    forall g | g in r && |g| == 2 ensures GroupLedger(g) !! used {
      var j :| 0 <= j < |r| && r[j] == g;
      assert r[..k][j] == g;
    }
  }

  /** The display of the matching's pairs alone: 2-groups only, consuming
      the pairs' keys and holding their members. */
  lemma PairsShown(ps: seq<Pair>, r: Arrangement)
    requires Displays(r, PairGroups(ps))
    ensures |r| == |ps| && forall j :: 0 <= j < |r| ==> |r[j]| == 2
    ensures LedgerPairs(r[..|ps|]) == LedgerPairs(PairGroups(ps))
    ensures multiset(Flatten(r)) == multiset(PairMembers(ps))
  {
    PairGroupsFacts(ps);
    ShownParts(r, PairGroups(ps), PairGroups(ps), []);
    PairsShownCover(ps, r);
  }

  lemma PairsShownCover(ps: seq<Pair>, r: Arrangement)
    requires multiset(Flatten(r)) == multiset(Flatten(PairGroups(ps))) + multiset(Flatten([]))
    ensures multiset(Flatten(r)) == multiset(PairMembers(ps))
  {
    PairGroupsFacts(ps);
    assert Flatten([]) == [];
  }

  /** The display of the planned trio with the matching's pairs: the pairs
      first, then the trio, in some order. */
  lemma TrioShown(shown: Group, ps: seq<Pair>, r: Arrangement)
    requires |shown| == 3 && Displays(r, [shown] + PairGroups(ps))
    ensures |r| == |ps| + 1 && forall j :: 0 <= j < |r| ==> |r[j]| == (if j < |ps| then 2 else 3)
    ensures LedgerPairs(r[..|ps|]) == LedgerPairs(PairGroups(ps))
    ensures multiset(Flatten(r)) == multiset(PairMembers(ps)) + multiset(shown)
    ensures multiset(r[|ps|]) == multiset(shown)
  {
    TrioGroupsSplit(shown, ps);
    ShownParts(r, [shown] + PairGroups(ps), PairGroups(ps), [shown]);
    PairGroupsFacts(ps);
    TrioShownCover(shown, ps, r);
    TrioShownLast(shown, |ps|, r);
  }

  lemma TrioGroupsSplit(shown: Group, ps: seq<Pair>)
    requires |shown| == 3
    ensures TwoGroups([shown] + PairGroups(ps)) == PairGroups(ps)
    ensures ThreeGroups([shown] + PairGroups(ps)) == [shown]
  {
    PairGroupsFacts(ps);
    TwoGroupsPrepend(shown, PairGroups(ps));
    assert [] + PairGroups(ps) == PairGroups(ps);
    assert [shown] + [] == [shown];
  }

  lemma TrioShownCover(shown: Group, ps: seq<Pair>, r: Arrangement)
    requires multiset(Flatten(r)) == multiset(Flatten(PairGroups(ps))) + multiset(Flatten([shown]))
    ensures multiset(Flatten(r)) == multiset(PairMembers(ps)) + multiset(shown)
  {
    PairGroupsFacts(ps);
    FlattenSingle(shown);
  }

  lemma TrioShownLast(shown: Group, k: nat, r: Arrangement)
    requires k < |r| && Bags(r[k..]) == Bags([shown])
    ensures multiset(r[k]) == multiset(shown)
  {
    assert Bags(r[k..])[0] == multiset(r[k..][0]) && r[k..][0] == r[k];
  }

  /** `Displays` with the 2-groups and 3-groups of the input named. */
  lemma ShownParts(r: Arrangement, arr: Arrangement, two: Arrangement, three: Arrangement)
    requires Displays(r, arr) && TwoGroups(arr) == two && ThreeGroups(arr) == three
    ensures |r| == |two| + |three|
    ensures forall j :: 0 <= j < |r| ==> |r[j]| == (if j < |two| then 2 else 3)
    ensures Bags(r[|two|..]) == Bags(three)
    ensures LedgerPairs(r[..|two|]) == LedgerPairs(two)
    ensures multiset(Flatten(r)) == multiset(Flatten(two)) + multiset(Flatten(three))
  {
  }

  /** A round without a trio: the shown groups are the matching's pairs. */
  lemma PairsOnlyRound(people: seq<int>, ps: seq<Pair>, used: set<Pair>, r: Arrangement)
    requires IsMatching(ps, people, used)
    requires |r| == |ps| && forall j :: 0 <= j < |r| ==> |r[j]| == 2
    requires multiset(Flatten(r)) == multiset(PairMembers(ps))
    ensures Partitions(r, people) && WellShaped(r, |people|)
  {
    MatchingEven(ps, people, used);
  }

  /** A round with the planned trio: the matching's pairs first, the trio,
      in some order, last. */
  lemma TrioRound(people: seq<int>, trio: seq<int>, rest: seq<int>, shown: Group,
                  ps: seq<Pair>, used: set<Pair>, r: Arrangement)
    requires multiset(rest) + multiset(trio) == multiset(people)
    requires |shown| == 3 && multiset(shown) == multiset(trio)
    requires IsMatching(ps, rest, used)
    requires |r| == |ps| + 1 && forall j :: 0 <= j < |r| ==> |r[j]| == (if j < |ps| then 2 else 3)
    requires multiset(Flatten(r)) == multiset(PairMembers(ps)) + multiset(shown)
    ensures Partitions(r, people) && WellShaped(r, |people|)
  {
    MatchingEven(ps, rest, used);
    assert |people| == |rest| + 3 by {
      assert |multiset(people)| == |multiset(rest)| + |multiset(trio)|;
    }
  }

  /** The trio branch of `construct_arrangement_with_constraints`: the trio
      in a shuffled order, and the distinct people outside it. */
  method SetAsideTrio(people: seq<int>, trio: seq<int>, shuffled: seq<int>) returns (shown: Group, rest: seq<int>)
    requires |trio| == 3 && multiset(shuffled) == multiset(people)
    ensures |shown| == 3 && multiset(shown) == multiset(trio)
    ensures Distinct(rest) && forall x :: x in rest <==> x in people && x !in trio
  {
    var k: nat :| k < 6;
    shown := Permute3(trio, k);
    Permute3Bag(trio, k);
    rest := ListOfSetWithout(shuffled, trio);
    assert forall x :: x in shuffled <==> x in multiset(people);
  }

  /** No pairing of those left outside the trio means no round at all. */
  lemma NoPairingNoRound(people: seq<int>, trio: seq<int>, remaining: seq<int>, used: set<Pair>)
    requires Distinct(people)
    requires |trio| != 3 ==> multiset(remaining) == multiset(people)
    requires TrioOf(trio, people) ==> Distinct(remaining) && forall x :: x in remaining <==> x in people && x !in trio
    requires forall ps :: !IsMatching(ps, remaining, used)
    ensures |trio| != 3 ==> forall ps :: !IsMatching(ps, people, used)
    ensures TrioOf(trio, people) ==>
      forall ps, others :: multiset(others) + multiset(trio) == multiset(people) ==> !IsMatching(ps, others, used)
  {
    if |trio| != 3 {
      forall ps ensures !IsMatching(ps, people, used) {
        MatchingReorder(ps, remaining, people, used);
      }
    }
    if TrioOf(trio, people) {
      SplitOffTrio(people, trio, remaining);
      forall ps, others | multiset(others) + multiset(trio) == multiset(people)
        ensures !IsMatching(ps, others, used)
      {
        MultisetCancel(multiset(remaining), multiset(others), multiset(trio));
        MatchingReorder(ps, remaining, others, used);
      }
    }
  }

  /** The round built without a trio. */
  lemma PairsOnlyOutcome(people: seq<int>, remaining: seq<int>, ps: seq<Pair>, used: set<Pair>, r: Arrangement)
    requires multiset(remaining) == multiset(people)
    requires FreshPairs(ps, used)
    requires Distinct(people) ==> IsMatching(ps, remaining, used)
    requires Displays(r, PairGroups(ps))
    ensures forall g :: g in r ==> |g| == 2 || |g| == 3
    ensures people == [] ==> r == []
    ensures forall g :: g in r && |g| == 2 ==> GroupLedger(g) !! used
    ensures Distinct(people) ==> Partitions(r, people) && WellShaped(r, |people|)
  {
    PairsShown(ps, r);
    GroupSizes(r, |ps|);
    if people == [] {
      PairMembersLength(ps);
    }
    ShownPairsFresh(ps, used, r, |ps|);
    if Distinct(people) {
      MatchingReorder(ps, remaining, people, used);
      PairsOnlyRound(people, ps, used, r);
    }
  }

  /** The round built around a planned trio. */
  lemma TrioOutcome(people: seq<int>, trio: seq<int>, remaining: seq<int>, shown: Group,
                    ps: seq<Pair>, used: set<Pair>, r: Arrangement)
    requires Distinct(remaining) && IsMatching(ps, remaining, used)
    requires forall x :: x in remaining <==> x in people && x !in trio
    requires |trio| == 3 && |shown| == 3 && multiset(shown) == multiset(trio)
    requires Displays(r, [shown] + PairGroups(ps))
    ensures forall g :: g in r ==> |g| == 2 || |g| == 3
    ensures forall g :: g in r && |g| == 2 ==> GroupLedger(g) !! used
    ensures Distinct(people) && TrioOf(trio, people) ==>
      Partitions(r, people) && WellShaped(r, |people|) &&
      r != [] && multiset(r[|r| - 1]) == multiset(trio)
  {
    TrioShown(shown, ps, r);
    GroupSizes(r, |ps|);
    ShownPairsFresh(ps, used, r, |ps|);
    if Distinct(people) && TrioOf(trio, people) {
      SplitOffTrio(people, trio, remaining);
      TrioRound(people, trio, remaining, shown, ps, used, r);
      assert |r| - 1 == |ps|;
    }
  }

  /** `construct_arrangement_with_constraints`: shuffle the round's people;
      when a trio of three is planned, show it in a shuffled order and pair
      the distinct people outside it, otherwise pair everybody; no pairing
      gives `None`, else the groups are shuffled for display. The 2-groups
      never repeat a pair in `used`; the trio's own pairs are not checked
      here. For distinct people the round covers everybody once, in the
      round's shape, and `None` means no such pairing exists. */
  method ConstructArrangementWithConstraints(people: seq<int>, trio: seq<int>, used: set<Pair>)
    returns (r: Option<Arrangement>)
    ensures r.Some? ==> forall g :: g in r.value ==> |g| == 2 || |g| == 3
    ensures |trio| != 3 && people == [] ==> r == Some([])
    ensures r.Some? ==> forall g :: g in r.value && |g| == 2 ==> GroupLedger(g) !! used
    ensures Distinct(people) && (|trio| != 3 || TrioOf(trio, people)) && r.Some? ==>
      Partitions(r.value, people) && WellShaped(r.value, |people|)
    ensures Distinct(people) && TrioOf(trio, people) && r.Some? ==>
      r.value != [] && multiset(r.value[|r.value| - 1]) == multiset(trio)
    ensures Distinct(people) && |trio| != 3 && r.None? ==> forall ps :: !IsMatching(ps, people, used)
    ensures Distinct(people) && TrioOf(trio, people) && r.None? ==>
      forall ps, others :: multiset(others) + multiset(trio) == multiset(people) ==> !IsMatching(ps, others, used)
  {
    var remaining: seq<int> :| multiset(remaining) == multiset(people);
    if Distinct(people) {
      DistinctPermutation(people, remaining);
    }
    var arrangement: Arrangement := [];
    var shown: Group := [];
    if |trio| == 3 {
      shown, remaining := SetAsideTrio(people, trio, remaining);
      arrangement := [shown];
    }
    var pairs := FindValidPairing(remaining, used);
    if pairs.None? {
      if Distinct(people) {
        NoPairingNoRound(people, trio, remaining, used);
      }
      return None;
    }
    var ps := pairs.value;
    arrangement := arrangement + PairGroups(ps);
    var display := RandomizeFinalArrangement(arrangement);
    r := Some(display);
    if |trio| != 3 {
      assert arrangement == PairGroups(ps);
      PairsOnlyOutcome(people, remaining, ps, used, display);
    } else {
      TrioOutcome(people, trio, remaining, shown, ps, used, display);
    }
  }
}

# Pair maker: a verified model of the round generator

The pair maker splits a group of people into 2-person groups over several
rounds. When the head count is odd, each round also has one 3-person group.
No two people should ever be grouped together twice. This project models the
generation engine of `OptimizedPairMaker` (`pair_maker.py:9-384`) in Dafny and
proves what it promises:

- **Trio planner** (`TrioPlanner`, `trio_planner.dfy`). It computes per-person
  trio targets by integer division. It then draws one trio per round by
  deficit-weighted cumulative sums, and tops the trio up from the people not
  yet drawn.
- **Constrained partitioner** (`Partitioner`, `partitioner.dfy`). It has three
  stages:
  - a count probe over free pairs;
  - a greedy pass over consecutive slots of a shuffle;
  - an exhaustive recursive search for a perfect matching that avoids the
    ledger.
- **Round assembly** (`Builder`, `builder.dfy`). It sets the trio aside and
  pairs the others. It then randomises the display: pairs are flipped or kept,
  trios permuted, 2-groups shuffled and put before the trios.
- **Ledger and validation** (`Groups`, `groups.dfy`). These are the pair keys
  that a round consumes and the validity scan over them.
- **Session** (`Session`, `session.dfy`). The `PairMaker` class holds the
  ledger and the committed rounds. Its methods commit a round, search one round
  within its attempt budget, drive all rounds, and report trio fairness. The
  trio perturbation that a retry applies, `AdjustTrioMembers`, is a
  module-level method of `Session` beside the class. The counting side of the fairness report is in `Fairness`
  (`fairness.dfy`).

People are integers, as in the numeric input mode. A pair `tuple(sorted([a, b]))`
is `Ordered(a, b)`, and an arrangement is a `seq<seq<int>>` in display order.
Every random choice is an arbitrary choice (`:|`), so each property holds for
every outcome:

- the shuffles are arbitrary permutations;
- the coin flips are arbitrary booleans;
- the weighted draw is an arbitrary integer in `(0, total]`;
- the trio order is one of its six permutations.

Some properties hold for every list:

- every pair the search keeps is a sorted key outside the ledger;
- every 2-group of a built round avoids the ledger;
- every accepted round is valid against the ledger.

Other properties are stated only for lists without repeats:

- the pairs form a perfect matching;
- a failed search means that no matching exists;
- a round seats everybody exactly once;
- a planned trio is three different people;
- the trio counts add up to 3 per round.

The planner returns an empty plan for an even list (`pair_maker.py:19-20`), and
`pair_maker.py:299` treats a missing entry as no trio.

## Model

| member | source | states |
|---|---|---|
| Groups.Ordered | pair_maker.py:130-131 | the sorted key holds the two people, smaller first |
| Groups.GroupPairs | pair_maker.py:233-242 | a 2-group yields its one pair, a 3-group its three pairs (g0,g1), (g0,g2), (g1,g2); any other size yields none |
| Groups.LedgerPairs | pair_maker.py:258-270 | a key is in a round's ledger entries iff it is the sorted key of some pair of one of its groups |
| Groups.LedgerPairsAsWritten | pair_maker.py:258-270 | the entries `add_arrangement` stores as written: exactly the display-order pairs of the round's groups |
| Groups.LedgerPairsSortsAsWritten | pair_maker.py:258-270 | the sorted ledger is the as-written ledger with every pair sorted |
| Groups.LedgerPairsAppend | pair_maker.py:272-273 | the ledger of two rounds is the union of their ledgers |
| Groups.LedgerPairsPermutation | pair_maker.py:225-231 | reordering the groups of a round keeps its ledger |
| Groups.GroupFreshLedger | pair_maker.py:246-255 | a group passes the per-group probe iff none of its keys is in the ledger |
| Groups.IsArrangementValid | pair_maker.py:244-256 | the validity scan (with sorted keys) accepts a round iff its ledger entries are disjoint from the ledger |
| Groups.IsArrangementValidAsWritten | pair_maker.py:244-256 | the scan as written accepts a round iff its display-order pairs are disjoint from the ledger |
| Groups.TogetherInLedger | pair_maker.py:233-242 | two people who share a group leave their sorted key in the round's ledger |
| Groups.ValidArrangementRepeatsNoPair | pair_maker.py:244-256 | a round valid against an earlier round's ledger puts no two people together who were together in it |
| Groups.DisplayOrderLedgerMissesRepeat | pair_maker.py:244-270 | as written, after the round (2,1),(4,3) the round (1,2),(3,4) passes validation although it repeats both pairs |
| Groups.FlattenPermutation | pair_maker.py:225-231 | reordering the groups of a round keeps the multiset of its members |
| Groups.BagsPermutation | pair_maker.py:225-231 | reordering the groups of a round keeps the multiset of its group contents |
| TrioPlanner.TrioTargets | pair_maker.py:26-31 | one target per person, each the base share `3t // n` or one more |
| TrioPlanner.TrioTargetsSum | pair_maker.py:26-31 | the targets add up to 3 * rounds; each is the base share or one more, and exactly the first `3t mod n` people get one more |
| TrioPlanner.Deficits | pair_maker.py:36 | one weight per person, never negative and at least the person's shortfall; zero exactly for people who have reached their target |
| TrioPlanner.DeficitSumBound | pair_maker.py:36-38 | the shortfalls add up to at least the places still to hand out, so with 3 places per remaining round the `else` branch at line 67 is never taken |
| TrioPlanner.DrawIndex | pair_maker.py:44-53 | the cumulative scan stops at the first index whose prefix sum reaches the draw |
| TrioPlanner.PositiveDrawSelectsPositiveWeight | pair_maker.py:46-53 | a draw in (0, total] lands on a person whose weight is positive |
| TrioPlanner.ZeroDrawSelectsZeroWeight | pair_maker.py:46-53 | a draw of exactly 0 over weights [0,2,1] lands on index 0, whose weight is 0 |
| TrioPlanner.DrawTrio | pair_maker.py:40-54 | at most three draws, all of different people of positive weight; fewer than three only when every other weight is 0 |
| TrioPlanner.FreeIndexExists | pair_maker.py:56-59 | with at least 3 people and fewer than 3 chosen, someone is still free, so the fill loop ends |
| TrioPlanner.FreeIndices | pair_maker.py:57 | exactly the indices below n not yet in the trio |
| TrioPlanner.ChooseTrio | pair_maker.py:40-59 | the draws and then the fill give three different indices into the list, chosen short-first (`ShortFirst`): somebody with no shortfall left is in the trio only when everybody still short of their target is in it too |
| TrioPlanner.PlanRound | pair_maker.py:36-60 | one round once the shortfalls allow a trio: the trio is chosen short-first against the shortfalls left by the earlier rounds, is shown as the people at its indices, and the running counts become those of the earlier rounds plus this trio (`Tally`) |
| TrioPlanner.Members | pair_maker.py:61 | one person per chosen index, all of them people of the list; different indices into a list without repeats give different people |
| TrioPlanner.CountTrio | pair_maker.py:64-66 | each chosen index gains one, others are unchanged, and the total grows by the trio size |
| TrioPlanner.PlanTrioDistribution | pair_maker.py:17-70 | no plan for an even list; for an odd list exactly one trio per round, each three people of the list, and a trio of three different people (`TrioOf`) when the list has no repeats; for an odd list every round's trio is chosen short-first against the counts of the rounds before it (`ShortFirstPlan`) |
| Partitioner.ScanCountsAll | pair_maker.py:125-136 | the probe's full scan counts exactly the free position pairs |
| Partitioner.MatchingNeedsFreePairs | pair_maker.py:138-139 | a list without repeats that has a matching has at least n/2 free pairs, so the probe never rejects a solvable list |
| Partitioner.MatchingEven | pair_maker.py:122-123 | only an even list has a matching |
| Partitioner.GreedyPhase | pair_maker.py:148-160 | the pairs taken are sorted and unused; for a list without repeats everyone is placed iff every slot pair (2k, 2k+1) is free, and then the pairs form a matching |
| Partitioner.GreedyPairingWithBacktrack | pair_maker.py:144-166 | a result's pairs are sorted keys outside the ledger; for a list without repeats a result is a matching and no result means none exists |
| Partitioner.ValidPartners | pair_maker.py:178-184 | exactly the others whose pair with the first person is free |
| Partitioner.SplitMatching | pair_maker.py:192-199 | any matching pairs the first person with some free partner and matches the rest without that partner |
| Partitioner.ExtendMatching | pair_maker.py:192-199 | a free pair for the first person plus a matching of the rest is a matching of the whole list |
| Partitioner.NoMatchingWhenAllPartnersFail | pair_maker.py:186-201 | when every free partner of the first person leads to a dead end, no matching exists |
| Partitioner.Backtrack | pair_maker.py:170-201 | a result extends the pairs so far by sorted keys outside the ledger; for a list without repeats these form a matching of the remaining people, and no result means the remaining people have no matching |
| Partitioner.TryPartners | pair_maker.py:189-201 | a result extends the pairs so far by sorted keys outside the ledger; for a list without repeats it completes a matching, and no result shows that every candidate is a dead end |
| Partitioner.BacktrackPairing | pair_maker.py:168-203 | a result's pairs are sorted keys outside the ledger; for a list without repeats a result is a matching and no result means none exists |
| Partitioner.FindValidPairing | pair_maker.py:118-142 | no pairs for an empty list, nothing for an odd list or one with fewer than n/2 free pairs; any result's pairs are sorted keys outside the ledger; for a list without repeats a result is a matching, and nothing comes back only when none exists |
| Basics.Without | pair_maker.py:194 | every copy of the partner is dropped and everyone else kept |
| Basics.WithoutDistinct | pair_maker.py:194 | on a list without repeats, dropping a member removes exactly one element |
| Basics.DistinctPermutation | pair_maker.py:92-93 | a shuffle of a list without repeats has no repeats |
| Builder.Permute3 | pair_maker.py:223-224 | one of the six orders of a trio: three entries, the same people |
| Builder.Permute3Bag | pair_maker.py:221-224 | each of the six trio orders holds the same three people |
| Builder.Permute3Ledger | pair_maker.py:221-224 | reordering a trio keeps its three sorted keys |
| Builder.Flip | pair_maker.py:217-220 | a pair shown in either order is still a pair of the same two people |
| Builder.FlipKeeps | pair_maker.py:215-220 | reversing a pair keeps its sorted key |
| Builder.SizeGroupsMembers | pair_maker.py:214-224 | the pairs list holds exactly the 2-groups of the round and the trios list exactly the 3-groups |
| Builder.LedgerOfSizes | pair_maker.py:214-224 | the round's ledger is the ledger of its 2-groups plus that of its 3-groups |
| Builder.ReordersLedger | pair_maker.py:214-224 | groups reordered one by one keep the ledger |
| Builder.SplitBySize | pair_maker.py:210-224 | each 2-group and each 3-group of the round, in order, with its members reordered only |
| Builder.JoinDisplays | pair_maker.py:226-231 | shuffled 2-groups followed by the 3-groups display the round: same groups by size, same members, same ledger |
| Builder.RandomizeFinalArrangement | pair_maker.py:205-231 | an empty round stays empty; otherwise the result shows the round's 2-groups (in any order) then its 3-groups, with the same members and ledger |
| Builder.PairGroups | pair_maker.py:113 | one 2-group per pair |
| Builder.PairGroupsLedger | pair_maker.py:113 | the 2-groups built from sorted pairs consume exactly those pairs |
| Builder.ListOfSetWithout | pair_maker.py:103-106 | the people left after removing the trio, without repeats, in some order |
| Builder.SetAsideTrio | pair_maker.py:97-106 | the trio is shown as a reordering of itself, and the rest are exactly the people outside it, once each |
| Builder.NoPairingNoRound | pair_maker.py:107-111 | when the pairing fails for a list without repeats, the people outside the trio have no matching |
| Builder.PairsOnlyOutcome | pair_maker.py:107-116 | without a trio, the round is the pairing shown in some order: it seats everyone once in 2-groups and repeats no pair |
| Builder.TrioOutcome | pair_maker.py:97-116 | with a trio, the round seats everyone once, 2-groups first and the trio last, and its 2-groups repeat no pair |
| Builder.ConstructArrangementWithConstraints | pair_maker.py:89-116 | every group has 2 or 3 people, every 2-group avoids the ledger, and an empty list without a trio gives an empty round; for a list without repeats, the round seats everyone once in the round's shape, the planned trio last; no round means no matching of the people outside the trio exists |
| Fairness.OddRoundTrioPlaces | pair_maker.py:358-362 | a round for an odd list gives trio places only to its last group, all of them people of the list |
| Fairness.TrioPlacesTotal | pair_maker.py:356-362 | for an odd list without repeats, the counts of all people add up to 3 per committed round |
| Fairness.FairShare | pair_maker.py:364-383 | `optimal_min` lies between the smallest and largest count; when the result is fair the smallest count equals `optimal_min` and the largest is at most `optimal_max` |
| Session.TotalPossible | pair_maker.py:286 | twice the count is n(n-1): the number of 2-person combinations, with no rounding |
| Session.NeededPairs | pair_maker.py:287 | zero exactly when no rounds are requested or there are fewer than two people |
| Session.MaxAttempts | pair_maker.py:302 | between 50 and 200: 50 + 10 per round up to round 15, and 200 from round 15 on |
| Session.Intensity | pair_maker.py:337 | 0 replacement steps for attempts 0-49, 1 for 50-99, 2 from 100 on: at most 2, at most attempt // 50, and equal to one of them |
| Session.RemoveFirst | pair_maker.py:346 | one copy of the member is removed |
| Session.Outside | pair_maker.py:343 | exactly the people not in the current trio |
| Session.SwapKeepsDistinct | pair_maker.py:341-347 | swapping a trio member for someone outside the trio keeps it free of repeats |
| Session.AdjustTrioMembers | pair_maker.py:331-349 | anything but a 3-list, and any attempt below 50, returns the trio unchanged; the size is kept, every member comes from the trio or the list, and a trio without repeats stays without repeats |
| Session.Acceptable | pair_maker.py:319 | an attempt is accepted iff it is a non-empty round none of whose groups holds a ledger key |
| Session.RoundOutcomeAsWritten | pair_maker.py:305-323 | as written, a round commits only a non-empty arrangement that was one of its attempts, and commits nothing only when no attempt was acceptable |
| Session.FirstValidAccepts | pair_maker.py:305-320 | the first acceptable attempt is non-empty and valid against the ledger; there is none iff no attempt was acceptable |
| Session.RoundOutcomesAgree | pair_maker.py:305-323 | when some attempt was acceptable, the round as written commits the same arrangement as the corrected one |
| Session.FallbackCommitsRepeatedTrio | pair_maker.py:305-323 | as written, a round whose only construction repeats all three pairs of a trio still commits it, where the corrected round commits nothing |
| Session.HistoryLedgerHolds | pair_maker.py:272-273 | the session ledger holds the keys of every committed round |
| Session.NeverTogetherTwice | pair_maker.py:319-323 | in a history where every round was valid when committed, two people grouped together in one round are never together in an earlier one |
| Session.RepeatsNothingSnoc | pair_maker.py:319-324 | committing a round that is valid against the ledger keeps the history free of repeats |
| Session.NewPairs | pair_maker.py:260-269 | the keys collected are exactly the round's ledger entries |
| Session.ShuffleKeepsRound | pair_maker.py:313-315 | a reshuffle of the people keeps the count, keeps them free of repeats, and keeps the trio among them |
| Session.TallyTrio | pair_maker.py:360-362 | each member of a trio gains one count per place |
| Session.TallyTrioPlaces | pair_maker.py:356-362 | each person's count is their number of trio places over all committed rounds |
| Fairness.Get | pair_maker.py:372 | the stored count of a person with an entry; a person without one reads as 0 |
| Session.CountRange | pair_maker.py:372-374 | the smallest and largest count, both taken by someone on the list |
| Session.PairMaker.constructor | pair_maker.py:10-15 | empty ledger, no rounds, no trio assignments, no people |
| Session.PairMaker.AddArrangement | pair_maker.py:258-276 | the ledger grows by exactly the round's keys, the round is appended, and the ledger still equals the keys of the history |
| Session.PairMaker.FindRoundArrangement | pair_maker.py:298-320 | at most `MaxAttempts(round)` attempts, all of them when nothing is found; a found round is non-empty and valid against the ledger and, for a list without repeats, seats everyone once in the round's shape; an empty list without a trio finds nothing |
| Session.PairMaker.GenerateMultipleArrangements | pair_maker.py:278-329 | resets the session and leaves the trio assignments as they were; `Infeasible` iff n//2 pairs per round exceed all pairs; the count equals the rounds committed, at most the target, with no diagnostic iff every round was built; every committed round is non-empty and repeats no earlier pair, and for a list without repeats seats everyone once; an empty list with rounds requested reports `RoundExhausted(0)` |
| Session.PairMaker.GetTrioFairnessStats | pair_maker.py:351-384 | nothing for an even list; otherwise the round count, `optimal_min = 3 * rounds / n` and one more, the count of every listed person, the smallest and largest count (each taken by someone), and fairness iff they differ by at most one |

## Findings

| source | as written | input that shows it | evidently intended | confidence | as-written member | corrected member |
|---|---|---|---|---|---|---|
| pair_maker.py:244-270 | the ledger stores each group's pairs in display order, and the validity scan probes display order, while the partitioner probes sorted pairs | round 1 shown as (2,1),(4,3); round 2 built as (1,2),(3,4) passes validation | every pair is stored and probed under one key, so a validated round repeats no pair | not executed | Groups.DisplayOrderLedgerMissesRepeat | Groups.ValidArrangementRepeatsNoPair |
| pair_maker.py:305-323 | when no attempt of a round validates, the last attempt is committed anyway if it is non-empty | people [1,2,3], two rounds: the second round's only construction is the trio 1,2,3 again, and it is committed | a round with no valid attempt is not committed, and the driver reports how many rounds it built | not executed | Session.FallbackCommitsRepeatedTrio | Session.FirstValidAccepts |
| pair_maker.py:46-53 | `random.random() * total_weight` can be exactly 0, and `0 <= cumsum` then holds at index 0 even when its weight is 0 | weights [0,2,1] after the first draw zeroed index 0, draw 0.0: index 0 is chosen again | the draw lands only on a person with positive weight | not executed | TrioPlanner.ZeroDrawSelectsZeroWeight | TrioPlanner.PositiveDrawSelectsPositiveWeight |

The model uses the corrected behaviour in all three cases:

- the ledger is keyed by sorted pairs (`Groups.LedgerPairs`, `Groups.IsArrangementValid`);
- `Session.PairMaker.FindRoundArrangement` commits only an acceptable round;
- the draw is taken in `(0, total]`.

## Left out

- The Streamlit interface, the table, text and CSV formatting, and the wall clock (`pair_maker.py:386-758`). These are presentation only.
- `get_available_pairs` and the `_available_pairs_cache` field (`pair_maker.py:72-87`). No core operation calls them, and the cache is only ever reset. So the field is left out of `PairMaker`.
- Floating point:
  - The weighted draw is an integer in `(0, total]`.
  - The 50% and 30% coins are arbitrary booleans.
  - `int(total_trio_positions / people_count)` is integer division. It agrees with the float quotient for all but astronomically large counts.
- Randomness is arbitrary choice. Uniformity, sampling in proportion to deficit, and seeded reproducibility are not modelled.
- The iteration order of `list(set(...))` (`pair_maker.py:103-106`) is an arbitrary order of the distinct remaining people.
- Diagnostic strings become the `Diagnostic` datatype: `Infeasible` or `RoundExhausted(count)`.
- TrioPlanner.PlanTrioDistribution: requires a list other than one person whenever rounds are requested. For one person, the guard at `pair_maker.py:286-290` passes and the fill loop at `pair_maker.py:56-59` never terminates.
- Session.PairMaker.GenerateMultipleArrangements: has the same one-person precondition, for the same reason.
- Session.PairMaker.GenerateMultipleArrangements: models the corrected fallback, so a round without a valid attempt ends the session. The as-written fallback is `Session.RoundOutcomeAsWritten`, described under Findings.
- Session.PairMaker.GenerateMultipleArrangements: for the guard it states only what it checks. The guard counts n//2 pairs per round while a trio consumes three. For example, three people and two rounds pass the guard although only one round can be built.
- Session.AdjustTrioMembers: does not bound the number of members replaced by the intensity. It states only that attempts below 50 change nothing and that the result keeps the trio's size, origin and distinctness.
- Session.PairMaker.GetTrioFairnessStats: proves that the counts add up to 3 per round (`Fairness.TrioPlacesTotal`) only for an odd list without repeats. With repeated names the dictionary in the source merges people.
- `trio_assignments` is kept as a field that is set up empty and never written, as in the source.

# Quantitative fairness metrics: a Dafny model

This project models the fairness metrics of the Quantitative_fairness
repository and proves properties of them. These metrics score how well a
voting rule respects two axioms:

- **Independence of irrelevant alternatives (σ_IIA).** Striking one
  candidate from every ballot should not change the order of the others.
- **Unanimity / majority (σ_UM, σ_UF).** The outcome should place higher the
  candidate that more voters prefer.

The model covers these files:

- **IIA_scottish.py** (modules `ScottishRules`, `ScottishStv`, `ScottishIIA`).
  The Scottish STV study. It holds hand-written Borda, Plurality and
  simplified STV rankings over ballots of integer candidate ids, the
  inversion count `swap_distance`, and its own σ_IIA.
- **fairness_metric.py** (module `FairnessMetric`). The Kendall tau distance
  and the first σ_IIA over votekit profiles, with that file's normalisation.
- **notebooks/fairness_metric.py** (modules `NotebookIIA`, `NotebookUM`). The
  σ_IIA with the corrected normalisation, `sigma_IIA_STV`, `sigma_UM`,
  `sigma_UF_STV`, and the winner-set metrics `sigma_IIA_winner` and
  `sigma_UM_winner_set`.
- **helper_functions.py** (module `HelperFunctions`). `flatten_ballot_ranking`.
- **other_files/clean_ny_data.py** (module `CleanNyData`).
  `truncate_past_overvote`.
- **voting_rules.py** (module `VotingRules`). `build_voting_rule`.

Shared sequence facts live in `Common`. The part of votekit's data model that
the code reads lives in `Votekit`: ballots are lists of tied groups with a
weight, and profiles are ballots plus candidate names.

Form of the model:

- Loops in the source are methods with loop invariants, each proved against a
  specification function. Examples: the Borda and Plurality tallies, the STV
  ranking, the Kendall tau double loop, every σ loop, and the overvote cut.
- Expression-level code is functions: `swap_distance`, the STV sweep, the
  quota, and `build_voting_rule`.

Values the program takes from outside become parameters. These are votekit's
election classes and `remove_and_condense` / `remove_noncands`, the rule
function handed to each σ, and the final `(2/π)·arcsin(√x)` of the UM
metrics (`scale`). Each one comes with the contract the code relies on. For
example, a rule ranks exactly the candidates it is given, and removal takes
exactly the named candidate out of the candidate list.

## Model

| member | source | states |
|---|---|---|
| Votekit.RankOf | notebooks/fairness_metric.py:111 | The rank map `{cand: idx for idx, group in enumerate(ranking) for cand in group}` looked up at c. The result is None exactly when no group holds c. Otherwise it is a group holding c, with no later group holding c, because later groups overwrite earlier ones. |
| Common.Without | IIA_scottish.py:91-92 | `[c for c in s if c != y]` is no longer than s and is s itself when y is absent. |
| Common.WithoutMembers | IIA_scottish.py:96 | The filtered list holds exactly the entries of s that differ from y. |
| Common.WithoutMultiset | IIA_scottish.py:96 | Filtering removes every copy of y and keeps every other entry with its multiplicity. |
| Common.WithoutDistinct | IIA_scottish.py:92 | Filtering a list without repeats leaves a list without repeats. |
| Common.RemoveFirst | IIA_scottish.py:63 | `list.remove(x)` shortens the list by one and removes exactly one copy of x. |
| Common.PosOf | IIA_scottish.py:82 | `{c: i for i, c in enumerate(r1)}[x]` is an index holding x with no later index holding x. |
| Common.PosOfDistinct | IIA_scottish.py:82 | In a list without repeats, the position map inverts indexing. |
| ScottishRules.StrikeOff | IIA_scottish.py:74 | Striking e off every ballot keeps the number of ballots, and ballot k becomes ballot k without e. |
| ScottishRules.SortByScore | IIA_scottish.py:40 | `sorted(..., key=(-score, id))` returns a permutation of the candidates, ordered by score descending and then id ascending. |
| ScottishRules.Insert | IIA_scottish.py:40 | One insertion step of that sort keeps the order and adds exactly one candidate. |
| ScottishRules.SameScoresSameOrder | IIA_scottish.py:40 | The sorted order depends only on the scores of the listed candidates. |
| ScottishRules.MaxLength | IIA_scottish.py:36 | `max(len(b) for b in ballots)` bounds every ballot's length and is reached by some ballot. |
| ScottishRules.PointsAbsent | IIA_scottish.py:37-39 | A candidate missing from a ballot gets no Borda points from it. |
| ScottishRules.PointsAt | IIA_scottish.py:38-39 | The candidate at position i of a ballot without repeats gets `max_rank - i` points. |
| ScottishRules.PointsNonNegative | IIA_scottish.py:36-39 | A ballot no longer than max_rank gives no candidate negative points. |
| ScottishRules.BordaScoreNonNegative | IIA_scottish.py:36-39 | With max_rank the longest ballot's length, every Borda score is at least 0. |
| ScottishRules.AddBallot | IIA_scottish.py:38-39 | One pass of the inner loop adds that ballot's points to every score and keeps the set of scored candidates. |
| ScottishRules.BordaRanking | IIA_scottish.py:34-40 | `borda_ranking` returns a permutation of the candidates, sorted by total Borda score and then by id. |
| ScottishRules.FirstListed | IIA_scottish.py:45-48 | The ballot's first entry that is a candidate, or None when it names no candidate. |
| ScottishRules.FirstListedAt | IIA_scottish.py:45-48 | When position i is the first candidate on the ballot, the `break` credits exactly that candidate. |
| ScottishRules.SumCountsStep | IIA_scottish.py:44-48 | One ballot adds at most one plurality vote, and none when it names no counted candidate. |
| ScottishRules.SumCountsNoBallots | IIA_scottish.py:43 | With no ballots every count is 0. |
| ScottishRules.PluralityCountsTotal | IIA_scottish.py:43-50 | The plurality counts of distinct candidates add up to at most the number of ballots. |
| ScottishRules.PluralityRanking | IIA_scottish.py:42-51 | `plurality_ranking` returns a permutation of the candidates, sorted by first-choice count and then by id. A candidate with no first choices counts 0. |
| ScottishRules.RankedUnique | IIA_scottish.py:51 | Sorting by the `(-count, id)` key leaves no choice: two rankings of the same candidates by the same scores are the same list. |
| ScottishRules.SameHead | IIA_scottish.py:51 | Two such rankings start with the same candidate. |
| ScottishRules.HeadFirst | IIA_scottish.py:51 | The head of a ranked list comes before every other entry. |
| ScottishRules.PluralityRankingIsRule | IIA_scottish.py:42-51 | Whatever `plurality_ranking` returns equals the rule function PluralityRule, so it can be passed to σ_IIA. |
| ScottishStv.Quota | IIA_scottish.py:54 | `floor(len(ballots)/(num_seats+1)) + 1` is the least integer q with `(num_seats+1)·q > voters`. A negative seat count below -1 gives q ≤ 1. |
| ScottishStv.Tally | IIA_scottish.py:58-59 | The first-place counter has an entry for exactly the active candidates. |
| ScottishStv.Sweep | IIA_scottish.py:60-63 | The election loop, with its iterator skip, moves candidates from active to elected and loses or creates none. |
| ScottishStv.SweepExtends | IIA_scottish.py:60-62 | The sweep only appends to the elected list. |
| ScottishStv.SweepElects | IIA_scottish.py:60-63 | Every candidate the sweep elects was active and reached the quota. |
| ScottishStv.SweepIntended | IIA_scottish.py:60-63 | The corrected sweep examines every active candidate. Everyone at the quota ends up elected, and anyone left active is below it or already elected. No candidate is lost or created. |
| ScottishStv.IntendedElectsHead | IIA_scottish.py:61-63 | In the corrected sweep, a candidate at the quota and not yet elected moves to the elected list. |
| ScottishStv.IntendedSweepAllAtQuota | IIA_scottish.py:60-63 | The corrected sweep elects 1, 2 and 3 when each has one first place and the quota is 1. |
| ScottishStv.IntendedSweepElectsAll | IIA_scottish.py:58-63 | On the three-voter, three-seat election, the corrected sweep fills all three seats. |
| ScottishStv.NotElected | IIA_scottish.py:65 | `still_active` holds exactly the active candidates that are not elected. |
| ScottishStv.Lowest | IIA_scottish.py:68-69 | The eliminated candidate has the fewest first places and the smallest id among those. |
| ScottishStv.Round | IIA_scottish.py:57-74 | A round that continues the loop shrinks the active list, so the `while` loop ends. |
| ScottishStv.RoundEliminatesLowest | IIA_scottish.py:64-74 | A continuing round appends one eliminated candidate. That candidate was active, is not elected, and is the weakest unelected active candidate. It is struck off every ballot. |
| ScottishStv.RoundPartitioned | IIA_scottish.py:55-74 | One round keeps active, elected and eliminated pairwise disjoint, without repeats, and drawn from the candidates. |
| ScottishStv.RunPartitioned | IIA_scottish.py:57-74 | The whole loop keeps that partition. |
| ScottishStv.Unclassified | IIA_scottish.py:75 | `remaining` keeps each candidate that is neither elected nor eliminated, with its multiplicity, and only those. |
| ScottishStv.RankingIsPermutation | IIA_scottish.py:75-76 | Elected, then eliminated, then remaining is a permutation of the candidates. |
| ScottishStv.StvRanking | IIA_scottish.py:53-76 | `stv_ranking` returns the loop's elected + eliminated + remaining lists, which together form a permutation of the candidates. |
| ScottishStv.SweepSkipsShiftedCandidate | IIA_scottish.py:54-76 | With ballots [1], [2], [3] and three seats, candidate 2 reaches the quota of 1 but is eliminated, and only 1 and 3 are elected. |
| ScottishStv.ExampleRound | IIA_scottish.py:57-74 | The first round of that election elects 1 and 3, eliminates 2, and empties the active list. |
| ScottishStv.ExampleFirstSweep | IIA_scottish.py:58-63 | The first sweep of that election leaves [2] active and elects [1, 3]. |
| ScottishStv.RoundEliminating | IIA_scottish.py:57-74 | A round whose sweep leaves seats unfilled and an unelected candidate e as the weakest removes e from active and ballots and appends it to the eliminated list. |
| ScottishStv.ExampleElimination | IIA_scottish.py:65-73 | After that sweep, 2 is the only unelected active candidate, so it is eliminated. |
| ScottishStv.ExampleTally | IIA_scottish.py:58-59 | Each of the three candidates has one first place. |
| ScottishStv.ExampleSweep | IIA_scottish.py:60-63 | With one first place each and quota 1, the sweep elects 1, skips 2 and elects 3. |
| ScottishStv.ExampleFirstStep | IIA_scottish.py:60-63 | Electing 1 shifts 2 into the examined slot, and the iterator moves past it. |
| ScottishStv.ExampleSecondStep | IIA_scottish.py:60-63 | The iterator then reaches 3 and elects it, leaving 2 active. |
| ScottishIIA.Positions | IIA_scottish.py:82-83 | `perm` lists, for each entry of r2, its position in r1. |
| ScottishIIA.RowBound | IIA_scottish.py:84 | One row of the inversion count is at most the number of later entries. |
| ScottishIIA.InversionsBound | IIA_scottish.py:84 | The inversion count is at most the number of pairs. |
| ScottishIIA.RowZero | IIA_scottish.py:84 | A row has no inversions exactly when no later entry is smaller. |
| ScottishIIA.InversionsZero | IIA_scottish.py:84 | The count is 0 exactly when `perm` is sorted ascending. |
| ScottishIIA.SwapDistance | IIA_scottish.py:81-84 | The swap distance is at most \|r2\|(\|r2\|-1)/2. It is 0 exactly when r2 lists its candidates in their r1 order. |
| ScottishIIA.SwapDistanceSelf | IIA_scottish.py:81-84 | A ranking without repeats is at distance 0 from itself. |
| ScottishIIA.SwapDistanceAtMost | IIA_scottish.py:81-84 | The distance is at most n(n-1)/2 for any n ≥ \|r2\|. |
| ScottishIIA.SameMembers | IIA_scottish.py:87 | Two lists with the same multiset have the same entries. |
| ScottishIIA.ReducedRanking | IIA_scottish.py:91-96 | The reduced election's ranking names only candidates that the struck-out full ranking also has, so `swap_distance` finds every one. |
| ScottishIIA.ReducedShorter | IIA_scottish.py:91-95 | Removing a present candidate leaves a ranking shorter than M. |
| ScottishIIA.Term | IIA_scottish.py:91-96 | One candidate's contribution is 0 when no candidate is left (the `continue`). Otherwise it is at most (M-1)(M-2)/2. |
| ScottishIIA.Terms | IIA_scottish.py:90-96 | The contributions, one per candidate, in loop order. |
| ScottishIIA.TotalStep | IIA_scottish.py:90-96 | Each pass adds that candidate's contribution to the total. |
| ScottishIIA.TotalBound | IIA_scottish.py:89-96 | After k > 0 passes, the total is at most k·(M-1)(M-2)/2. |
| ScottishIIA.TotalZero | IIA_scottish.py:89-96 | The total is 0 exactly when every removal left the order unchanged. |
| ScottishIIA.MaxPossibleSign | IIA_scottish.py:97 | `max_possible` is at least 0, and it is 0 exactly when M ≤ 2. |
| ScottishIIA.MaxPossibleCap | IIA_scottish.py:97-98 | The largest reachable total, M·(M-1)(M-2)/2, is within `M * max_possible`. |
| ScottishIIA.NormalisedBounds | IIA_scottish.py:97-98 | A reachable total normalises into [0, 1]. It gives 1 exactly when M ≤ 2 or the total is 0. |
| ScottishIIA.SigmaBounds | IIA_scottish.py:86-98 | σ_IIA lies in [0, 1]. It is 1 exactly when M ≤ 2 or no removal changed the order. |
| ScottishIIA.IndependentRuleScoresOne | IIA_scottish.py:86-98 | A rule whose reduced ranking is always the full ranking with the candidate struck out scores exactly 1. |
| ScottishIIA.SigmaIIA | IIA_scottish.py:86-98 | The loop computes σ_IIA, and the result lies in [0, 1]. |
| ScottishIIA.TotalSwaps | IIA_scottish.py:89-96 | The loop adds up exactly the per-candidate contributions, in candidate order. |
| ScottishIIA.AddRemovalSwaps | IIA_scottish.py:90-96 | One pass adds exactly that candidate's swap distance, or nothing on the `continue` branch. |
| ScottishIIA.PluralityIsRankingRule | IIA_scottish.py:42-51 | `plurality_ranking` ranks exactly the candidates it is given, so it meets the contract of `rule_fn`. |
| ScottishIIA.PluralitySigmaBounds | IIA_scottish.py:86-98 | σ_IIA of the plurality rule lies in [0, 1]. |
| FairnessMetric.RowStep | fairness_metric.py:27-34 | One inner-loop pass adds 1 to the count exactly when the pair is discordant. |
| FairnessMetric.RowGrows | fairness_metric.py:32-34 | A discordant pair joins the disagreement set as a new element. |
| FairnessMetric.RowKeeps | fairness_metric.py:32 | A concordant pair leaves the set unchanged. |
| FairnessMetric.RowsStep | fairness_metric.py:26-34 | One outer-loop pass adds that row's disagreements. |
| FairnessMetric.KendallTauDistance | fairness_metric.py:5-36 | A length mismatch is the assertion error. Otherwise the result is the number of index pairs i < j whose order the two rankings disagree on. |
| FairnessMetric.RowDisagreements | fairness_metric.py:27-34 | The inner loop for one i counts exactly the pairs (i, j), j > i, that the rankings order differently. |
| FairnessMetric.KendallTauSelf | fairness_metric.py:5-36 | A ranking disagrees with itself on no pair. |
| FairnessMetric.KendallTauBound | fairness_metric.py:26-34 | The distance is at most n(n-1)/2. |
| FairnessMetric.SameCandidatesCover | fairness_metric.py:16-23 | Two permutations of each other have the same length, and each covers the other's candidates. |
| FairnessMetric.MirrorDisagrees | fairness_metric.py:26-34 | A pair the rankings disagree on, seen from the second ranking, is also a disagreement. |
| FairnessMetric.MirrorOrdered | fairness_metric.py:32 | A discordant pair appears in the opposite order in the second ranking. |
| FairnessMetric.MirrorDiscordant | fairness_metric.py:32 | That reversed pair is discordant when seen from the second ranking. |
| FairnessMetric.MirrorInjective | fairness_metric.py:22-23 | Distinct pairs map to distinct pairs under the position maps. |
| FairnessMetric.DisagreementsInject | fairness_metric.py:26-34 | The disagreements of (l1, l2) are at most those of (l2, l1). |
| FairnessMetric.KendallTauSymmetric | fairness_metric.py:5-36 | The distance is symmetric for two orderings of the same candidates. |
| FairnessMetric.ReducedRankings | fairness_metric.py:57-61 | The reduced profile's ranking and the struck-out original ranking are permutations of each other. Both have at most M-1 entries, so the distance assertion holds. |
| FairnessMetric.Distances | fairness_metric.py:55-64 | One distance per candidate, in loop order. |
| FairnessMetric.DistanceBound | fairness_metric.py:57-64 | Each distance is at most (M-1)(M-2)/2. |
| FairnessMetric.IIATotalBound | fairness_metric.py:55-66 | After k > 0 passes, the total is at most k·(M-1)(M-2)/2. |
| FairnessMetric.IIATotalRange | fairness_metric.py:55-66 | The final total is at most M(M-1)(M-2)/2. It is 0 exactly when every distance is 0. |
| FairnessMetric.MaxTotal | fairness_metric.py:69 | M·(M-1)(M-2)/2 computed on integers equals `(M*(M-1)*(M-2))/2` computed on reals. |
| FairnessMetric.RootNormalisedRange | fairness_metric.py:69 | As written, the score lies in [3/4, 1]. It is 1 exactly when the total is 0, and it is 3/4 at the largest total. |
| FairnessMetric.TotalDistance | fairness_metric.py:51-66 | The loop's sum is the total of all per-candidate distances. |
| FairnessMetric.RemovalDistance | fairness_metric.py:56-64 | One pass computes that candidate's distance. |
| FairnessMetric.AddRemovalDistance | fairness_metric.py:56-66 | One pass extends the running total by exactly that candidate's distance. |
| FairnessMetric.SigmaIIA | fairness_metric.py:40-71 | `sigma_IIA` returns the written normalisation of the total. That value lies in [3/4, 1], and it is 1 exactly when every distance is 0. |
| NotebookIIA.NormalisedRange | notebooks/fairness_metric.py:69 | The notebook's normalisation lies in [0, 1]. It is 1 exactly when the total is 0, and 0 at the largest total. |
| NotebookIIA.SigmaIIA | notebooks/fairness_metric.py:40-71 | `sigma_IIA` returns the normalised total, in [0, 1]. It is 1 exactly when every distance is 0. |
| NotebookIIA.SigmaIIASTV | notebooks/fairness_metric.py:156-186 | The same value as SigmaIIA, for the rule with the seat count fixed, in [0, 1]. |
| NotebookIIA.WinnerTerm | notebooks/fairness_metric.py:294-309 | Each overlap term lies in [0, 1]. |
| NotebookIIA.OverlapSum | notebooks/fairness_metric.py:293-309 | The terms of the first k candidates, in loop order, add up to a value in [0, k]. |
| NotebookIIA.RemovalTerm | notebooks/fairness_metric.py:294-309 | One pass computes the overlap term of that candidate. |
| NotebookIIA.TotalOverlap | notebooks/fairness_metric.py:291-309 | The loop sums the terms in candidate order. |
| NotebookIIA.AddRemovalTerm | notebooks/fairness_metric.py:294-309 | One pass extends the running sum by exactly the next candidate's term. |
| NotebookIIA.SigmaIIAWinner | notebooks/fairness_metric.py:274-311 | `sigma_IIA_winner` is the mean overlap term, and it lies in [0, 1]. |
| NotebookIIA.SoleWinnerRemovedScoresZero | notebooks/fairness_metric.py:294-309 | Removing the sole winner contributes 0 when the rule elects only present candidates. |
| NotebookUM.BallotCredit | notebooks/fairness_metric.py:108-127 | One ballot's branches credit the strictly better-ranked side, or the lone ranked side, or half to each when neither is ranked. A shared group credits nothing. |
| NotebookUM.TallyPair | notebooks/fairness_metric.py:103-127 | The ballot loop computes (A_over_B, B_over_A), skipping empty ballots. |
| NotebookUM.TallyOver | notebooks/fairness_metric.py:355-373 | The winner-set ballot loop computes A_over_B, the first half of the same tally. |
| NotebookUM.TallyStep | notebooks/fairness_metric.py:107-127 | Each ballot adds its own credit. |
| NotebookUM.CreditSplit | notebooks/fairness_metric.py:108-127 | A ballot with weight ≥ 0 credits non-negative amounts. They add up to its weight, except for an empty ballot or a tie between the two, which credit 0. |
| NotebookUM.TallySwap | notebooks/fairness_metric.py:103-127 | Swapping A and B swaps the two counts. |
| NotebookUM.TallyBound | notebooks/fairness_metric.py:87-127 | With weights ≥ 0, both counts are ≥ 0 and their sum is at most the total weight N. |
| NotebookUM.UnanimousTally | notebooks/fairness_metric.py:103-127 | When every ballot prefers A, A_over_B is N and B_over_A is 0. |
| NotebookUM.RatioRange | notebooks/fairness_metric.py:130-141 | A ratio lies in [0, 1]. It is 1 exactly when the outcome places higher the side with the larger share. |
| NotebookUM.ComparePair | notebooks/fairness_metric.py:100-141 | One pair's pass decides whether the pair is skipped, and otherwise computes its ratio. |
| NotebookUM.PairCounted | notebooks/fairness_metric.py:139-144 | Taking the minimum keeps `min_ratio` at most every ratio seen so far. |
| NotebookUM.PairSkipped | notebooks/fairness_metric.py:134-135 | A skipped pair leaves that bound intact. |
| NotebookUM.RowStart | notebooks/fairness_metric.py:99 | The inner loop starts at j = i + 1. |
| NotebookUM.RowEnd | notebooks/fairness_metric.py:98-99 | Ending a row is starting the next. |
| NotebookUM.ScanRowStart | notebooks/fairness_metric.py:99 | The scan state carries over to j = i + 1. |
| NotebookUM.ScanRowEnd | notebooks/fairness_metric.py:98-99 | The scan state carries over to the next row. |
| NotebookUM.ScanSkip | notebooks/fairness_metric.py:134-135 | A skipped pair leaves the scan state unchanged. |
| NotebookUM.ScanCount | notebooks/fairness_metric.py:137-146 | A counted pair updates `min_ratio` to the minimum and `min_majority` to `min_ratio/(min_ratio+1)`. |
| NotebookUM.ScanDone | notebooks/fairness_metric.py:95-146 | After all pairs, `min_ratio` is the minimum of 1 and every informative pair's ratio, and `min_majority` matches it. |
| NotebookUM.ScanRow | notebooks/fairness_metric.py:99-146 | The inner loop brings the scan to the end of row i. |
| NotebookUM.MinRatioScan | notebooks/fairness_metric.py:95-146 | The pair loops compute the minimum ratio, in [0, 1], and the matching `min_majority`. |
| NotebookUM.MinRatioUnique | notebooks/fairness_metric.py:95-144 | That minimum is unique. |
| NotebookUM.MinMajorityRange | notebooks/fairness_metric.py:146 | `min_majority` lies in [0, 1/2]. It is 1/2 exactly when the minimum ratio is 1. |
| NotebookUM.AgreeingRuleScoresTop | notebooks/fairness_metric.py:95-148 | A rule that always places higher the side with the larger share gets min ratio 1, so the arcsine argument is 1. |
| NotebookUM.SigmaUM | notebooks/fairness_metric.py:75-148 | `sigma_UM` is `scale(2·min_majority)`, where `min_majority` comes from the true minimum ratio in [0, 1]. |
| NotebookUM.SigmaUFSTV | notebooks/fairness_metric.py:189-262 | The same value for the rule with the seat count fixed. |
| NotebookUM.WinnerStart | notebooks/fairness_metric.py:350-351 | Starting a winner's inner loop keeps the scan state. |
| NotebookUM.WinnerSkip | notebooks/fairness_metric.py:352-353 | A winner or A itself is skipped with the state intact. |
| NotebookUM.WinnerCount | notebooks/fairness_metric.py:355-376 | A loser updates `min_majority` to the minimum with A's support over it. |
| NotebookUM.WinnerEnd | notebooks/fairness_metric.py:350-376 | A finished winner joins the done set. |
| NotebookUM.WinnerDone | notebooks/fairness_metric.py:348-376 | After every winner, the scan state is the minimum support. |
| NotebookUM.ScanLosers | notebooks/fairness_metric.py:351-376 | The inner loop handles one winner against every loser. |
| NotebookUM.MinSupportScan | notebooks/fairness_metric.py:348-376 | The loops compute the minimum of 1 and every winner's support over every loser, in whatever order the set is walked. |
| NotebookUM.SupportRange | notebooks/fairness_metric.py:375 | A support lies in [0, 1]. |
| NotebookUM.MinSupportUnique | notebooks/fairness_metric.py:348-376 | That minimum is unique, so the set's iteration order does not matter. |
| NotebookUM.MinSupportRange | notebooks/fairness_metric.py:348-376 | That minimum lies in [0, 1]. |
| NotebookUM.NoContestScoresOne | notebooks/fairness_metric.py:348-380 | With no winner-loser pair, `min_majority` stays 1. |
| NotebookUM.MajorityWinnersScoreOne | notebooks/fairness_metric.py:376-380 | The score is 1 exactly when every winner has support ≥ 1/2 over every loser. |
| NotebookUM.SigmaUMWinnerSet | notebooks/fairness_metric.py:320-380 | `sigma_UM_winner_set` is 1 when the minimum support is ≥ 1/2, and `scale(2·m)` otherwise. |
| HelperFunctions.AnyMember | helper_functions.py:7 | `next(iter(fs))` is some member of a non-empty group. |
| HelperFunctions.FlattenBallotRanking | helper_functions.py:2-7 | The flattened list has one entry per group, taken from that group. |
| HelperFunctions.SingletonGroupsFlatten | helper_functions.py:2-7 | When every group holds one candidate, the result is exactly those candidates in order. |
| HelperFunctions.FlattenIgnoresWeight | helper_functions.py:7 | Only the ranking is read. |
| CleanNyData.FirstOvervote | other_files/clean_ny_data.py:46-48 | The first group that equals `{"overvote"}`, or the length of the ranking. |
| CleanNyData.TruncatePastOvervote | other_files/clean_ny_data.py:34-51 | The result is the prefix before the first overvote group, and it contains no such group. The weight is kept, and a ranking without an overvote group is returned unchanged. |
| CleanNyData.CutAtFirst | other_files/clean_ny_data.py:46-49 | Where the loop stops is the first overvote group. |
| CleanNyData.TiedOvervoteKept | other_files/clean_ny_data.py:47 | A tied group holding "overvote" and a candidate does not cut the ballot. |
| VotingRules.ApprovalVector | voting_rules.py:21 | `[1]*k + [0]*(n-k)` has length n, with 1 in the first k slots and 0 after. |
| VotingRules.ApprovalVectorSum | voting_rules.py:21 | A k-approval vector awards k points per ballot. |
| VotingRules.PrefixSum | voting_rules.py:21 | The first n entries of that vector sum to min(n, k). |
| VotingRules.BuildVotingRule | voting_rules.py:8-53 | An unknown name is an error. k-approval with fewer than k candidates is an error. Borda and the approval rules build Borda with the first-place tiebreak, the approval rules with their score vector. Plurality and STV use the Borda tiebreak. |
| VotingRules.PluralityAndStv | voting_rules.py:38-50 | "plurality" and "stv" build the Plurality and STV classes with the Borda tiebreak and no score vector. |

## Left out

- File reading, CSV parsing (`parse_election_csv`), plotting, the DataFrame
  pipelines and the `__main__` blocks. These are I/O and are not part of this
  model.
- votekit itself is not part of this model. Its election classes,
  `remove_and_condense`, `remove_noncands` and `get_elected` are function
  parameters. Their behaviour is stated as requirements: a rule ranks exactly
  the profile's candidates, and removal drops exactly the named candidate.
- `(2/np.pi)*np.arcsin(np.sqrt(x))` is the parameter `scale`. Floating point
  and the arcsine are not modelled. Weights, shares and scores are exact
  reals, and divisions are exact.
- ScottishRules.BordaRanking: requires a non-empty ballot list. With no
  ballots, `max(len(b) for b in ballots)` at IIA_scottish.py:36 raises
  ValueError; the model excludes that input.
- ScottishRules.BordaRanking: requires every ballot entry to be a candidate
  (`OnlyCandidates`). An entry outside `candidates` makes `scores[c] += ...`
  at IIA_scottish.py:38-39 raise KeyError; the model excludes that input.
- ScottishRules.BordaRanking: requires a repeat-free candidate list, as
  `sorted(set(...))` at IIA_scottish.py:28 builds it. A list with repeats is
  not modelled.
- ScottishStv.Quota: requires `seats != -1`. With `num_seats == -1`,
  `len(ballots) / (num_seats + 1)` at IIA_scottish.py:54 raises
  ZeroDivisionError; the model excludes that input.
- ScottishStv.StvRanking: requires `numSeats != -1`, for the same
  ZeroDivisionError at IIA_scottish.py:54, and a repeat-free candidate list as
  IIA_scottish.py:28 builds it. Both other inputs are excluded.
- ScottishIIA.SigmaIIA: requires a non-empty candidate list. With M = 0,
  `max_possible` is 1 and `total / (M * max_possible)` at IIA_scottish.py:98
  raises ZeroDivisionError; the model excludes that input.
- FairnessMetric.SigmaIIA: requires at least three candidates. With M <= 2 the
  divisor `M * (M-1) * (M-2)` at fairness_metric.py:69 is 0 and the source
  raises ZeroDivisionError; the model excludes that input.
- NotebookIIA.SigmaIIA: requires at least three candidates. With M <= 2 the
  divisor at notebooks/fairness_metric.py:69 is 0 and the source raises
  ZeroDivisionError; the model excludes that input.
- NotebookIIA.SigmaIIASTV: requires at least three candidates, for the same
  ZeroDivisionError in the normalisation at notebooks/fairness_metric.py:184;
  the model excludes that input.
- NotebookIIA.SigmaIIAWinner: requires a non-empty candidate list and a
  non-empty winner set. Otherwise `/ M` (notebooks/fairness_metric.py:309) or
  `/ len(profile.candidates)` (:311) raises ZeroDivisionError; the model
  excludes those inputs.
- NotebookUM.SigmaUM: requires a non-zero total weight. With N = 0,
  `SA = A_over_B / N` at notebooks/fairness_metric.py:130 raises
  ZeroDivisionError; the model excludes that input.
- NotebookUM.SigmaUM: requires the outcome ranking to hold every candidate of
  an informative pair. Otherwise `rank_position[A]` at
  notebooks/fairness_metric.py:138 raises KeyError; the model excludes that
  input.
- NotebookUM.SigmaUM: requires non-negative ballot weights. The source does
  not check this; with negative weights the ratios can leave [0, 1], and that
  case is not modelled.
- NotebookUM.SigmaUFSTV: requires a non-zero total weight, an informative pair
  and an outcome ranking that holds the compared candidates, for the same
  crashes at notebooks/fairness_metric.py:244-262 as NotebookUM.SigmaUM. It
  also requires non-negative weights. The model excludes those inputs.
- FairnessMetric.KendallTauDistance: when the lengths agree, requires every
  entry of list1 to occur in list2 (`Covers`). Otherwise `pos2[cand_i]` at
  fairness_metric.py:32 raises KeyError; the model excludes that input.
- HelperFunctions.FlattenBallotRanking: requires every group to be non-empty.
  `next(iter(frozenset()))` at helper_functions.py:7 raises StopIteration;
  the model excludes that input.
- NotebookIIA.SigmaIIA: the notebook's line 57 calls
  `remove_and_condense([candidate], profile)`, with the arguments in the
  opposite order to line 172. The model passes the profile first at both
  sites.
- FairnessMetric.KendallTauDistance: the notebook's `kendall_tau_distance` is
  the same code, so it is modelled once.
- FairnessMetric.KendallTauDistance: candidate lists and rankings are assumed
  to have no repeats where symmetry and permutations are stated. With
  repeats, the position maps keep the last index, which PosOf models.
- NotebookUM.SigmaUM: requires some informative pair. Otherwise the source
  reads `min_majority` before any assignment and raises UnboundLocalError;
  the model excludes that input.
- NotebookUM.SigmaUMWinnerSet: requires a non-zero total weight whenever some
  winner faces a loser. Otherwise `support = A_over_B / N` at
  notebooks/fairness_metric.py:375 raises ZeroDivisionError; the model
  excludes that input.
- NotebookUM.SigmaUMWinnerSet: the set is walked in an unspecified order. The
  model proves the result does not depend on it.
- HelperFunctions.FlattenBallotRanking: for a tied group, the member
  `next(iter(fs))` picks depends on hash order. The model fixes an arbitrary
  member; it is exact only for singleton groups.
- NotebookIIA.SigmaIIAWinner: `get_elected()` flattening is folded into
  `elect`. The `tiebreak='random'` call is a parameter, so randomness is not
  modelled.
- VotingRules.BuildVotingRule: the returned factory closure is modelled by
  the configuration it passes to the election class.
- ScottishStv.StvRanking: keeps the sweep as written, because that is what the
  program computes. The corrected sweep is a separate definition.
- ScottishIIA.SigmaIIA: BordaRanking and StvRanking are methods and cannot be
  passed as `rule`. Their permutation ensures are what `IsRankingRule` asks of
  a rule, but σ_IIA bounds are stated only for plurality, whose ranking is
  also given as the function PluralityRule.
- Some loop bodies became helper methods, for example AddBallot, BallotCredit,
  RemovalDistance, AddRemovalDistance, RowDisagreements, AddRemovalTerm,
  AddRemovalSwaps and ScanLosers. Their contracts are the loop-body step.

## Findings

| source | as written | input that shows it | evidently intended | confidence | as-written member | corrected member |
|---|---|---|---|---|---|---|
| fairness_metric.py:69 | `1 - total_distance / (M * (M-1)* (M-2)) / 2` halves the quotient instead of the denominator, so the score never drops below 3/4 | M = 3 and the largest total, 3, give 1 - 3/6/2 = 0.75 instead of 0 | `1 - total_distance / ((M*(M-1)*(M-2)) / 2)`, as in notebooks/fairness_metric.py:69, spanning [0, 1] | not executed | FairnessMetric.RootNormalisedRange | NotebookIIA.NormalisedRange |
| IIA_scottish.py:60-63 | `for c in active:` removes c from `active` while iterating over it, so the next candidate slides into the examined slot and is skipped | ballots [1], [2], [3] with 3 seats: quota 1, all three reach it, yet 2 is eliminated and only 1 and 3 are elected | every active candidate at the quota is elected in the round | not executed | ScottishStv.SweepSkipsShiftedCandidate | ScottishStv.SweepIntended |

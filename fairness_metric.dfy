/** The Kendall-tau distance between rankings and the σ_IIA driver of
    fairness_metric.py. The voting rule and votekit's `remove_noncands` are
    parameters; their contract is that a ranking lists exactly the profile's
    candidates and that removing a candidate takes exactly that candidate out
    of the candidate list. */
module FairnessMetric {
  import opened Common
  import opened Votekit

  /** Every entry of list1 has a position in list2 (`pos2[cand]` succeeds). */
  predicate Covers<T(==)>(list1: seq<T>, list2: seq<T>) {
    forall c :: c in list1 ==> c in list2
  }

  /** The test of the inner loop for list1[i] and list1[j]: the two lists
      order them in opposite ways. Positions come from dict comprehensions,
      so a repeated entry is placed at its last occurrence. */
  predicate Discordant<T(==)>(list1: seq<T>, list2: seq<T>, i: int, j: int)
    requires 0 <= i < |list1| && 0 <= j < |list1| && Covers(list1, list2)
  {
    (PosOf(list1, list1[i]) - PosOf(list1, list1[j])) * (PosOf(list2, list1[i]) - PosOf(list2, list1[j])) < 0
  }

  /** Discordant pairs (a, b), a < b, whose first index is below `row`. */
  ghost function DoneRows<T>(list1: seq<T>, list2: seq<T>, row: int): set<(int, int)>
    requires Covers(list1, list2)
  {
    set a, b | 0 <= a < row && a < b < |list1| && Discordant(list1, list2, a, b) :: (a, b)
  }

  /** Discordant pairs (a, b) with a < b < upto, for one first index a. */
  ghost function RowPart<T>(list1: seq<T>, list2: seq<T>, a: int, upto: int): set<(int, int)>
    requires Covers(list1, list2) && 0 <= a < |list1|
  {
    set b | a < b < upto && b < |list1| && Discordant(list1, list2, a, b) :: (a, b)
  }

  /** All discordant index pairs: what `kendall_tau_distance` counts. */
  ghost function Disagreements<T>(list1: seq<T>, list2: seq<T>): set<(int, int)>
    requires Covers(list1, list2)
  {
    DoneRows(list1, list2, |list1|)
  }

  lemma RowStep<T>(list1: seq<T>, list2: seq<T>, a: int, j: int)
    requires Covers(list1, list2) && 0 <= a < j < |list1|
    ensures |RowPart(list1, list2, a, j + 1)| ==
            |RowPart(list1, list2, a, j)| + if Discordant(list1, list2, a, j) then 1 else 0
  {
    if Discordant(list1, list2, a, j) {
      RowGrows(list1, list2, a, j);
    } else {
      RowKeeps(list1, list2, a, j);
    }
  }

  lemma RowGrows<T>(list1: seq<T>, list2: seq<T>, a: int, j: int)
    requires Covers(list1, list2) && 0 <= a < j < |list1| && Discordant(list1, list2, a, j)
    ensures RowPart(list1, list2, a, j + 1) == RowPart(list1, list2, a, j) + {(a, j)}
    ensures (a, j) !in RowPart(list1, list2, a, j)
  {
  }

  lemma RowKeeps<T>(list1: seq<T>, list2: seq<T>, a: int, j: int)
    requires Covers(list1, list2) && 0 <= a < j < |list1| && !Discordant(list1, list2, a, j)
    ensures RowPart(list1, list2, a, j + 1) == RowPart(list1, list2, a, j)
  {
  }

  lemma RowsStep<T>(list1: seq<T>, list2: seq<T>, a: int)
    requires Covers(list1, list2) && 0 <= a < |list1|
    ensures |DoneRows(list1, list2, a + 1)| == |DoneRows(list1, list2, a)| + |RowPart(list1, list2, a, |list1|)|
  {
    var done, row := DoneRows(list1, list2, a), RowPart(list1, list2, a, |list1|);
    assert DoneRows(list1, list2, a + 1) == done + row;
    assert done * row == {};
  }

  /** `kendall_tau_distance(list1, list2)`: the number of index pairs of list1
      that the two lists order differently. Lists of different lengths fail
      the size assertion. */
  method KendallTauDistance<T(==)>(list1: seq<T>, list2: seq<T>) returns (r: Result<nat>)
    requires |list1| == |list2| ==> Covers(list1, list2)
    ensures r.Err? <==> |list1| != |list2|
    ensures r.Err? ==> r.error == SizeMismatch
    ensures r.Ok? ==> r.value == |Disagreements(list1, list2)|
  {
    if |list1| != |list2| {
      return Err(SizeMismatch);
    }
    var distance := 0;
    var n := |list1|;
    for i := 0 to n
      invariant distance == |DoneRows(list1, list2, i)|
    {
      var row := RowDisagreements(list1, list2, i);
      RowsStep(list1, list2, i);
      distance := distance + row;
    }
    return Ok(distance);
  }

  /** The inner loop of `kendall_tau_distance` for one i: the pairs (i, j),
      j > i, that the two lists order differently. */
  method RowDisagreements<T(==)>(list1: seq<T>, list2: seq<T>, i: nat) returns (count: nat)
    requires Covers(list1, list2) && i < |list1|
    ensures count == |RowPart(list1, list2, i, |list1|)|
  {
    count := 0;
    assert RowPart(list1, list2, i, i + 1) == {};
    for j := i + 1 to |list1|
      invariant count == |RowPart(list1, list2, i, j)|
    {
      var candI, candJ := list1[i], list1[j];
      if (PosOf(list1, candI) - PosOf(list1, candJ)) * (PosOf(list2, candI) - PosOf(list2, candJ)) < 0 {
        count := count + 1;
      }
      RowStep(list1, list2, i, j);
    }
  }

  /** A ranking is at distance 0 from itself. */
  lemma KendallTauSelf<T>(list: seq<T>)
    ensures Disagreements(list, list) == {}
  {
    forall a, b | 0 <= a < b < |list|
      ensures !Discordant(list, list, a, b)
    {
      var d := PosOf(list, list[a]) - PosOf(list, list[b]);
      assert d * d >= 0;
    }
  }

  /** The distance never exceeds the number of pairs, n(n-1)/2. */
  lemma KendallTauBound<T>(list1: seq<T>, list2: seq<T>)
    requires Covers(list1, list2)
    ensures |Disagreements(list1, list2)| <= Pairs(|list1|)
  {
    assert Disagreements(list1, list2) <= AllPairs(|list1|);
    PairSetBound(Disagreements(list1, list2), |list1|);
    PairsFormula(|list1|);
  }

  /** When one factor is negative, a negative product means the other factor
      is positive. */
  lemma NegativeProduct(x: int, y: int)
    requires x < 0
    ensures x * y < 0 ==> y > 0
  {
    if y <= 0 {
      assert x * y == (-x) * (-y);
    }
  }

  /** Both rankings list the same candidates, each once. */
  predicate SameCandidates<T(==)>(list1: seq<T>, list2: seq<T>) {
    Distinct(list1) && Distinct(list2) && multiset(list1) == multiset(list2)
  }

  lemma SameCandidatesCover<T>(list1: seq<T>, list2: seq<T>)
    requires SameCandidates(list1, list2)
    ensures Covers(list1, list2) && Covers(list2, list1) && |list1| == |list2|
  {
    forall c | c in list1 ensures c in list2 { assert c in multiset(list1); }
    forall c | c in list2 ensures c in list1 { assert c in multiset(list2); }
    assert |list1| == |multiset(list1)| == |multiset(list2)| == |list2|;
  }

  /** The pair of places in list2 of the candidates at i < j of list1. */
  ghost function Mirror<T>(list1: seq<T>, list2: seq<T>, p: (int, int)): (int, int)
    requires Covers(list1, list2)
  {
    if 0 <= p.0 < |list1| && 0 <= p.1 < |list1| then (PosOf(list2, list1[p.1]), PosOf(list2, list1[p.0])) else (0, 0)
  }

  lemma MirrorDisagrees<T>(list1: seq<T>, list2: seq<T>, i: int, j: int)
    requires SameCandidates(list1, list2)
    requires Covers(list1, list2) && Covers(list2, list1)
    requires (i, j) in Disagreements(list1, list2)
    ensures Mirror(list1, list2, (i, j)) in Disagreements(list2, list1)
  {
    SameCandidatesCover(list1, list2);
    assert 0 <= i < j < |list1| && Discordant(list1, list2, i, j);
    var x, y := list1[i], list1[j];
    var a, b := PosOf(list2, y), PosOf(list2, x);
    MirrorOrdered(list1, list2, i, j);
    MirrorDiscordant(list1, list2, i, j);
    assert Mirror(list1, list2, (i, j)) == (a, b);
  }

  /** The candidates of a disagreement (i, j) appear in list2 in the
      opposite order. */
  lemma MirrorOrdered<T>(list1: seq<T>, list2: seq<T>, i: int, j: int)
    requires Distinct(list1) && Covers(list1, list2)
    requires 0 <= i < j < |list1| && Discordant(list1, list2, i, j)
    ensures PosOf(list2, list1[j]) < PosOf(list2, list1[i])
  {
    PosOfDistinct(list1, i);
    PosOfDistinct(list1, j);
    NegativeProduct(i - j, PosOf(list2, list1[i]) - PosOf(list2, list1[j]));
  }

  /** The mirrored pair is discordant when the lists are read the other way
      round. */
  lemma MirrorDiscordant<T>(list1: seq<T>, list2: seq<T>, i: int, j: int)
    requires Distinct(list1) && Distinct(list2) && Covers(list1, list2) && Covers(list2, list1)
    requires 0 <= i < j < |list1|
    requires PosOf(list2, list1[j]) < PosOf(list2, list1[i])
    ensures Discordant(list2, list1, PosOf(list2, list1[j]), PosOf(list2, list1[i]))
  {
    var a: int, b: int := PosOf(list2, list1[j]), PosOf(list2, list1[i]);
    PosOfDistinct(list1, i);
    PosOfDistinct(list1, j);
    PosOfDistinct(list2, a);
    PosOfDistinct(list2, b);
    assert list2[a] == list1[j] && list2[b] == list1[i];
    OppositeSigns(a - b, j - i);
  }

  lemma OppositeSigns(x: int, y: int)
    requires x < 0 < y
    ensures x * y < 0
  {
  }

  lemma MirrorInjective<T>(list1: seq<T>, list2: seq<T>, p: (int, int), q: (int, int))
    requires Distinct(list1) && Covers(list1, list2)
    requires 0 <= p.0 < |list1| && 0 <= p.1 < |list1| && 0 <= q.0 < |list1| && 0 <= q.1 < |list1|
    requires Mirror(list1, list2, p) == Mirror(list1, list2, q)
    ensures p == q
  {
    assert list2[PosOf(list2, list1[p.1])] == list1[p.1] && list2[PosOf(list2, list1[q.1])] == list1[q.1];
    assert list2[PosOf(list2, list1[p.0])] == list1[p.0] && list2[PosOf(list2, list1[q.0])] == list1[q.0];
  }

  /** Each disagreement of (list1, list2) names a distinct disagreement of
      (list2, list1): the same two candidates, at their places in list2. */
  lemma DisagreementsInject<T>(list1: seq<T>, list2: seq<T>)
    requires SameCandidates(list1, list2)
    ensures Covers(list1, list2) && Covers(list2, list1)
    ensures |Disagreements(list1, list2)| <= |Disagreements(list2, list1)|
  {
    SameCandidatesCover(list1, list2);
    var f := (p: (int, int)) => Mirror(list1, list2, p);
    var d12, d21 := Disagreements(list1, list2), Disagreements(list2, list1);
    forall p | p in d12 ensures f(p) in d21 {
      MirrorDisagrees(list1, list2, p.0, p.1);
    }
    forall p, q | p in d12 && q in d12 && f(p) == f(q) ensures p == q {
      MirrorInjective(list1, list2, p, q);
    }
    InjectionCard(d12, d21, f);
  }

  /** For two rankings of the same candidates, each without repeats, the
      distance does not depend on the argument order. */
  lemma KendallTauSymmetric<T>(list1: seq<T>, list2: seq<T>)
    requires SameCandidates(list1, list2)
    ensures Covers(list1, list2) && Covers(list2, list1)
    ensures |Disagreements(list1, list2)| == |Disagreements(list2, list1)|
  {
    DisagreementsInject(list1, list2);
    DisagreementsInject(list2, list1);
  }

  /** The contract of `voting_rule`: its ranking lists the profile's candidates. */
  ghost predicate RanksCandidates(rule: Profile -> seq<string>) {
    forall p :: multiset(rule(p)) == multiset(p.candidates)
  }

  /** The contract of the removal function called with one candidate: the
      reduced profile has every candidate but that one. */
  ghost predicate RemovesCandidate(remove: (Profile, seq<string>) -> Profile) {
    forall p, c :: multiset(remove(p, [c]).candidates) == multiset(p.candidates)[c := 0]
  }

  /** The rule's ranking of the reduced profile and the original ranking with
      c filtered out list the same candidates, so the distance is defined and
      the size assertion holds; there are at most M - 1 of them. */
  lemma ReducedRankings(rule: Profile -> seq<string>, remove: (Profile, seq<string>) -> Profile,
                        profile: Profile, c: string)
    requires RanksCandidates(rule) && RemovesCandidate(remove)
    ensures var reduced, filtered := rule(remove(profile, [c])), Without(rule(profile), c);
            && multiset(reduced) == multiset(filtered) && Covers(reduced, filtered) && |reduced| == |filtered|
            && (c in profile.candidates ==> |reduced| <= |profile.candidates| - 1)
  {
    var full := rule(profile);
    var reduced, filtered := rule(remove(profile, [c])), Without(full, c);
    WithoutMultiset(full, c);
    assert multiset(reduced) == multiset(filtered);
    forall x | x in reduced ensures x in filtered { assert x in multiset(reduced); }
    assert |reduced| == |multiset(reduced)| == |multiset(filtered)| == |filtered|;
    if c in profile.candidates {
      assert c in multiset(full);
      WithoutShorter(full, c);
      assert |full| == |multiset(full)| == |profile.candidates|;
    }
  }

  /** `kendall_tau_distance(ranking_without_candidate, original_ranking_without_candidate)`. */
  ghost function Distance(rule: Profile -> seq<string>, remove: (Profile, seq<string>) -> Profile,
                          profile: Profile, c: string): nat
    requires RanksCandidates(rule) && RemovesCandidate(remove)
  {
    ReducedRankings(rule, remove, profile, c);
    |Disagreements(rule(remove(profile, [c])), Without(rule(profile), c))|
  }

  /** The distance for each candidate of the profile, in loop order. */
  ghost function Distances(rule: Profile -> seq<string>, remove: (Profile, seq<string>) -> Profile,
                           profile: Profile): (ds: seq<nat>)
    requires RanksCandidates(rule) && RemovesCandidate(remove)
    ensures |ds| == |profile.candidates|
  {
    seq(|profile.candidates|, i requires 0 <= i < |profile.candidates| =>
      Distance(rule, remove, profile, profile.candidates[i]))
  }

  /** `total_distance` after the first k candidates. */
  ghost function IIATotal(rule: Profile -> seq<string>, remove: (Profile, seq<string>) -> Profile,
                          profile: Profile, k: nat): nat
    requires RanksCandidates(rule) && RemovesCandidate(remove)
    requires k <= |profile.candidates|
  {
    SumTo(Distances(rule, remove, profile), k)
  }

  /** Each removal contributes at most (M-1)(M-2)/2 disagreements. */
  lemma IIATotalBound(rule: Profile -> seq<string>, remove: (Profile, seq<string>) -> Profile,
                      profile: Profile, k: nat)
    requires RanksCandidates(rule) && RemovesCandidate(remove)
    requires k <= |profile.candidates|
    requires 0 < k
    ensures IIATotal(rule, remove, profile, k) <= k * Pairs(|profile.candidates| - 1)
  {
    var ds := Distances(rule, remove, profile);
    forall i | 0 <= i < |ds| ensures ds[i] <= Pairs(|profile.candidates| - 1) {
      DistanceBound(rule, remove, profile, profile.candidates[i]);
    }
    SumToBound(ds, k, Pairs(|profile.candidates| - 1));
  }

  /** One removal leaves M - 1 candidates, so at most (M-1)(M-2)/2 pairs. */
  lemma DistanceBound(rule: Profile -> seq<string>, remove: (Profile, seq<string>) -> Profile,
                      profile: Profile, c: string)
    requires RanksCandidates(rule) && RemovesCandidate(remove)
    requires c in profile.candidates
    ensures Distance(rule, remove, profile, c) <= Pairs(|profile.candidates| - 1)
  {
    var reduced := rule(remove(profile, [c]));
    ReducedRankings(rule, remove, profile, c);
    KendallTauBound(reduced, Without(rule(profile), c));
    PairsMono(|reduced|, |profile.candidates| - 1);
  }

  /** The full total is at most M(M-1)(M-2)/2, and 0 exactly when every
      removal leaves the ranking's order unchanged. */
  lemma IIATotalRange(rule: Profile -> seq<string>, remove: (Profile, seq<string>) -> Profile, profile: Profile)
    requires RanksCandidates(rule) && RemovesCandidate(remove)
    ensures var m := |profile.candidates|;
            m > 0 ==> IIATotal(rule, remove, profile, m) <= m * Pairs(m - 1)
    ensures IIATotal(rule, remove, profile, |profile.candidates|) == 0 <==>
            forall i :: 0 <= i < |profile.candidates| ==> Distances(rule, remove, profile)[i] == 0
  {
    var m := |profile.candidates|;
    if m > 0 {
      IIATotalBound(rule, remove, profile, m);
    }
    SumToZero(Distances(rule, remove, profile), |profile.candidates|);
  }

  /** `1 - total_distance / (M * (M-1) * (M-2)) / 2` with true division: the
      division by 2 applies to the quotient, not to the divisor. */
  function RootNormalised(total: nat, m: nat): real
    requires m >= 3
  {
    ProductPositive(m);
    1.0 - (total as real / (m * (m - 1) * (m - 2)) as real) / 2.0
  }

  lemma ProductPositive(m: nat)
    requires m >= 3
    ensures m * (m - 1) * (m - 2) > 0
  {
    assert (m - 1) * (m - 2) > 0 by {
      assert (m - 1) * (m - 2) >= (m - 1) * 1;
    }
  }

  /** n(n-1) is even, so halving it is exact. */
  lemma ConsecutiveEven(n: int)
    ensures 2 * (n * (n - 1) / 2) == n * (n - 1)
  {
    var q := n / 2;
    var y := if n % 2 == 0 then q * (n - 1) else n * q;
    if n % 2 == 0 {
      assert n == 2 * q;
      assert n * (n - 1) == 2 * y;
    } else {
      assert n - 1 == 2 * q;
      assert n * (n - 1) == 2 * y;
    }
    assert (2 * y) / 2 == y;
  }

  /** The largest total the loop can reach, M(M-1)(M-2)/2 as a real. */
  lemma MaxTotal(m: nat)
    requires m >= 3
    ensures (m * Pairs(m - 1)) as real == (m * (m - 1) * (m - 2)) as real / 2.0
  {
    PairsFormula(m - 1);
    ConsecutiveEven(m - 1);
    assert (m - 1) * (m - 1 - 1) == (m - 1) * (m - 2);
    var h := Pairs(m - 1);
    assert 2 * h == (m - 1) * (m - 2);
    assert m * (m - 1) * (m - 2) == 2 * (m * h);
  }

  /** As written, the score stays within [3/4, 1]: even the largest possible
      total only brings it down to 3/4. */
  lemma RootNormalisedRange(total: nat, m: nat)
    requires m >= 3 && total <= m * Pairs(m - 1)
    ensures 0.75 <= RootNormalised(total, m) <= 1.0
    ensures RootNormalised(total, m) == 1.0 <==> total == 0
    ensures total == m * Pairs(m - 1) ==> RootNormalised(total, m) == 0.75
  {
    ProductPositive(m);
    MaxTotal(m);
    var d := (m * (m - 1) * (m - 2)) as real;
    assert total as real <= d / 2.0;
    assert total as real / d <= 0.5 by {
      assert (total as real / d) * d == total as real;
    }
  }

  /** `sigma_IIA(profile, voting_rule)` of fairness_metric.py, with
      `remove_noncands` as `removeNoncands`. Fewer than three candidates
      divide by zero. */
  method SigmaIIA(profile: Profile, rule: Profile -> seq<string>,
                  removeNoncands: (Profile, seq<string>) -> Profile) returns (sigma: real)
    requires RanksCandidates(rule) && RemovesCandidate(removeNoncands)
    requires |profile.candidates| >= 3
    ensures sigma == RootNormalised(IIATotal(rule, removeNoncands, profile, |profile.candidates|), |profile.candidates|)
    ensures 0.75 <= sigma <= 1.0
    ensures sigma == 1.0 <==> forall i :: 0 <= i < |profile.candidates| ==> Distances(rule, removeNoncands, profile)[i] == 0
  {
    var totalDistance := TotalDistance(profile, rule, removeNoncands);
    var m := |profile.candidates|;
    sigma := RootNormalised(totalDistance, m);
    IIATotalRange(rule, removeNoncands, profile);
    RootNormalisedRange(totalDistance, m);
  }

  /** The loop of `sigma_IIA`: for each candidate in turn, remove it, rank
      the reduced profile, and add its distance from the original ranking
      with that candidate filtered out. */
  method TotalDistance(profile: Profile, rule: Profile -> seq<string>,
                       remove: (Profile, seq<string>) -> Profile) returns (totalDistance: nat)
    requires RanksCandidates(rule) && RemovesCandidate(remove)
    ensures totalDistance == IIATotal(rule, remove, profile, |profile.candidates|)
  {
    var originalRanking := rule(profile);
    totalDistance := 0;
    for k := 0 to |profile.candidates|
      invariant totalDistance == IIATotal(rule, remove, profile, k)
    {
      totalDistance := AddRemovalDistance(profile, rule, remove, originalRanking, k, totalDistance);
    }
  }

  /** One pass of that loop: the running total grows by the k-th
      candidate's distance. */
  method AddRemovalDistance(profile: Profile, rule: Profile -> seq<string>,
                            remove: (Profile, seq<string>) -> Profile, originalRanking: seq<string>,
                            k: nat, total0: nat) returns (total: nat)
    requires RanksCandidates(rule) && RemovesCandidate(remove)
    requires originalRanking == rule(profile) && k < |profile.candidates|
    requires total0 == IIATotal(rule, remove, profile, k)
    ensures total == IIATotal(rule, remove, profile, k + 1)
  {
    var distance := RemovalDistance(profile, rule, remove, originalRanking, k);
    total := total0 + distance;
  }

  /** One pass of that loop: the distance for removing the k-th candidate. */
  method RemovalDistance(profile: Profile, rule: Profile -> seq<string>,
                         remove: (Profile, seq<string>) -> Profile, originalRanking: seq<string>, k: nat)
    returns (distance: nat)
    requires RanksCandidates(rule) && RemovesCandidate(remove)
    requires originalRanking == rule(profile) && k < |profile.candidates|
    ensures distance == Distances(rule, remove, profile)[k]
  {
    var candidate := profile.candidates[k];
    var withoutCandidate := remove(profile, [candidate]);
    var rankingWithout := rule(withoutCandidate);
    var originalWithout := Without(originalRanking, candidate);
    ReducedRankings(rule, remove, profile, candidate);
    var r := KendallTauDistance(rankingWithout, originalWithout);
    distance := r.value;
  }
}

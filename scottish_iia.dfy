/** The σ_IIA score of the Scottish study (IIA_scottish.py): rerun a ranking
    rule once per removed candidate and count how many pairs of the remaining
    candidates changed order. */
module ScottishIIA {
  import opened Common
  import opened ScottishRules

  /** `perm = [pos[c] for c in r2]`: where each entry of r2 stands in r1. */
  function Positions(r1: seq<Candidate>, r2: seq<Candidate>): (p: seq<int>)
    requires forall c :: c in r2 ==> c in r1
    ensures |p| == |r2|
    ensures forall k :: 0 <= k < |r2| ==> p[k] == PosOf(r1, r2[k])
  {
    seq(|r2|, k requires 0 <= k < |r2| => PosOf(r1, r2[k]))
  }

  /** Entries at from or later that come before p[i] in value. */
  function RowInversions(p: seq<int>, i: nat, from: nat): nat
    requires i < |p|
    decreases |p| - from
  {
    if from >= |p| then 0
    else (if p[i] > p[from] then 1 else 0) + RowInversions(p, i, from + 1)
  }

  /** Pairs i < j with i at least `from` and p[i] > p[j]. */
  function InversionsFrom(p: seq<int>, from: nat): nat
    decreases |p| - from
  {
    if from >= |p| then 0
    else RowInversions(p, from, from + 1) + InversionsFrom(p, from + 1)
  }

  lemma {:induction false} RowBound(p: seq<int>, i: nat, from: nat)
    requires i < |p| && from <= |p|
    ensures RowInversions(p, i, from) <= |p| - from
    decreases |p| - from
  {
    if from < |p| {
      RowBound(p, i, from + 1);
    }
  }

  /** No more inversions than pairs. */
  lemma {:induction false} InversionsBound(p: seq<int>, from: nat)
    requires from <= |p|
    ensures InversionsFrom(p, from) <= Pairs(|p| - from)
    decreases |p| - from
  {
    if from < |p| {
      InversionsBound(p, from + 1);
      RowBound(p, from, from + 1);
    }
  }

  lemma {:induction false} RowZero(p: seq<int>, i: nat, from: nat)
    requires i < |p|
    ensures RowInversions(p, i, from) == 0 <==> forall j :: from <= j < |p| ==> p[i] <= p[j]
    decreases |p| - from
  {
    if from < |p| {
      RowZero(p, i, from + 1);
    }
  }

  /** No inversion at all exactly when the tail is in order. */
  lemma {:induction false} InversionsZero(p: seq<int>, from: nat)
    ensures InversionsFrom(p, from) == 0 <==> forall a, b :: from <= a < b < |p| ==> p[a] <= p[b]
    decreases |p| - from
  {
    if from < |p| {
      InversionsZero(p, from + 1);
      RowZero(p, from, from + 1);
    }
  }

  /** `swap_distance(r1, r2)`: the pairs of r2 that r1 orders the other way.
      Every entry of r2 must occur in r1 (`pos[c]` raises KeyError otherwise);
      a repeated entry of r1 counts at its last position. */
  function SwapDistance(r1: seq<Candidate>, r2: seq<Candidate>): (d: nat)
    requires forall c :: c in r2 ==> c in r1
    ensures d <= Pairs(|r2|)
    ensures d == 0 <==> forall a, b :: 0 <= a < b < |r2| ==> PosOf(r1, r2[a]) <= PosOf(r1, r2[b])
  {
    var p := Positions(r1, r2);
    InversionsBound(p, 0);
    InversionsZero(p, 0);
    InversionsFrom(p, 0)
  }

  /** A ranking without repeats is at distance 0 from itself. */
  lemma SwapDistanceSelf(r: seq<Candidate>)
    requires Distinct(r)
    ensures SwapDistance(r, r) == 0
  {
    forall a, b | 0 <= a < b < |r| ensures PosOf(r, r[a]) <= PosOf(r, r[b]) {
      PosOfDistinct(r, a);
      PosOfDistinct(r, b);
    }
  }

  /** The contract of `rule_fn`: it ranks exactly the candidates it is given. */
  ghost predicate IsRankingRule(rule: (seq<Ballot>, seq<Candidate>) -> seq<Candidate>) {
    forall bs, cs :: multiset(rule(bs, cs)) == multiset(cs)
  }

  /** Entries of equal multisets are the same. */
  lemma SameMembers(a: seq<Candidate>, b: seq<Candidate>)
    requires multiset(a) == multiset(b)
    ensures forall c :: c in a ==> c in b
  {
    forall c | c in a ensures c in b {
      assert c in multiset(a);
    }
  }

  /** The distance contributed by removing `cand`: the full ranking with cand
      struck out against the rule's ranking of the reduced election; nothing
      when no candidate is left. */
  function Term(rule: (seq<Ballot>, seq<Candidate>) -> seq<Candidate>, ballots: seq<Ballot>,
                candidates: seq<Candidate>, full: seq<Candidate>, cand: Candidate): (d: nat)
    requires IsRankingRule(rule)
    requires multiset(full) == multiset(candidates)
    ensures cand in candidates ==> d <= Pairs(|candidates| - 1)
  {
    var reducedCands := Without(candidates, cand);
    if reducedCands == [] then 0
    else
      ReducedRanking(rule, ballots, candidates, full, cand);
      if cand in candidates then
        ReducedShorter(rule, ballots, candidates, cand);
        SwapDistanceAtMost(Without(full, cand), rule(StrikeOff(ballots, cand), reducedCands), |candidates| - 1);
        SwapDistance(Without(full, cand), rule(StrikeOff(ballots, cand), reducedCands))
      else SwapDistance(Without(full, cand), rule(StrikeOff(ballots, cand), reducedCands))
  }

  /** The rule's ranking of the reduced election names only candidates that
      the struck-out full ranking has. */
  lemma ReducedRanking(rule: (seq<Ballot>, seq<Candidate>) -> seq<Candidate>, ballots: seq<Ballot>,
                       candidates: seq<Candidate>, full: seq<Candidate>, cand: Candidate)
    requires IsRankingRule(rule)
    requires multiset(full) == multiset(candidates)
    ensures forall c :: c in rule(StrikeOff(ballots, cand), Without(candidates, cand)) ==> c in Without(full, cand)
  {
    WithoutMultiset(full, cand);
    WithoutMultiset(candidates, cand);
    SameMembers(rule(StrikeOff(ballots, cand), Without(candidates, cand)), Without(full, cand));
  }

  /** A ranking of at most n entries has at most n(n-1)/2 pairs out of order. */
  lemma SwapDistanceAtMost(r1: seq<Candidate>, r2: seq<Candidate>, n: nat)
    requires forall c :: c in r2 ==> c in r1
    requires |r2| <= n
    ensures SwapDistance(r1, r2) <= Pairs(n)
  {
    PairsMono(|r2|, n);
  }

  lemma ReducedShorter(rule: (seq<Ballot>, seq<Candidate>) -> seq<Candidate>, ballots: seq<Ballot>,
                       candidates: seq<Candidate>, cand: Candidate)
    requires IsRankingRule(rule)
    requires cand in candidates
    ensures |rule(StrikeOff(ballots, cand), Without(candidates, cand))| < |candidates|
  {
    var reduced := rule(StrikeOff(ballots, cand), Without(candidates, cand));
    WithoutShorter(candidates, cand);
    assert |reduced| == |multiset(reduced)| == |multiset(Without(candidates, cand))|;
  }

  /** The term of each candidate, in loop order. */
  function Terms(rule: (seq<Ballot>, seq<Candidate>) -> seq<Candidate>, ballots: seq<Ballot>,
                 candidates: seq<Candidate>, full: seq<Candidate>): (ts: seq<nat>)
    requires IsRankingRule(rule)
    requires multiset(full) == multiset(candidates)
    ensures |ts| == |candidates|
    ensures forall i :: 0 <= i < |ts| ==> ts[i] == Term(rule, ballots, candidates, full, candidates[i])
  {
    seq(|candidates|, i requires 0 <= i < |candidates| => Term(rule, ballots, candidates, full, candidates[i]))
  }

  /** The running `total` after the first k candidates. */
  function Total(rule: (seq<Ballot>, seq<Candidate>) -> seq<Candidate>, ballots: seq<Ballot>,
                 candidates: seq<Candidate>, full: seq<Candidate>, k: nat): nat
    requires IsRankingRule(rule)
    requires multiset(full) == multiset(candidates)
    requires k <= |candidates|
  {
    SumTo(Terms(rule, ballots, candidates, full), k)
  }

  /** Each removal contributes at most (M-1)(M-2)/2. */
  lemma TotalBound(rule: (seq<Ballot>, seq<Candidate>) -> seq<Candidate>, ballots: seq<Ballot>,
                   candidates: seq<Candidate>, full: seq<Candidate>, k: nat)
    requires IsRankingRule(rule)
    requires multiset(full) == multiset(candidates)
    requires k <= |candidates|
    ensures 0 < k ==> Total(rule, ballots, candidates, full, k) <= k * Pairs(|candidates| - 1)
  {
    if k == 0 { return; }
    var ts := Terms(rule, ballots, candidates, full);
    forall i | 0 <= i < |ts| ensures ts[i] <= Pairs(|candidates| - 1) {
      assert candidates[i] in candidates;
    }
    SumToBound(ts, k, Pairs(|candidates| - 1));
  }

  /** Each pass of the loop adds the term of the next candidate. */
  lemma TotalStep(rule: (seq<Ballot>, seq<Candidate>) -> seq<Candidate>, ballots: seq<Ballot>,
                  candidates: seq<Candidate>, full: seq<Candidate>, k: nat)
    requires IsRankingRule(rule)
    requires multiset(full) == multiset(candidates)
    requires k < |candidates|
    ensures Total(rule, ballots, candidates, full, k + 1)
         == Total(rule, ballots, candidates, full, k) + Term(rule, ballots, candidates, full, candidates[k])
  {
  }

  /** The total is zero exactly when every removal left the order intact. */
  lemma TotalZero(rule: (seq<Ballot>, seq<Candidate>) -> seq<Candidate>, ballots: seq<Ballot>,
                  candidates: seq<Candidate>, full: seq<Candidate>, k: nat)
    requires IsRankingRule(rule)
    requires multiset(full) == multiset(candidates)
    requires k <= |candidates|
    ensures Total(rule, ballots, candidates, full, k) == 0 <==>
            forall i :: 0 <= i < k ==> Term(rule, ballots, candidates, full, candidates[i]) == 0
  {
    SumToZero(Terms(rule, ballots, candidates, full), k);
  }

  /** `(M - 1) * (M - 2) / 2` with Python's true division. */
  function MaxPossible(m: int): real {
    ((m - 1) * (m - 2)) as real / 2.0
  }

  /** `1 - total / (M * max_possible)` when max_possible > 0, else 1.0. */
  function Normalised(total: nat, m: nat): real
    requires m > 0
  {
    if MaxPossible(m) > 0.0 then 1.0 - total as real / (m as real * MaxPossible(m)) else 1.0
  }

  /** The value `sigma_IIA` returns. */
  function Sigma(rule: (seq<Ballot>, seq<Candidate>) -> seq<Candidate>, ballots: seq<Ballot>,
                 candidates: seq<Candidate>): real
    requires IsRankingRule(rule)
    requires |candidates| > 0
  {
    Normalised(Total(rule, ballots, candidates, rule(ballots, candidates), |candidates|), |candidates|)
  }

  /** A total within M·(M-1)(M-2)/2 normalises into [0, 1], to 1 exactly when
      no pair can change order or nothing did. */
  lemma NormalisedBounds(total: nat, m: nat)
    requires m > 0 && total <= m * Pairs(m - 1)
    ensures 0.0 <= Normalised(total, m) <= 1.0
    ensures Normalised(total, m) == 1.0 <==> m <= 2 || total == 0
  {
    MaxPossibleSign(m);
    if MaxPossible(m) > 0.0 {
      MaxPossibleCap(m);
      UnitFraction(total as real, m as real * MaxPossible(m));
    }
  }

  /** σ_IIA lies in [0, 1], and it is 1 exactly when there are too few
      candidates for a pair to change order or no removal changed the order
      of the remaining candidates. */
  lemma SigmaBounds(rule: (seq<Ballot>, seq<Candidate>) -> seq<Candidate>, ballots: seq<Ballot>,
                    candidates: seq<Candidate>)
    requires IsRankingRule(rule)
    requires |candidates| > 0
    ensures 0.0 <= Sigma(rule, ballots, candidates) <= 1.0
    ensures Sigma(rule, ballots, candidates) == 1.0 <==>
            |candidates| <= 2 ||
            forall i :: 0 <= i < |candidates| ==>
              Term(rule, ballots, candidates, rule(ballots, candidates), candidates[i]) == 0
  {
    var m := |candidates|;
    var full := rule(ballots, candidates);
    TotalZero(rule, ballots, candidates, full, m);
    TotalBound(rule, ballots, candidates, full, m);
    NormalisedBounds(Total(rule, ballots, candidates, full, m), m);
  }

  /** Some pair can change order exactly when there are three candidates. */
  lemma MaxPossibleSign(m: nat)
    requires m > 0
    ensures MaxPossible(m) >= 0.0
    ensures MaxPossible(m) == 0.0 <==> m <= 2
  {
    if m > 2 {
      assert (m - 1) * (m - 2) >= 1 * (m - 2) >= 1;
    } else {
      assert (m - 1) * (m - 2) == 0;
    }
  }

  /** M whole-number terms of at most (M-1)(M-2)/2 stay within M·max_possible. */
  lemma MaxPossibleCap(m: nat)
    requires m > 0 && MaxPossible(m) > 0.0
    ensures (m * Pairs(m - 1)) as real <= m as real * MaxPossible(m)
    ensures m as real * MaxPossible(m) > 0.0
  {
    PairsWithinMaxPossible(m);
    ScaleUp(m, Pairs(m - 1), MaxPossible(m));
  }

  /** One term's bound, (M-1)(M-2)/2 on integers, is within max_possible. */
  lemma PairsWithinMaxPossible(m: nat)
    requires m > 0
    ensures Pairs(m - 1) as real <= MaxPossible(m)
  {
    PairsFormula(m - 1);
    var q := (m - 1) * (m - 2);
    assert Pairs(m - 1) == q / 2;
    assert (q / 2) as real <= q as real / 2.0;
  }

  /** m copies of a bound b on h bound m copies of h. */
  lemma ScaleUp(m: nat, h: nat, b: real)
    requires m > 0 && h as real <= b && b > 0.0
    ensures (m * h) as real <= m as real * b
    ensures m as real * b > 0.0
  {
    assert (m * h) as real == m as real * h as real;
  }

  /** 1 - t/d for 0 <= t <= d lies in [0, 1] and is 1 only for t = 0. */
  lemma UnitFraction(t: real, d: real)
    requires 0.0 <= t <= d && d > 0.0
    ensures 0.0 <= 1.0 - t / d <= 1.0
    ensures 1.0 - t / d == 1.0 <==> t == 0.0
  {
    assert t / d <= 1.0 by {
      assert t / d * d == t;
    }
  }

  /** A rule that, on the reduced election, always ranks the remaining
      candidates in the order it gave them before scores exactly 1. */
  lemma IndependentRuleScoresOne(rule: (seq<Ballot>, seq<Candidate>) -> seq<Candidate>, ballots: seq<Ballot>,
                                 candidates: seq<Candidate>)
    requires IsRankingRule(rule)
    requires |candidates| > 0 && Distinct(candidates)
    requires forall c :: c in candidates ==>
               rule(StrikeOff(ballots, c), Without(candidates, c)) == Without(rule(ballots, candidates), c)
    ensures Sigma(rule, ballots, candidates) == 1.0
  {
    var full := rule(ballots, candidates);
    DistinctMultiset(candidates);
    DistinctMultiset(full);
    forall i | 0 <= i < |candidates|
      ensures Term(rule, ballots, candidates, full, candidates[i]) == 0
    {
      var c := candidates[i];
      WithoutDistinct(full, c);
      SwapDistanceSelf(Without(full, c));
    }
    SigmaBounds(rule, ballots, candidates);
  }

  /** `sigma_IIA(rule_fn, ballots, candidates)`; `**kwargs` such as the seat
      count are part of `rule`. An empty candidate list divides by zero. */
  method SigmaIIA(rule: (seq<Ballot>, seq<Candidate>) -> seq<Candidate>, ballots: seq<Ballot>,
                  candidates: seq<Candidate>) returns (sigma: real)
    requires IsRankingRule(rule)
    requires |candidates| > 0
    ensures sigma == Sigma(rule, ballots, candidates)
    ensures 0.0 <= sigma <= 1.0
  {
    var full := rule(ballots, candidates);
    var total := TotalSwaps(rule, ballots, candidates, full);
    sigma := Normalised(total, |candidates|);
    SigmaBounds(rule, ballots, candidates);
  }

  /** The loop of `sigma_IIA`: the swap distances of all removals, added up
      in candidate order. */
  method TotalSwaps(rule: (seq<Ballot>, seq<Candidate>) -> seq<Candidate>, ballots: seq<Ballot>,
                    candidates: seq<Candidate>, full: seq<Candidate>) returns (total: nat)
    requires IsRankingRule(rule)
    requires full == rule(ballots, candidates)
    ensures total == Total(rule, ballots, candidates, full, |candidates|)
  {
    total := 0;
    for k := 0 to |candidates|
      invariant total == Total(rule, ballots, candidates, full, k)
    {
      total := AddRemovalSwaps(rule, ballots, candidates, full, k, total);
    }
  }

  /** One pass of that loop: remove the k-th candidate, rerank, and add the
      swap distance, or skip when no candidate would be left. */
  method AddRemovalSwaps(rule: (seq<Ballot>, seq<Candidate>) -> seq<Candidate>, ballots: seq<Ballot>,
                         candidates: seq<Candidate>, full: seq<Candidate>, k: nat, total0: nat)
    returns (total: nat)
    requires IsRankingRule(rule)
    requires full == rule(ballots, candidates) && k < |candidates|
    requires total0 == Total(rule, ballots, candidates, full, k)
    ensures total == Total(rule, ballots, candidates, full, k + 1)
  {
    var cand := candidates[k];
    TotalStep(rule, ballots, candidates, full, k);
    var reducedBallots := StrikeOff(ballots, cand);
    var reducedCands := Without(candidates, cand);
    if reducedCands == [] {
      return total0;
    }
    var reduced := rule(reducedBallots, reducedCands);
    ReducedRanking(rule, ballots, candidates, full, cand);
    total := total0 + SwapDistance(Without(full, cand), reduced);
  }

  /** `plurality_ranking` meets the rule contract, so the σ_IIA bounds hold
      for it. */
  lemma PluralityIsRankingRule()
    ensures IsRankingRule(PluralityRule)
  {
  }

  lemma PluralitySigmaBounds(ballots: seq<Ballot>, candidates: seq<Candidate>)
    requires |candidates| > 0
    ensures IsRankingRule(PluralityRule)
    ensures 0.0 <= Sigma(PluralityRule, ballots, candidates) <= 1.0
  {
    PluralityIsRankingRule();
    SigmaBounds(PluralityRule, ballots, candidates);
  }
}

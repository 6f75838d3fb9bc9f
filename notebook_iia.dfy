/** The σ_IIA variants of notebooks/fairness_metric.py: the ranking version
    with the intended normalisation, its seat-count wrapper for STV, and the
    winner-set overlap version. votekit's `remove_and_condense` and the
    election classes are parameters. */
module NotebookIIA {
  import opened Common
  import opened Votekit
  import opened FairnessMetric

  /** `1 - total_distance / ((M * (M-1) * (M-2)) / 2)`: the total measured
      against the largest total the loop can reach. */
  function Normalised(total: nat, m: nat): real
    requires m >= 3
  {
    ProductPositive(m);
    1.0 - total as real / ((m * (m - 1) * (m - 2)) as real / 2.0)
  }

  /** The score spans all of [0, 1]: 1 exactly when nothing changed order,
      0 at the largest possible total. */
  lemma NormalisedRange(total: nat, m: nat)
    requires m >= 3 && total <= m * Pairs(m - 1)
    ensures 0.0 <= Normalised(total, m) <= 1.0
    ensures Normalised(total, m) == 1.0 <==> total == 0
    ensures total == m * Pairs(m - 1) ==> Normalised(total, m) == 0.0
  {
    ProductPositive(m);
    MaxTotal(m);
    var h := (m * (m - 1) * (m - 2)) as real / 2.0;
    assert h > 0.0;
    assert total as real <= h;
    assert total as real / h <= 1.0 by {
      assert (total as real / h) * h == total as real;
    }
  }

  /** `sigma_IIA(profile, voting_rule)` of the notebook: the loop of the root
      version with votekit's `remove_and_condense` as `removeAndCondense`. */
  method SigmaIIA(profile: Profile, rule: Profile -> seq<string>,
                  removeAndCondense: (Profile, seq<string>) -> Profile) returns (sigma: real)
    requires RanksCandidates(rule) && RemovesCandidate(removeAndCondense)
    requires |profile.candidates| >= 3
    ensures sigma == Normalised(IIATotal(rule, removeAndCondense, profile, |profile.candidates|), |profile.candidates|)
    ensures 0.0 <= sigma <= 1.0
    ensures sigma == 1.0 <==> forall i :: 0 <= i < |profile.candidates| ==> Distances(rule, removeAndCondense, profile)[i] == 0
  {
    var totalDistance := TotalDistance(profile, rule, removeAndCondense);
    var m := |profile.candidates|;
    sigma := Normalised(totalDistance, m);
    IIATotalRange(rule, removeAndCondense, profile);
    NormalisedRange(totalDistance, m);
  }

  /** A rule that also takes the seat count, with the seat count fixed. */
  function WithSeats(rule: (Profile, int) -> seq<string>, seats: int): Profile -> seq<string> {
    p => rule(p, seats)
  }

  /** `sigma_IIA_STV(profile, seats, voting_rule)`: the same loop and
      normalisation, every ranking computed with the same seat count. */
  method SigmaIIASTV(profile: Profile, seats: int, rule: (Profile, int) -> seq<string>,
                     removeAndCondense: (Profile, seq<string>) -> Profile) returns (sigma: real)
    requires RanksCandidates(WithSeats(rule, seats)) && RemovesCandidate(removeAndCondense)
    requires |profile.candidates| >= 3
    ensures sigma == Normalised(IIATotal(WithSeats(rule, seats), removeAndCondense, profile, |profile.candidates|),
                                |profile.candidates|)
    ensures 0.0 <= sigma <= 1.0
  {
    sigma := SigmaIIA(profile, WithSeats(rule, seats), removeAndCondense);
  }

  /** The overlap term for removing `cand` from a profile whose winner set is
      `winners`: a removed winner (of several) is compared, over the other
      winners, with the winners of one seat fewer; anyone else is compared,
      over all winners, with the winners of the same number of seats. */
  function WinnerTerm(profile: Profile, elect: (Profile, int) -> set<string>,
                      remove: (Profile, seq<string>) -> Profile, seats: int,
                      winners: set<string>, cand: string): (t: real)
    requires winners != {}
    ensures 0.0 <= t <= 1.0
  {
    var m := |winners|;
    var reduced := remove(profile, [cand]);
    if cand in winners && m > 1 then
      var others := winners - {cand};
      var common := others * elect(reduced, seats - 1);
      CardSubset(common, others);
      FractionInUnit(|common|, m - 1);
      |common| as real / (m - 1) as real
    else
      var common := winners * elect(reduced, seats);
      CardSubset(common, winners);
      FractionInUnit(|common|, m);
      |common| as real / m as real
  }

  lemma FractionInUnit(a: nat, b: nat)
    requires 0 < b && a <= b
    ensures 0.0 <= a as real / b as real <= 1.0
  {
    assert (a as real / b as real) * b as real == a as real;
  }

  lemma CardSubset(a: set<string>, b: set<string>)
    requires a <= b
    ensures |a| <= |b|
  {
    assert b == a + (b - a);
  }

  /** The overlap terms of the first k candidates, added up in candidate
      order; k terms in [0, 1] add up to at most k. */
  function OverlapSum(profile: Profile, elect: (Profile, int) -> set<string>,
                      remove: (Profile, seq<string>) -> Profile, seats: int,
                      winners: set<string>, k: nat): (total: real)
    requires winners != {} && k <= |profile.candidates|
    ensures 0.0 <= total <= k as real
  {
    if k == 0 then 0.0
    else OverlapSum(profile, elect, remove, seats, winners, k - 1)
         + WinnerTerm(profile, elect, remove, seats, winners, profile.candidates[k - 1])
  }

  /** `sigma_IIA_winner(profile, voting_rule, seats)`: the mean overlap term.
      `elect` stands for `voting_rule(...).get_elected()` already flattened
      to a set. An empty winner set or candidate list divides by zero. */
  method SigmaIIAWinner(profile: Profile, elect: (Profile, int) -> set<string>,
                        removeAndCondense: (Profile, seq<string>) -> Profile, seats: int)
    returns (score: real)
    requires |profile.candidates| > 0
    requires elect(profile, seats) != {}
    ensures score == OverlapSum(profile, elect, removeAndCondense, seats, elect(profile, seats),
                                |profile.candidates|) / |profile.candidates| as real
    ensures 0.0 <= score <= 1.0
  {
    var winnerSet := elect(profile, seats);
    var totalDistance := TotalOverlap(profile, elect, removeAndCondense, seats, winnerSet);
    score := totalDistance / |profile.candidates| as real;
    MeanInUnit(totalDistance, |profile.candidates|);
  }

  /** The loop of `sigma_IIA_winner`: the overlap terms of all candidates,
      added up in candidate order. */
  method TotalOverlap(profile: Profile, elect: (Profile, int) -> set<string>,
                      removeAndCondense: (Profile, seq<string>) -> Profile, seats: int,
                      winnerSet: set<string>) returns (totalDistance: real)
    requires winnerSet != {}
    ensures totalDistance == OverlapSum(profile, elect, removeAndCondense, seats, winnerSet, |profile.candidates|)
  {
    totalDistance := 0.0;
    for k := 0 to |profile.candidates|
      invariant totalDistance == OverlapSum(profile, elect, removeAndCondense, seats, winnerSet, k)
    {
      totalDistance := AddRemovalTerm(profile, elect, removeAndCondense, seats, winnerSet, k, totalDistance);
    }
  }

  /** One pass of that loop: the running sum grows by the k-th candidate's
      overlap term. */
  method AddRemovalTerm(profile: Profile, elect: (Profile, int) -> set<string>,
                        removeAndCondense: (Profile, seq<string>) -> Profile, seats: int,
                        winnerSet: set<string>, k: nat, total0: real) returns (total: real)
    requires winnerSet != {} && k < |profile.candidates|
    requires total0 == OverlapSum(profile, elect, removeAndCondense, seats, winnerSet, k)
    ensures total == OverlapSum(profile, elect, removeAndCondense, seats, winnerSet, k + 1)
  {
    var term := RemovalTerm(profile, elect, removeAndCondense, seats, winnerSet, profile.candidates[k]);
    total := total0 + term;
  }

  /** One pass of that loop, as the source writes it with assignments;
      WinnerTerm is its specification. */
  method RemovalTerm(profile: Profile, elect: (Profile, int) -> set<string>,
                     removeAndCondense: (Profile, seq<string>) -> Profile, seats: int,
                     winnerSet: set<string>, cand: string) returns (term: real)
    requires winnerSet != {}
    ensures term == WinnerTerm(profile, elect, removeAndCondense, seats, winnerSet, cand)
  {
    var m := |winnerSet|;
    if cand in winnerSet && m > 1 {
      var winnerSetWithoutCand := winnerSet - {cand};
      var newProfile := removeAndCondense(profile, [cand]);
      var newWinnersSet := elect(newProfile, seats - 1);
      term := |winnerSetWithoutCand * newWinnersSet| as real / (m - 1) as real;
    } else {
      var newProfile := removeAndCondense(profile, [cand]);
      var newWinnersSet := elect(newProfile, seats);
      term := |winnerSet * newWinnersSet| as real / m as real;
    }
  }

  /** n numbers in [0, 1] have a mean in [0, 1]. */
  lemma MeanInUnit(total: real, n: nat)
    requires n > 0 && 0.0 <= total <= n as real
    ensures 0.0 <= total / n as real <= 1.0
  {
    assert (total / n as real) * n as real == total;
  }

  /** When the single winner is removed, the rerun cannot elect it again, so
      the term is 0, provided the rule elects only candidates of the profile
      it is given. */
  lemma SoleWinnerRemovedScoresZero(profile: Profile, elect: (Profile, int) -> set<string>,
                                    remove: (Profile, seq<string>) -> Profile, seats: int, w: string)
    requires RemovesCandidate(remove)
    requires forall p, s, x :: x in elect(p, s) ==> x in p.candidates
    ensures WinnerTerm(profile, elect, remove, seats, {w}, w) == 0.0
  {
    var reduced := remove(profile, [w]);
    assert multiset(reduced.candidates)[w] == 0;
    assert w !in reduced.candidates;
    assert {w} * elect(reduced, seats) == {};
  }
}

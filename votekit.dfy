/** The part of votekit's data model that the fairness code reads. A ballot
    ranks groups of tied candidates, best group first, and carries a weight;
    a profile is a list of ballots together with the candidate names. The
    library's own operations (elections, candidate removal) are not modelled:
    the code that calls them receives them as function parameters. */
module Votekit {
  import opened Common

  datatype Ballot = Ballot(ranking: seq<set<string>>, weight: real)

  datatype Profile = Profile(ballots: seq<Ballot>, candidates: seq<string>)

  /** `sum(ballot.weight for ballot in profile.ballots)`. */
  function TotalWeight(ballots: seq<Ballot>): real {
    if ballots == [] then 0.0 else TotalWeight(ballots[..|ballots| - 1]) + ballots[|ballots| - 1].weight
  }

  /** Every ballot counts with a weight of at least zero. */
  predicate NonNegativeWeights(ballots: seq<Ballot>) {
    forall k :: 0 <= k < |ballots| ==> ballots[k].weight >= 0.0
  }

  /** `{cand: idx for idx, group in enumerate(ranking) for cand in group}[c]`:
      later groups overwrite earlier ones, so a candidate listed in several
      groups gets the last of them; None when the ballot does not rank c. */
  function RankOf(ranking: seq<set<string>>, c: string): (r: Option<nat>)
    ensures r.None? <==> forall g :: 0 <= g < |ranking| ==> c !in ranking[g]
    ensures r.Some? ==> r.value < |ranking| && c in ranking[r.value]
    ensures r.Some? ==> forall g :: r.value < g < |ranking| ==> c !in ranking[g]
  {
    if ranking == [] then None
    else if c in ranking[|ranking| - 1] then Some(|ranking| - 1)
    else RankOf(ranking[..|ranking| - 1], c)
  }
}

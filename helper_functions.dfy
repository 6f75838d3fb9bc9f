/** `flatten_ballot_ranking` of helper_functions.py: a votekit ranking of
    tied groups turned into a plain list with one name per group. */
module HelperFunctions {
  import opened Votekit

  /** `next(iter(fs))`: the member a group yields first. For a group of
      several tied candidates that depends on set iteration order, so the
      model fixes one arbitrary member; an empty group raises StopIteration. */
  ghost function AnyMember(g: set<string>): (c: string)
    requires g != {}
    ensures c in g
  {
    var c :| c in g; c
  }

  /** Every group of the ranking names at least one candidate. */
  predicate NonEmptyGroups(ranking: seq<set<string>>) {
    forall i :: 0 <= i < |ranking| ==> ranking[i] != {}
  }

  /** `[next(iter(fs)) for fs in ballot.ranking]`: one name per group, taken
      from that group. */
  ghost function FlattenBallotRanking(ballot: Ballot): (r: seq<string>)
    requires NonEmptyGroups(ballot.ranking)
    ensures |r| == |ballot.ranking|
    ensures forall i :: 0 <= i < |r| ==> r[i] in ballot.ranking[i]
  {
    seq(|ballot.ranking|, i requires 0 <= i < |ballot.ranking| => AnyMember(ballot.ranking[i]))
  }

  /** Under the assumption the function documents, that every group holds a
      single candidate, the result is exactly the list of those candidates. */
  lemma SingletonGroupsFlatten(ballot: Ballot, names: seq<string>)
    requires |names| == |ballot.ranking|
    requires forall i :: 0 <= i < |names| ==> ballot.ranking[i] == {names[i]}
    ensures NonEmptyGroups(ballot.ranking)
    ensures FlattenBallotRanking(ballot) == names
  {
    var r := FlattenBallotRanking(ballot);
    forall i | 0 <= i < |names| ensures r[i] == names[i] {
      assert r[i] in {names[i]};
    }
  }

  /** Only the ranking is read: two ballots that differ in weight alone
      flatten to the same list. */
  lemma FlattenIgnoresWeight(b1: Ballot, b2: Ballot)
    requires b1.ranking == b2.ranking && NonEmptyGroups(b1.ranking)
    ensures FlattenBallotRanking(b1) == FlattenBallotRanking(b2)
  {
  }
}

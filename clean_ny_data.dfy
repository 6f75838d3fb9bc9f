/** `truncate_past_overvote` of other_files/clean_ny_data.py: a ballot of the
    New York primary keeps its ranking up to, not including, the first group
    that is exactly the overvote marker. */
module CleanNyData {
  import opened Votekit

  /** `frozenset({"overvote"})`. */
  const Overvote: set<string> := {"overvote"}

  /** The position of the first group equal to the overvote marker, or the
      ranking's length when there is none. */
  function FirstOvervote(ranking: seq<set<string>>): (k: nat)
    ensures k <= |ranking|
    ensures forall j :: 0 <= j < k ==> ranking[j] != Overvote
    ensures k < |ranking| ==> ranking[k] == Overvote
  {
    if ranking == [] then 0
    else if ranking[0] == Overvote then 0
    else 1 + FirstOvervote(ranking[1..])
  }

  /** `truncate_past_overvote(ballot)`: copy groups until the first overvote
      group, which is itself dropped, and keep the weight. The result is a
      prefix of the ranking without any overvote group, and the whole ranking
      when it has none. */
  method TruncatePastOvervote(ballot: Ballot) returns (truncated: Ballot)
    ensures truncated.ranking == ballot.ranking[..FirstOvervote(ballot.ranking)]
    ensures truncated.weight == ballot.weight
    ensures truncated.ranking <= ballot.ranking
    ensures Overvote !in truncated.ranking
    ensures Overvote !in ballot.ranking ==> truncated.ranking == ballot.ranking
  {
    var newRanking: seq<set<string>> := [];
    var i := 0;
    while i < |ballot.ranking|
      invariant 0 <= i <= |ballot.ranking|
      invariant newRanking == ballot.ranking[..i]
      invariant forall j :: 0 <= j < i ==> ballot.ranking[j] != Overvote
    {
      var cSet := ballot.ranking[i];
      if cSet == Overvote {
        break;
      }
      newRanking := newRanking + [cSet];
      i := i + 1;
    }
    CutAtFirst(ballot.ranking, i);
    truncated := Ballot(newRanking, ballot.weight);
  }

  /** A position with no overvote group before it, at the end of the ranking
      or at an overvote group, is the first overvote position. */
  lemma CutAtFirst(ranking: seq<set<string>>, i: nat)
    requires i <= |ranking|
    requires forall j :: 0 <= j < i ==> ranking[j] != Overvote
    requires i == |ranking| || ranking[i] == Overvote
    ensures FirstOvervote(ranking) == i
    ensures Overvote !in ranking[..i]
    ensures Overvote !in ranking ==> i == |ranking|
  {
  }

  /** Only a group equal to the marker cuts: a tied group that contains
      "overvote" together with a candidate is kept, in place. */
  lemma TiedOvervoteKept(ranking: seq<set<string>>, i: nat, c: string)
    requires i < |ranking| && "overvote" in ranking[i] && c in ranking[i] && c != "overvote"
    requires forall j :: 0 <= j < i ==> ranking[j] != Overvote
    ensures i < FirstOvervote(ranking)
    ensures ranking[..FirstOvervote(ranking)][i] == ranking[i]
  {
    assert ranking[i] != Overvote by {
      assert c !in Overvote;
    }
  }
}

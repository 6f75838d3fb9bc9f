/** `build_voting_rule` of voting_rules.py: a rule name selects one of
    votekit's election classes with a fixed tiebreak and, for the k-approval
    rules, a score vector. The returned factory is modelled by the
    configuration it would pass to the election class. */
module VotingRules {
  import opened Common

  datatype ElectionKind = BordaElection | PluralityElection | StvElection

  datatype Tiebreak = FirstPlace | BordaTiebreak

  /** What the factory passes on: the class, `tiebreak=` and, if any,
      `score_vector=`. */
  datatype RuleConfig = RuleConfig(kind: ElectionKind, tiebreak: Tiebreak, scoreVector: Option<seq<int>>)

  /** The five names the rule accepts. */
  predicate Allowed(name: string) {
    name == "borda" || name == "3-approval" || name == "2-approval" || name == "plurality" || name == "stv"
  }

  /** The number of approved positions of a k-approval name, 0 otherwise. */
  function ApprovalCount(name: string): nat {
    if name == "3-approval" then 3 else if name == "2-approval" then 2 else 0
  }

  /** `[1] * k + [0] * (n_cands - k)`. */
  function ApprovalVector(k: nat, nCands: int): (sv: seq<int>)
    requires nCands >= k
    ensures |sv| == nCands
    ensures forall i :: 0 <= i < |sv| ==> sv[i] == if i < k then 1 else 0
  {
    seq(k, _ => 1) + seq(nCands - k, _ => 0)
  }

  /** The sum of a score vector's entries. */
  function VectorSum(sv: seq<int>): int {
    if sv == [] then 0 else VectorSum(sv[..|sv| - 1]) + sv[|sv| - 1]
  }

  /** A k-approval vector hands out k points in total: one to each of the
      first k positions of a ballot. */
  lemma {:induction false} ApprovalVectorSum(k: nat, nCands: int)
    requires nCands >= k
    ensures VectorSum(ApprovalVector(k, nCands)) == k
  {
    var sv := ApprovalVector(k, nCands);
    PrefixSum(sv, k, nCands);
    assert sv[..nCands] == sv;
  }

  lemma {:induction false} PrefixSum(sv: seq<int>, k: nat, n: nat)
    requires n <= |sv|
    requires forall i :: 0 <= i < |sv| ==> sv[i] == if i < k then 1 else 0
    ensures VectorSum(sv[..n]) == if n < k then n else k
  {
    if n > 0 {
      assert sv[..n][..n - 1] == sv[..n - 1];
      PrefixSum(sv, k, n - 1);
    }
  }

  /** `build_voting_rule(n_cands, voting_rule_name)`. */
  function BuildVotingRule(nCands: int, name: string): (r: Result<RuleConfig>)
    ensures !Allowed(name) ==> r == Err(UnknownRule(name))
    ensures Allowed(name) ==> (r.Err? <==> ApprovalCount(name) > 0 && nCands < ApprovalCount(name))
    ensures Allowed(name) && r.Err? ==> r.error == TooFewCandidates(name)
    ensures r.Ok? ==> (r.value.kind == BordaElection <==> ApprovalCount(name) > 0 || name == "borda")
    ensures r.Ok? ==> (r.value.tiebreak == FirstPlace <==> r.value.kind == BordaElection)
    ensures r.Ok? ==> (r.value.scoreVector.Some? <==> ApprovalCount(name) > 0)
    ensures r.Ok? && r.value.scoreVector.Some? ==>
              r.value.scoreVector.value == ApprovalVector(ApprovalCount(name), nCands)
  {
    if name == "borda" then
      Ok(RuleConfig(BordaElection, FirstPlace, None))
    else if name == "3-approval" then
      if nCands < 3 then Err(TooFewCandidates(name))
      else Ok(RuleConfig(BordaElection, FirstPlace, Some(ApprovalVector(3, nCands))))
    else if name == "2-approval" then
      if nCands < 2 then Err(TooFewCandidates(name))
      else Ok(RuleConfig(BordaElection, FirstPlace, Some(ApprovalVector(2, nCands))))
    else if name == "plurality" then
      Ok(RuleConfig(PluralityElection, BordaTiebreak, None))
    else if name == "stv" then
      Ok(RuleConfig(StvElection, BordaTiebreak, None))
    else
      Err(UnknownRule(name))
  }

  /** Plurality and STV elect with votekit's Plurality and STV classes, both
      breaking ties by Borda score and with no score vector. */
  lemma PluralityAndStv(nCands: int)
    ensures BuildVotingRule(nCands, "plurality") == Ok(RuleConfig(PluralityElection, BordaTiebreak, None))
    ensures BuildVotingRule(nCands, "stv") == Ok(RuleConfig(StvElection, BordaTiebreak, None))
  {
  }
}

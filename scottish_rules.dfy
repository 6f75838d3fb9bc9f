/** The hand-written Borda and Plurality rules of the Scottish STV study
    (IIA_scottish.py). A ballot is the list of candidate ids one voter ranked,
    best first; the file reader has already expanded every ballot line into
    one copy per voter, so no weights appear here. */
module ScottishRules {
  import opened Common

  type Candidate = int
  type Ballot = seq<Candidate>

  /** `[[c for c in b if c != e] for b in ballots]`. */
  function StrikeOff(ballots: seq<Ballot>, e: Candidate): (r: seq<Ballot>)
    ensures |r| == |ballots|
    ensures forall k :: 0 <= k < |ballots| ==> r[k] == Without(ballots[k], e)
  {
    seq(|ballots|, k requires 0 <= k < |ballots| => Without(ballots[k], e))
  }

  /** Python's sort key `(-score, id)`: a comes no later than b. */
  predicate Precedes(score: map<Candidate, int>, a: Candidate, b: Candidate) {
    a in score && b in score &&
    (score[a] > score[b] || (score[a] == score[b] && a <= b))
  }

  /** r lists candidates by descending score, ties by ascending id. */
  predicate RankedBy(r: seq<Candidate>, score: map<Candidate, int>) {
    forall i, j :: 0 <= i < j < |r| ==> Precedes(score, r[i], r[j])
  }

  /** The order only depends on the scores of the ranked candidates. */
  lemma SameScoresSameOrder(r: seq<Candidate>, s1: map<Candidate, int>, s2: map<Candidate, int>)
    requires forall c :: c in r ==> c in s1 && c in s2 && s1[c] == s2[c]
    requires RankedBy(r, s1)
    ensures RankedBy(r, s2)
  {
    forall i, j | 0 <= i < j < |r| ensures Precedes(s2, r[i], r[j]) {
      assert r[i] in r && r[j] in r;
      assert Precedes(s1, r[i], r[j]);
    }
  }

  /** The `(-score, id)` key orders candidates strictly, so two rankings of
      the same candidates by the same scores are the same list. */
  lemma {:induction false} RankedUnique(r1: seq<Candidate>, r2: seq<Candidate>, score: map<Candidate, int>)
    requires multiset(r1) == multiset(r2)
    requires RankedBy(r1, score) && RankedBy(r2, score)
    ensures r1 == r2
    decreases |r1|
  {
    assert |r1| == |multiset(r1)| == |multiset(r2)| == |r2|;
    if r1 != [] {
      SameHead(r1, r2, score);
      SameTails(r1, r2);
      RankedTail(r1, score);
      RankedTail(r2, score);
      RankedUnique(r1[1..], r2[1..], score);
      assert r1 == [r1[0]] + r1[1..] && r2 == [r2[0]] + r2[1..];
    }
  }

  /** Both rankings start with the candidate the key puts first. */
  lemma SameHead(r1: seq<Candidate>, r2: seq<Candidate>, score: map<Candidate, int>)
    requires |r1| > 0 && |r2| > 0 && multiset(r1) == multiset(r2)
    requires RankedBy(r1, score) && RankedBy(r2, score)
    ensures r1[0] == r2[0]
  {
    assert r1[0] in multiset(r2) && r2[0] in multiset(r1);
    HeadFirst(r2, r1[0], score);
    HeadFirst(r1, r2[0], score);
  }

  lemma SameTails(r1: seq<Candidate>, r2: seq<Candidate>)
    requires |r1| > 0 && |r2| > 0 && r1[0] == r2[0] && multiset(r1) == multiset(r2)
    ensures multiset(r1[1..]) == multiset(r2[1..])
  {
    assert r1 == [r1[0]] + r1[1..] && r2 == [r2[0]] + r2[1..];
    assert multiset(r1[1..]) == multiset(r1) - multiset{r1[0]};
    assert multiset(r2[1..]) == multiset(r2) - multiset{r2[0]};
  }

  /** The head of a ranked list comes before each of its other entries. */
  lemma HeadFirst(r: seq<Candidate>, x: Candidate, score: map<Candidate, int>)
    requires RankedBy(r, score) && x in r
    ensures x == r[0] || Precedes(score, r[0], x)
  {
    var k :| 0 <= k < |r| && r[k] == x;
    if k > 0 {
      assert Precedes(score, r[0], r[k]);
    }
  }

  lemma RankedTail(r: seq<Candidate>, score: map<Candidate, int>)
    requires |r| > 0 && RankedBy(r, score)
    ensures RankedBy(r[1..], score)
  {
    forall i, j | 0 <= i < j < |r| - 1 ensures Precedes(score, r[1..][i], r[1..][j]) {
      assert r[1..][i] == r[i + 1] && r[1..][j] == r[j + 1];
    }
  }

  /** One step of an insertion sort under the `(-score, id)` key. */
  function Insert(x: Candidate, s: seq<Candidate>, score: map<Candidate, int>): (r: seq<Candidate>)
    requires x in score && forall c :: c in s ==> c in score
    requires RankedBy(s, score)
    ensures multiset(r) == multiset(s) + multiset{x}
    ensures RankedBy(r, score)
  {
    if s == [] then [x]
    else if Precedes(score, x, s[0]) then
      PrecedesAll(x, s, score);
      [x] + s
    else
      assert s == [s[0]] + s[1..];
      var rest := Insert(x, s[1..], score);
      HeadPrecedesRest(x, s, rest, score);
      [s[0]] + rest
  }

  /** What comes before the head of a ranked list comes before all of it. */
  lemma PrecedesAll(x: Candidate, s: seq<Candidate>, score: map<Candidate, int>)
    requires |s| > 0 && RankedBy(s, score) && Precedes(score, x, s[0])
    ensures forall j :: 0 <= j < |s| ==> Precedes(score, x, s[j])
  {
    forall j | 0 <= j < |s| ensures Precedes(score, x, s[j]) {
      if j > 0 { assert Precedes(score, s[0], s[j]); }
    }
  }

  /** When x goes after the head, the head still comes before everything the
      insertion into the tail produces. */
  lemma HeadPrecedesRest(x: Candidate, s: seq<Candidate>, rest: seq<Candidate>, score: map<Candidate, int>)
    requires |s| > 0 && RankedBy(s, score) && s[0] in score && x in score
    requires !Precedes(score, x, s[0])
    requires multiset(rest) == multiset(s[1..]) + multiset{x}
    ensures forall j :: 0 <= j < |rest| ==> Precedes(score, s[0], rest[j])
  {
    forall j | 0 <= j < |rest| ensures Precedes(score, s[0], rest[j]) {
      assert rest[j] in multiset(rest);
      if rest[j] != x {
        assert rest[j] in multiset(s[1..]);
        var k :| 0 <= k < |s[1..]| && s[1..][k] == rest[j];
        assert Precedes(score, s[0], s[k + 1]);
      }
    }
  }

  /** `sorted(..., key=lambda x: (-x[1], x[0]))` over the candidates. */
  function SortByScore(cs: seq<Candidate>, score: map<Candidate, int>): (r: seq<Candidate>)
    requires forall c :: c in cs ==> c in score
    ensures multiset(r) == multiset(cs)
    ensures RankedBy(r, score)
  {
    if cs == [] then []
    else
      assert cs == [cs[0]] + cs[1..];
      var rest := SortByScore(cs[1..], score);
      assert forall c :: c in rest ==> c in cs[1..] by {
        forall c | c in rest ensures c in cs[1..] { assert c in multiset(rest); }
      }
      Insert(cs[0], rest, score)
  }

  // ---------------------------------------------------------------- Borda

  /** The length of the longest ballot (`max(len(b) for b in ballots)`). */
  function MaxLength(ballots: seq<Ballot>): (m: nat)
    requires |ballots| > 0
    ensures forall b :: b in ballots ==> |b| <= m
    ensures exists b :: b in ballots && |b| == m
  {
    if |ballots| == 1 then
      assert ballots[0] in ballots;
      |ballots[0]|
    else
      var m := MaxLength(ballots[1..]);
      assert forall b :: b in ballots ==> b == ballots[0] || b in ballots[1..];
      if |ballots[0]| > m then |ballots[0]| else m
  }

  /** Points c receives from ballot b: the entry at position i earns
      maxRank - i, so a candidate listed twice is credited twice. */
  function Points(b: Ballot, maxRank: int, c: Candidate): int {
    if b == [] then 0
    else Points(b[..|b| - 1], maxRank, c) + (if b[|b| - 1] == c then maxRank - (|b| - 1) else 0)
  }

  /** c's Borda score over all ballots. */
  function BordaScore(ballots: seq<Ballot>, maxRank: int, c: Candidate): int {
    if ballots == [] then 0
    else BordaScore(ballots[..|ballots| - 1], maxRank, c) + Points(ballots[|ballots| - 1], maxRank, c)
  }

  /** The score table `borda_ranking` sorts. */
  function BordaScores(ballots: seq<Ballot>, candidates: seq<Candidate>): map<Candidate, int>
    requires |ballots| > 0
  {
    map c | c in candidates :: BordaScore(ballots, MaxLength(ballots), c)
  }

  /** A candidate not on a ballot gets nothing from it. */
  lemma {:induction false} PointsAbsent(b: Ballot, maxRank: int, c: Candidate)
    requires c !in b
    ensures Points(b, maxRank, c) == 0
  {
    if b != [] {
      PointsAbsent(b[..|b| - 1], maxRank, c);
    }
  }

  /** A candidate listed once, at position i, gets exactly maxRank - i. */
  lemma {:induction false} PointsAt(b: Ballot, maxRank: int, i: nat)
    requires i < |b|
    requires forall j :: 0 <= j < |b| && j != i ==> b[j] != b[i]
    ensures Points(b, maxRank, b[i]) == maxRank - i
  {
    var front := b[..|b| - 1];
    if i == |b| - 1 {
      assert b[i] !in front;
      PointsAbsent(front, maxRank, b[i]);
    } else {
      assert front[i] == b[i];
      PointsAt(front, maxRank, i);
    }
  }

  /** With maxRank the longest ballot length, every mention earns at least one
      point, so no Borda score is negative. */
  lemma {:induction false} BordaScoreNonNegative(ballots: seq<Ballot>, maxRank: int, c: Candidate)
    requires forall b :: b in ballots ==> |b| <= maxRank
    ensures BordaScore(ballots, maxRank, c) >= 0
  {
    if ballots != [] {
      var front := ballots[..|ballots| - 1];
      assert forall b :: b in front ==> b in ballots;
      BordaScoreNonNegative(front, maxRank, c);
      PointsNonNegative(ballots[|ballots| - 1], maxRank, c);
    }
  }

  lemma {:induction false} PointsNonNegative(b: Ballot, maxRank: int, c: Candidate)
    requires |b| <= maxRank
    ensures Points(b, maxRank, c) >= 0
  {
    if b != [] {
      PointsNonNegative(b[..|b| - 1], maxRank, c);
    }
  }

  /** Every ballot entry is a candidate (otherwise `scores[c]` fails). */
  predicate OnlyCandidates(ballots: seq<Ballot>, candidates: seq<Candidate>) {
    forall k, i :: 0 <= k < |ballots| && 0 <= i < |ballots[k]| ==> ballots[k][i] in candidates
  }

  /** `borda_ranking`: every candidate exactly once, by descending Borda score
      (the entry at position i earns maxRank - i, maxRank the longest ballot),
      ties by ascending id. */
  method BordaRanking(ballots: seq<Ballot>, candidates: seq<Candidate>) returns (ranking: seq<Candidate>)
    requires |ballots| > 0
    requires OnlyCandidates(ballots, candidates)
    requires Distinct(candidates)
    ensures multiset(ranking) == multiset(candidates)
    ensures RankedBy(ranking, BordaScores(ballots, candidates))
  {
    var maxRank := MaxLength(ballots);
    var scores: map<Candidate, int> := map c | c in candidates :: 0;
    var k := 0;
    while k < |ballots|
      invariant 0 <= k <= |ballots|
      invariant forall c :: c in scores <==> c in candidates
      invariant forall c :: c in scores ==> scores[c] == BordaScore(ballots[..k], maxRank, c)
    {
      assert ballots[..k + 1][..k] == ballots[..k];
      assert forall i :: 0 <= i < |ballots[k]| ==> ballots[k][i] in candidates;
      scores := AddBallot(scores, ballots[k], maxRank);
      k := k + 1;
    }
    assert ballots[..k] == ballots;
    ranking := SortByScore(candidates, scores);
    forall c | c in ranking ensures c in candidates {
      assert c in multiset(ranking);
    }
    SameScoresSameOrder(ranking, scores, BordaScores(ballots, candidates));
  }

  /** The inner loop of `borda_ranking`: credit every entry of one ballot. */
  method AddBallot(scores0: map<Candidate, int>, b: Ballot, maxRank: int) returns (scores: map<Candidate, int>)
    requires forall i :: 0 <= i < |b| ==> b[i] in scores0
    ensures scores.Keys == scores0.Keys
    ensures forall c :: c in scores ==> scores[c] == scores0[c] + Points(b, maxRank, c)
  {
    scores := scores0;
    var i := 0;
    while i < |b|
      invariant 0 <= i <= |b|
      invariant scores.Keys == scores0.Keys
      invariant forall c :: c in scores ==> scores[c] == scores0[c] + Points(b[..i], maxRank, c)
    {
      assert b[..i + 1][..i] == b[..i];
      scores := scores[b[i] := scores[b[i]] + (maxRank - i)];
      i := i + 1;
    }
    assert b[..i] == b;
  }

  // ------------------------------------------------------------ Plurality

  /** The first entry of b that is a candidate, the one a ballot credits. */
  function FirstListed(b: Ballot, candidates: seq<Candidate>): (r: Option<Candidate>)
    ensures r.Some? ==> r.value in b && r.value in candidates
    ensures r.None? ==> forall c :: c in b ==> c !in candidates
  {
    if b == [] then None
    else if b[0] in candidates then
      assert b[0] in b;
      Some(b[0])
    else
      assert forall c :: c in b <==> c == b[0] || c in b[1..];
      FirstListed(b[1..], candidates)
  }

  /** The entry at i is credited exactly when no earlier entry is a candidate. */
  lemma {:induction false} FirstListedAt(b: Ballot, candidates: seq<Candidate>, i: nat)
    requires i < |b| && b[i] in candidates
    requires forall j :: 0 <= j < i ==> b[j] !in candidates
    ensures FirstListed(b, candidates) == Some(b[i])
  {
    if i > 0 {
      FirstListedAt(b[1..], candidates, i - 1);
    }
  }

  /** How many ballots credit c. */
  function PluralityCount(ballots: seq<Ballot>, candidates: seq<Candidate>, c: Candidate): nat {
    if ballots == [] then 0
    else
      var credited := FirstListed(ballots[|ballots| - 1], candidates) == Some(c);
      PluralityCount(ballots[..|ballots| - 1], candidates, c) + (if credited then 1 else 0)
  }

  /** The table `plurality_ranking` sorts: every candidate, 0 if never credited. */
  function PluralityCounts(ballots: seq<Ballot>, candidates: seq<Candidate>): map<Candidate, int> {
    map c | c in candidates :: PluralityCount(ballots, candidates, c)
  }

  /** A ballot credits at most one candidate, so the counts of distinct
      candidates add up to at most the number of ballots. */
  lemma {:induction false} PluralityCountsTotal(ballots: seq<Ballot>, candidates: seq<Candidate>, cs: seq<Candidate>)
    requires Distinct(cs)
    ensures SumCounts(ballots, candidates, cs) <= |ballots|
  {
    if ballots == [] {
      SumCountsNoBallots(candidates, cs);
    } else {
      var front := ballots[..|ballots| - 1];
      assert front + [ballots[|ballots| - 1]] == ballots;
      PluralityCountsTotal(front, candidates, cs);
      SumCountsStep(front, ballots[|ballots| - 1], candidates, cs);
      assert SumCounts(front, candidates, cs) <= |front|;
      assert SumCounts(ballots, candidates, cs) <= SumCounts(front, candidates, cs) + 1;
    }
  }

  lemma {:induction false} SumCountsNoBallots(candidates: seq<Candidate>, cs: seq<Candidate>)
    ensures SumCounts([], candidates, cs) == 0
  {
    if cs != [] {
      SumCountsNoBallots(candidates, cs[1..]);
    }
  }

  /** The counts of the candidates cs, added up. */
  function SumCounts(ballots: seq<Ballot>, candidates: seq<Candidate>, cs: seq<Candidate>): nat {
    if cs == [] then 0 else PluralityCount(ballots, candidates, cs[0]) + SumCounts(ballots, candidates, cs[1..])
  }

  lemma {:induction false} SumCountsStep(front: seq<Ballot>, b: Ballot, candidates: seq<Candidate>, cs: seq<Candidate>)
    requires Distinct(cs)
    ensures SumCounts(front + [b], candidates, cs)
         <= SumCounts(front, candidates, cs) + 1
    ensures FirstListed(b, candidates).None? ==>
            SumCounts(front + [b], candidates, cs) == SumCounts(front, candidates, cs)
    ensures FirstListed(b, candidates).Some? && FirstListed(b, candidates).value !in cs ==>
            SumCounts(front + [b], candidates, cs) == SumCounts(front, candidates, cs)
  {
    var all := front + [b];
    assert all[..|all| - 1] == front;
    if cs != [] {
      assert Distinct(cs[1..]);
      SumCountsStep(front, b, candidates, cs[1..]);
      if FirstListed(b, candidates) == Some(cs[0]) {
        assert cs[0] !in cs[1..];
      }
    }
  }

  /** `plurality_ranking` as a rule value: the candidates sorted by the
      `(-count, id)` key. */
  function PluralityRule(ballots: seq<Ballot>, candidates: seq<Candidate>): seq<Candidate> {
    SortByScore(candidates, PluralityCounts(ballots, candidates))
  }

  /** Whatever PluralityRanking returns is that rule's ranking. */
  lemma PluralityRankingIsRule(ballots: seq<Ballot>, candidates: seq<Candidate>, ranking: seq<Candidate>)
    requires multiset(ranking) == multiset(candidates)
    requires RankedBy(ranking, PluralityCounts(ballots, candidates))
    ensures ranking == PluralityRule(ballots, candidates)
  {
    RankedUnique(ranking, PluralityRule(ballots, candidates), PluralityCounts(ballots, candidates));
  }

  /** `plurality_ranking`: every candidate exactly once, by descending count
      of ballots whose first candidate entry names it, ties by ascending id. */
  method PluralityRanking(ballots: seq<Ballot>, candidates: seq<Candidate>) returns (ranking: seq<Candidate>)
    requires Distinct(candidates)
    ensures multiset(ranking) == multiset(candidates)
    ensures RankedBy(ranking, PluralityCounts(ballots, candidates))
  {
    var counts: map<Candidate, int> := map[];
    var k := 0;
    while k < |ballots|
      invariant 0 <= k <= |ballots|
      invariant forall c :: c in counts ==> c in candidates
      invariant forall c :: c in candidates ==>
        (if c in counts then counts[c] else 0) == PluralityCount(ballots[..k], candidates, c)
    {
      var b := ballots[k];
      assert ballots[..k + 1][..k] == ballots[..k];
      ghost var before := counts;
      var i := 0;
      while i < |b|
        invariant 0 <= i <= |b|
        invariant counts == before
        invariant forall j :: 0 <= j < i ==> b[j] !in candidates
      {
        if b[i] in candidates {
          var c := b[i];
          counts := counts[c := (if c in counts then counts[c] else 0) + 1];
          FirstListedAt(b, candidates, i);
          break;
        }
        i := i + 1;
      }
      k := k + 1;
    }
    assert ballots[..k] == ballots;
    var n := 0;
    while n < |candidates|
      invariant 0 <= n <= |candidates|
      invariant forall c :: c in counts ==> c in candidates
      invariant forall c :: c in candidates[..n] ==> c in counts
      invariant forall c :: c in candidates ==>
        (if c in counts then counts[c] else 0) == PluralityCount(ballots, candidates, c)
    {
      var c := candidates[n];
      if c !in counts {
        counts := counts[c := 0];
      }
      assert candidates[..n + 1] == candidates[..n] + [c];
      n := n + 1;
    }
    assert candidates[..n] == candidates;
    forall c | c in candidates ensures c in counts {
      assert c in candidates[..n];
    }
    ranking := SortByScore(candidates, counts);
    forall c | c in ranking ensures c in candidates {
      assert c in multiset(ranking);
    }
    SameScoresSameOrder(ranking, counts, PluralityCounts(ballots, candidates));
  }
}

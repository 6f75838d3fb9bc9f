/** The unanimity/majority metrics of notebooks/fairness_metric.py: σ_UM over
    a ranking rule, its seat-count wrapper σ_UF_STV, and the winner-set
    version. The closing `(2/π)·arcsin(√x)` is the parameter `scale`. */
module NotebookUM {
  import opened Common
  import opened Votekit
  import NotebookIIA

  /** What one ballot adds to (A_over_B, B_over_A): an empty ballot nothing;
      when both are ranked, the strictly better group takes the weight and a
      shared group gives nothing; a lone ranked candidate takes the weight;
      when neither is ranked each side takes half. */
  function Credit(b: Ballot, x: string, y: string): (real, real) {
    if b.ranking == [] then (0.0, 0.0)
    else match (RankOf(b.ranking, x), RankOf(b.ranking, y))
      case (Some(rx), Some(ry)) =>
        if rx < ry then (b.weight, 0.0) else if ry < rx then (0.0, b.weight) else (0.0, 0.0)
      case (Some(_), None) => (b.weight, 0.0)
      case (None, Some(_)) => (0.0, b.weight)
      case (None, None) => (0.5 * b.weight, 0.5 * b.weight)
  }

  /** (A_over_B, B_over_A) summed over the ballots. */
  function Tally(ballots: seq<Ballot>, x: string, y: string): (real, real) {
    if ballots == [] then (0.0, 0.0)
    else
      var t := Tally(ballots[..|ballots| - 1], x, y);
      var c := Credit(ballots[|ballots| - 1], x, y);
      (t.0 + c.0, t.1 + c.1)
  }

  /** The ballot loop of `sigma_UM`. */
  method TallyPair(ballots: seq<Ballot>, x: string, y: string) returns (aOverB: real, bOverA: real)
    ensures (aOverB, bOverA) == Tally(ballots, x, y)
  {
    aOverB, bOverA := 0.0, 0.0;
    for k := 0 to |ballots|
      invariant (aOverB, bOverA) == Tally(ballots[..k], x, y)
    {
      TallyStep(ballots, k, x, y);
      if ballots[k].ranking == [] {
        continue;
      }
      var toX, toY := BallotCredit(ballots[k], x, y);
      aOverB, bOverA := aOverB + toX, bOverA + toY;
    }
    assert ballots[..|ballots|] == ballots;
  }

  /** The body of that loop for a ballot that ranks someone, as the source
      writes it with assignments; Credit is its specification. */
  method BallotCredit(b: Ballot, x: string, y: string) returns (toX: real, toY: real)
    requires b.ranking != []
    ensures (toX, toY) == Credit(b, x, y)
  {
    var weight := b.weight;
    var rankX := RankOf(b.ranking, x);
    var rankY := RankOf(b.ranking, y);
    toX, toY := 0.0, 0.0;
    if rankX.Some? && rankY.Some? {
      if rankX.value < rankY.value {
        toX := weight;
      } else if rankY.value < rankX.value {
        toY := weight;
      }
    } else if rankX.Some? && rankY.None? {
      toX := weight;
    } else if rankY.Some? && rankX.None? {
      toY := weight;
    } else {
      toX, toY := 0.5 * weight, 0.5 * weight;
    }
  }

  /** The ballot loop of `sigma_UM_winner_set`, which keeps only A_over_B. */
  method TallyOver(ballots: seq<Ballot>, x: string, y: string) returns (aOverB: real)
    ensures aOverB == Tally(ballots, x, y).0
  {
    aOverB := 0.0;
    for k := 0 to |ballots|
      invariant aOverB == Tally(ballots[..k], x, y).0
    {
      TallyStep(ballots, k, x, y);
      var weight := ballots[k].weight;
      if ballots[k].ranking == [] {
        continue;
      }
      var rankX := RankOf(ballots[k].ranking, x);
      var rankY := RankOf(ballots[k].ranking, y);
      if rankX.Some? && rankY.Some? {
        if rankX.value < rankY.value {
          aOverB := aOverB + weight;
        }
      } else if rankX.Some? && rankY.None? {
        aOverB := aOverB + weight;
      } else if rankX.None? && rankY.None? {
        aOverB := aOverB + 0.5 * weight;
      }
    }
    assert ballots[..|ballots|] == ballots;
  }

  lemma TallyStep(ballots: seq<Ballot>, k: nat, x: string, y: string)
    requires k < |ballots|
    ensures Tally(ballots[..k + 1], x, y) ==
            (Tally(ballots[..k], x, y).0 + Credit(ballots[k], x, y).0,
             Tally(ballots[..k], x, y).1 + Credit(ballots[k], x, y).1)
  {
    assert ballots[..k + 1][..k] == ballots[..k];
  }

  /** A ballot's weight is split between the two sides, except that an empty
      ballot and a ballot placing both in the same group give nothing. */
  lemma CreditSplit(b: Ballot, x: string, y: string)
    requires b.weight >= 0.0
    ensures Credit(b, x, y).0 >= 0.0 && Credit(b, x, y).1 >= 0.0
    ensures Credit(b, x, y).0 + Credit(b, x, y).1 ==
            if b.ranking == [] || (RankOf(b.ranking, x).Some? && RankOf(b.ranking, x) == RankOf(b.ranking, y))
            then 0.0 else b.weight
  {
  }

  /** Exchanging the pair exchanges the two counts. */
  lemma {:induction false} TallySwap(ballots: seq<Ballot>, x: string, y: string)
    ensures Tally(ballots, y, x) == (Tally(ballots, x, y).1, Tally(ballots, x, y).0)
  {
    if ballots != [] {
      TallySwap(ballots[..|ballots| - 1], x, y);
    }
  }

  /** With weights of at least zero, both counts are at least zero and
      together at most the total weight. */
  lemma {:induction false} TallyBound(ballots: seq<Ballot>, x: string, y: string)
    requires NonNegativeWeights(ballots)
    ensures Tally(ballots, x, y).0 >= 0.0 && Tally(ballots, x, y).1 >= 0.0
    ensures Tally(ballots, x, y).0 + Tally(ballots, x, y).1 <= TotalWeight(ballots)
  {
    if ballots != [] {
      var init := ballots[..|ballots| - 1];
      assert NonNegativeWeights(init) by {
        forall k | 0 <= k < |init| ensures init[k].weight >= 0.0 {
          assert init[k] == ballots[k];
        }
      }
      TallyBound(init, x, y);
      CreditSplit(ballots[|ballots| - 1], x, y);
    }
  }

  /** When every ballot puts x in a strictly better group than y (or ranks x
      and leaves y out), x collects the whole weight and y nothing. */
  lemma {:induction false} UnanimousTally(ballots: seq<Ballot>, x: string, y: string)
    requires forall k :: 0 <= k < |ballots| ==> Prefers(ballots[k], x, y)
    ensures Tally(ballots, x, y) == (TotalWeight(ballots), 0.0)
  {
    if ballots != [] {
      UnanimousTally(ballots[..|ballots| - 1], x, y);
    }
  }

  predicate Prefers(b: Ballot, x: string, y: string) {
    RankOf(b.ranking, x).Some? &&
    (RankOf(b.ranking, y).None? || RankOf(b.ranking, x).value < RankOf(b.ranking, y).value)
  }

  /** (SA, SB): the two counts of the i-th and j-th candidates as shares of
      the total weight. */
  function Shares(p: Profile, i: nat, j: nat): (real, real)
    requires i < j < |p.candidates| && TotalWeight(p.ballots) != 0.0
  {
    var t := Tally(p.ballots, p.candidates[i], p.candidates[j]);
    (t.0 / TotalWeight(p.ballots), t.1 / TotalWeight(p.ballots))
  }

  function MaxShare(s: (real, real)): real {
    if s.0 >= s.1 then s.0 else s.1
  }

  /** A pair the loop does not skip: someone supports one side over the other. */
  predicate Informative(p: Profile, i: nat, j: nat)
    requires i < j < |p.candidates| && TotalWeight(p.ballots) != 0.0
  {
    MaxShare(Shares(p, i, j)) != 0.0
  }

  /** Every candidate the loop looks up in the outcome ranking is in it. */
  predicate RankedWhereLookedUp(p: Profile, ranking: seq<string>)
    requires TotalWeight(p.ballots) != 0.0
  {
    forall i, j :: 0 <= i < j < |p.candidates| && Informative(p, i, j) ==>
      p.candidates[i] in ranking && p.candidates[j] in ranking
  }

  /** The share of whichever of the two the ranking places higher, relative
      to the larger share. */
  function Ratio(p: Profile, ranking: seq<string>, i: nat, j: nat): real
    requires i < j < |p.candidates| && TotalWeight(p.ballots) != 0.0
    requires Informative(p, i, j)
    requires p.candidates[i] in ranking && p.candidates[j] in ranking
  {
    var s := Shares(p, i, j);
    if PosOf(ranking, p.candidates[i]) < PosOf(ranking, p.candidates[j])
    then s.0 / MaxShare(s)
    else s.1 / MaxShare(s)
  }

  /** With weights of at least zero, a ratio lies in [0, 1], and it is 1
      exactly when the ranking places higher the side with the larger share. */
  lemma RatioRange(p: Profile, ranking: seq<string>, i: nat, j: nat)
    requires i < j < |p.candidates| && TotalWeight(p.ballots) != 0.0
    requires NonNegativeWeights(p.ballots)
    requires Informative(p, i, j)
    requires p.candidates[i] in ranking && p.candidates[j] in ranking
    ensures 0.0 <= Ratio(p, ranking, i, j) <= 1.0
    ensures Ratio(p, ranking, i, j) == 1.0 <==> Agrees(p, ranking, i, j)
  {
    var s := Shares(p, i, j);
    SharesNonNegative(p, i, j);
    var mx := MaxShare(s);
    FractionOfMax(s.0, mx);
    FractionOfMax(s.1, mx);
  }

  lemma SharesNonNegative(p: Profile, i: nat, j: nat)
    requires i < j < |p.candidates| && TotalWeight(p.ballots) != 0.0
    requires NonNegativeWeights(p.ballots)
    ensures Shares(p, i, j).0 >= 0.0 && Shares(p, i, j).1 >= 0.0
  {
    var t := Tally(p.ballots, p.candidates[i], p.candidates[j]);
    var n := TotalWeight(p.ballots);
    TallyBound(p.ballots, p.candidates[i], p.candidates[j]);
    assert n > 0.0;
    NonNegativeQuotient(t.0, n);
    NonNegativeQuotient(t.1, n);
  }

  lemma NonNegativeQuotient(a: real, n: real)
    requires a >= 0.0 && n > 0.0
    ensures a / n >= 0.0
  {
  }

  /** The ranking places higher a side whose share is at least the other's. */
  predicate Agrees(p: Profile, ranking: seq<string>, i: nat, j: nat)
    requires i < j < |p.candidates| && TotalWeight(p.ballots) != 0.0
    requires p.candidates[i] in ranking && p.candidates[j] in ranking
  {
    var s := Shares(p, i, j);
    if PosOf(ranking, p.candidates[i]) < PosOf(ranking, p.candidates[j]) then s.0 >= s.1 else s.1 >= s.0
  }

  lemma FractionOfMax(a: real, mx: real)
    requires 0.0 <= a <= mx && mx > 0.0
    ensures 0.0 <= a / mx <= 1.0
    ensures a / mx == 1.0 <==> a == mx
  {
    assert (a / mx) * mx == a;
  }

  /** Pairs (a, b), a < b, that the nested loops have visited before
      reaching (i, j). */
  predicate Processed(n: nat, a: int, b: int, i: int, j: int) {
    0 <= a < b < n && (a < i || (a == i && b < j))
  }

  /** m is at most the ratio of every informative pair visited before (i, j). */
  ghost predicate LowerBound(p: Profile, ranking: seq<string>, m: real, i: int, j: int)
    requires TotalWeight(p.ballots) != 0.0 && RankedWhereLookedUp(p, ranking)
  {
    forall a, b :: Processed(|p.candidates|, a, b, i, j) && Informative(p, a, b) ==> m <= Ratio(p, ranking, a, b)
  }

  /** No informative pair was visited before (i, j). */
  ghost predicate NoneSoFar(p: Profile, i: int, j: int)
    requires TotalWeight(p.ballots) != 0.0
  {
    forall a, b :: Processed(|p.candidates|, a, b, i, j) ==> !Informative(p, a, b)
  }

  /** m is the ratio of the informative pair (a, b). */
  ghost predicate Attained(p: Profile, ranking: seq<string>, m: real, a: int, b: int)
    requires TotalWeight(p.ballots) != 0.0 && RankedWhereLookedUp(p, ranking)
  {
    0 <= a < b < |p.candidates| && Informative(p, a, b) && m == Ratio(p, ranking, a, b)
  }

  /** m is `min_ratio` after all pairs: min(1, every informative pair's ratio). */
  ghost predicate IsMinRatio(p: Profile, ranking: seq<string>, m: real)
    requires TotalWeight(p.ballots) != 0.0 && RankedWhereLookedUp(p, ranking)
  {
    m <= 1.0 && LowerBound(p, ranking, m, |p.candidates|, 0) &&
    (m == 1.0 || exists a, b :: Attained(p, ranking, m, a, b))
  }

  /** Some pair is informative. */
  ghost predicate SomeInformative(p: Profile)
    requires TotalWeight(p.ballots) != 0.0
  {
    exists a, b :: 0 <= a < b < |p.candidates| && Informative(p, a, b)
  }

  /** `sigma_UM(profile, voting_rule)`. The source reads `min_majority` after
      the loops, so some pair must be informative (which also rules out a
      total weight of 0, whose division would fail first). */
  method SigmaUM(profile: Profile, rule: Profile -> seq<string>, scale: real -> real) returns (sigma: real)
    requires TotalWeight(profile.ballots) != 0.0
    requires NonNegativeWeights(profile.ballots)
    requires RankedWhereLookedUp(profile, rule(profile))
    requires SomeInformative(profile)
    ensures exists m :: IsMinRatio(profile, rule(profile), m) && 0.0 <= m <= 1.0 &&
                        sigma == scale(2.0 * MinMajority(m))
  {
    var ranking := rule(profile);
    var minRatio, minMajority := MinRatioScan(profile, ranking);
    sigma := scale(2.0 * minMajority);
    assert IsMinRatio(profile, rule(profile), minRatio) && 0.0 <= minRatio <= 1.0 &&
           sigma == scale(2.0 * MinMajority(minRatio));
  }

  /** The pair loops of `sigma_UM`: the smallest ratio over the informative
      pairs (capped at 1) and the `min_majority` it gives. */
  method MinRatioScan(profile: Profile, ranking: seq<string>) returns (minRatio: real, minMajority: real)
    requires TotalWeight(profile.ballots) != 0.0
    requires NonNegativeWeights(profile.ballots)
    requires RankedWhereLookedUp(profile, ranking)
    requires SomeInformative(profile)
    ensures IsMinRatio(profile, ranking, minRatio) && 0.0 <= minRatio <= 1.0
    ensures minMajority == MinMajority(minRatio)
  {
    var candidates := profile.candidates;
    minRatio := 1.0;
    minMajority := 0.0;
    ghost var seen := false;
    ghost var wa, wb := 0, 0;
    for i := 0 to |candidates|
      invariant Scanned(profile, ranking, minRatio, minMajority, seen, wa, wb, i, 0)
    {
      ScanRowStart(profile, ranking, minRatio, minMajority, seen, wa, wb, i);
      minRatio, minMajority, seen, wa, wb := ScanRow(profile, ranking, i, minRatio, minMajority, seen, wa, wb);
      ScanRowEnd(profile, ranking, minRatio, minMajority, seen, wa, wb, i);
    }
    ScanDone(profile, ranking, minRatio, minMajority, seen, wa, wb);
  }

  /** The inner loop of `sigma_UM`: the pairs (i, j) for j after i. */
  method ScanRow(profile: Profile, ranking: seq<string>, i: nat,
                 minRatio0: real, minMajority0: real, ghost seen0: bool, ghost wa0: int, ghost wb0: int)
    returns (minRatio: real, minMajority: real, ghost seen: bool, ghost wa: int, ghost wb: int)
    requires i < |profile.candidates| && TotalWeight(profile.ballots) != 0.0
    requires NonNegativeWeights(profile.ballots) && RankedWhereLookedUp(profile, ranking)
    requires Scanned(profile, ranking, minRatio0, minMajority0, seen0, wa0, wb0, i, i + 1)
    ensures Scanned(profile, ranking, minRatio, minMajority, seen, wa, wb, i, |profile.candidates|)
  {
    minRatio, minMajority, seen, wa, wb := minRatio0, minMajority0, seen0, wa0, wb0;
    for j := i + 1 to |profile.candidates|
      invariant Scanned(profile, ranking, minRatio, minMajority, seen, wa, wb, i, j)
    {
      var informative, ratio := ComparePair(profile, ranking, i, j);
      if !informative {
        ScanSkip(profile, ranking, minRatio, minMajority, seen, wa, wb, i, j);
        continue;
      }
      ScanCount(profile, ranking, minRatio, minMajority, seen, wa, wb, i, j);
      if ratio < minRatio {
        wa, wb := i, j;
      }
      minRatio := if ratio < minRatio then ratio else minRatio;
      minMajority := MinMajority(minRatio);
      seen := true;
    }
  }

  /** The state of the pair loops before pair (i, j): `min_ratio` bounds
      every visited informative ratio from below and is 1 or the ratio of
      the pair (wa, wb); `seen` records whether an informative pair was
      visited, and once one was, `min_majority` follows `min_ratio`. */
  ghost predicate Scanned(p: Profile, ranking: seq<string>, minRatio: real, minMajority: real,
                          seen: bool, wa: int, wb: int, i: int, j: int)
    requires TotalWeight(p.ballots) != 0.0 && RankedWhereLookedUp(p, ranking)
  {
    0.0 <= minRatio <= 1.0 &&
    LowerBound(p, ranking, minRatio, i, j) &&
    (minRatio == 1.0 || Attained(p, ranking, minRatio, wa, wb)) &&
    (seen || NoneSoFar(p, i, j)) &&
    (seen ==> minMajority == MinMajority(minRatio))
  }

  lemma ScanRowStart(p: Profile, ranking: seq<string>, minRatio: real, minMajority: real,
                     seen: bool, wa: int, wb: int, i: int)
    requires TotalWeight(p.ballots) != 0.0 && RankedWhereLookedUp(p, ranking)
    requires Scanned(p, ranking, minRatio, minMajority, seen, wa, wb, i, 0)
    ensures Scanned(p, ranking, minRatio, minMajority, seen, wa, wb, i, i + 1)
  {
    RowStart(p, ranking, minRatio, i);
  }

  lemma ScanRowEnd(p: Profile, ranking: seq<string>, minRatio: real, minMajority: real,
                   seen: bool, wa: int, wb: int, i: int)
    requires TotalWeight(p.ballots) != 0.0 && RankedWhereLookedUp(p, ranking)
    requires Scanned(p, ranking, minRatio, minMajority, seen, wa, wb, i, |p.candidates|)
    ensures Scanned(p, ranking, minRatio, minMajority, seen, wa, wb, i + 1, 0)
  {
    RowEnd(p, ranking, minRatio, i);
  }

  lemma ScanSkip(p: Profile, ranking: seq<string>, minRatio: real, minMajority: real,
                 seen: bool, wa: int, wb: int, i: nat, j: nat)
    requires i < j < |p.candidates| && TotalWeight(p.ballots) != 0.0 && RankedWhereLookedUp(p, ranking)
    requires !Informative(p, i, j)
    requires Scanned(p, ranking, minRatio, minMajority, seen, wa, wb, i, j)
    ensures Scanned(p, ranking, minRatio, minMajority, seen, wa, wb, i, j + 1)
  {
    PairSkipped(p, ranking, minRatio, i, j);
  }

  lemma ScanCount(p: Profile, ranking: seq<string>, minRatio: real, minMajority: real,
                  seen: bool, wa: int, wb: int, i: nat, j: nat)
    requires i < j < |p.candidates| && TotalWeight(p.ballots) != 0.0 && RankedWhereLookedUp(p, ranking)
    requires NonNegativeWeights(p.ballots)
    requires Informative(p, i, j)
    requires Scanned(p, ranking, minRatio, minMajority, seen, wa, wb, i, j)
    ensures p.candidates[i] in ranking && p.candidates[j] in ranking
    ensures var r := Ratio(p, ranking, i, j);
            var m := if r < minRatio then r else minRatio;
            m >= 0.0 &&
            Scanned(p, ranking, m, MinMajority(m), true,
                    if r < minRatio then i else wa, if r < minRatio then j else wb, i, j + 1)
  {
    PairCounted(p, ranking, minRatio, i, j);
    RatioRange(p, ranking, i, j);
  }

  /** After the last row the running minimum is `min_ratio`, and some pair
      was informative, so `min_majority` is set. */
  lemma ScanDone(p: Profile, ranking: seq<string>, minRatio: real, minMajority: real,
                 seen: bool, wa: int, wb: int)
    requires TotalWeight(p.ballots) != 0.0 && RankedWhereLookedUp(p, ranking)
    requires SomeInformative(p)
    requires Scanned(p, ranking, minRatio, minMajority, seen, wa, wb, |p.candidates|, 0)
    ensures IsMinRatio(p, ranking, minRatio) && 0.0 <= minRatio <= 1.0
    ensures minMajority == MinMajority(minRatio)
  {
    var n := |p.candidates|;
    var a, b :| 0 <= a < b < n && Informative(p, a, b);
    assert Processed(n, a, b, n, 0);
  }

  /** The body of the pair loops: the pair's tally, its shares, and the ratio
      of the side the ranking places higher; `informative` is false where the
      loop skips the pair. */
  method ComparePair(profile: Profile, ranking: seq<string>, i: nat, j: nat)
    returns (informative: bool, ratio: real)
    requires i < j < |profile.candidates| && TotalWeight(profile.ballots) != 0.0
    requires RankedWhereLookedUp(profile, ranking)
    ensures informative == Informative(profile, i, j)
    ensures informative ==> ratio == Ratio(profile, ranking, i, j)
  {
    var n := TotalWeight(profile.ballots);
    var a := profile.candidates[i];
    var b := profile.candidates[j];
    var aOverB, bOverA := TallyPair(profile.ballots, a, b);
    var sa := aOverB / n;
    var sb := bOverA / n;
    var maxSupport := if sa >= sb then sa else sb;
    assert (sa, sb) == Shares(profile, i, j);
    if maxSupport == 0.0 {
      return false, 0.0;
    }
    assert a in ranking && b in ranking;
    if PosOf(ranking, a) < PosOf(ranking, b) {
      ratio := sa / maxSupport;
    } else {
      ratio := sb / maxSupport;
    }
    informative := true;
  }

  /** Visiting an informative pair lowers the bound to the pair's ratio when
      that is smaller. */
  lemma PairCounted(p: Profile, ranking: seq<string>, m: real, i: nat, j: nat)
    requires i < j < |p.candidates| && TotalWeight(p.ballots) != 0.0 && RankedWhereLookedUp(p, ranking)
    requires Informative(p, i, j)
    requires LowerBound(p, ranking, m, i, j)
    ensures p.candidates[i] in ranking && p.candidates[j] in ranking
    ensures var r := Ratio(p, ranking, i, j);
            LowerBound(p, ranking, if r < m then r else m, i, j + 1)
  {
  }

  /** Skipping a pair with no information changes nothing. */
  lemma PairSkipped(p: Profile, ranking: seq<string>, m: real, i: nat, j: nat)
    requires i < j < |p.candidates| && TotalWeight(p.ballots) != 0.0 && RankedWhereLookedUp(p, ranking)
    requires !Informative(p, i, j)
    requires LowerBound(p, ranking, m, i, j)
    ensures LowerBound(p, ranking, m, i, j + 1)
    ensures NoneSoFar(p, i, j) ==> NoneSoFar(p, i, j + 1)
  {
  }

  /** Before a row's first pair, the visited pairs are the earlier rows. */
  lemma RowStart(p: Profile, ranking: seq<string>, m: real, i: int)
    requires TotalWeight(p.ballots) != 0.0 && RankedWhereLookedUp(p, ranking)
    ensures LowerBound(p, ranking, m, i, 0) <==> LowerBound(p, ranking, m, i, i + 1)
    ensures NoneSoFar(p, i, 0) <==> NoneSoFar(p, i, i + 1)
  {
    var n := |p.candidates|;
    assert forall a, b :: Processed(n, a, b, i, 0) <==> Processed(n, a, b, i, i + 1);
  }

  /** After a row's last pair, the visited pairs are the rows up to it. */
  lemma RowEnd(p: Profile, ranking: seq<string>, m: real, i: int)
    requires TotalWeight(p.ballots) != 0.0 && RankedWhereLookedUp(p, ranking)
    ensures LowerBound(p, ranking, m, i, |p.candidates|) <==> LowerBound(p, ranking, m, i + 1, 0)
    ensures NoneSoFar(p, i, |p.candidates|) <==> NoneSoFar(p, i + 1, 0)
  {
    var n := |p.candidates|;
    assert forall a, b :: Processed(n, a, b, i, n) <==> Processed(n, a, b, i + 1, 0);
  }

  /** The minimum ratio is determined by the profile and the ranking. */
  lemma MinRatioUnique(p: Profile, ranking: seq<string>, m1: real, m2: real)
    requires TotalWeight(p.ballots) != 0.0 && RankedWhereLookedUp(p, ranking)
    requires IsMinRatio(p, ranking, m1) && IsMinRatio(p, ranking, m2)
    ensures m1 == m2
  {
    var n := |p.candidates|;
    if m1 != 1.0 {
      var a, b :| Attained(p, ranking, m1, a, b);
      assert Processed(n, a, b, n, 0);
    }
    if m2 != 1.0 {
      var a, b :| Attained(p, ranking, m2, a, b);
      assert Processed(n, a, b, n, 0);
    }
  }

  /** `min_ratio / (min_ratio + 1)`: the smallest ratio turned into the
      share of a two-way split. */
  function MinMajority(minRatio: real): real
    requires minRatio >= 0.0
  {
    minRatio / (minRatio + 1.0)
  }

  /** `min_majority` lies in [0, 1/2] and is 1/2 exactly when the minimum
      ratio is 1. */
  lemma MinMajorityRange(m: real)
    requires 0.0 <= m <= 1.0
    ensures 0.0 <= MinMajority(m) <= 0.5
    ensures MinMajority(m) == 0.5 <==> m == 1.0
  {
    var q := m / (m + 1.0);
    assert q * (m + 1.0) == m;
    var c := m + 1.0;
    assert q * c == m && 0.5 * c - m == 0.5 * (1.0 - m);
    ScaledOrder(q, 0.5, c);
    assert q * c <= 0.5 * c;
    ScaledOrder(0.0, q, c);
  }

  /** Multiplying by a positive factor keeps the order of two reals. */
  lemma ScaledOrder(a: real, b: real, c: real)
    requires c > 0.0
    ensures a <= b <==> a * c <= b * c
    ensures a == b <==> a * c == b * c
  {
    assert b * c - a * c == (b - a) * c;
    if a < b {
      assert (b - a) * c > 0.0;
    } else if b < a {
      assert (a - b) * c > 0.0;
    }
  }

  /** A rule that never places the side with the smaller share higher
      reaches the largest `min_majority`, 1/2, so its score is scale(1). */
  lemma AgreeingRuleScoresTop(p: Profile, ranking: seq<string>, m: real)
    requires TotalWeight(p.ballots) != 0.0 && NonNegativeWeights(p.ballots)
    requires RankedWhereLookedUp(p, ranking)
    requires forall a, b :: 0 <= a < b < |p.candidates| && Informative(p, a, b) ==> Agrees(p, ranking, a, b)
    requires IsMinRatio(p, ranking, m)
    ensures m == 1.0 && 2.0 * MinMajority(m) == 1.0
  {
    var n := |p.candidates|;
    if m != 1.0 {
      var a, b :| Attained(p, ranking, m, a, b);
      RatioRange(p, ranking, a, b);
    }
  }

  /** `sigma_UF_STV(profile, voting_rule, seats)`: σ_UM of the ranking that
      the rule produces with the given seat count. */
  method SigmaUFSTV(profile: Profile, rule: (Profile, int) -> seq<string>, seats: int, scale: real -> real)
    returns (sigma: real)
    requires TotalWeight(profile.ballots) != 0.0
    requires NonNegativeWeights(profile.ballots)
    requires RankedWhereLookedUp(profile, rule(profile, seats))
    requires SomeInformative(profile)
    ensures exists m :: IsMinRatio(profile, rule(profile, seats), m) && 0.0 <= m <= 1.0 &&
                        sigma == scale(2.0 * MinMajority(m))
  {
    sigma := SigmaUM(profile, NotebookIIA.WithSeats(rule, seats), scale);
  }

  /** No winner faces a loser: the winner set is empty or holds every
      candidate, so the loops compare nothing. */
  predicate NoContest(p: Profile, winners: set<string>) {
    winners == {} || forall k :: 0 <= k < |p.candidates| ==> p.candidates[k] in winners
  }

  /** `A_over_B / N` of the winner-set metric. */
  function Support(p: Profile, x: string, y: string): real
    requires TotalWeight(p.ballots) != 0.0
  {
    Tally(p.ballots, x, y).0 / TotalWeight(p.ballots)
  }

  /** (x, the k-th candidate) is a winner-loser pair the loops have reached:
      x was finished, or x is the current winner a and k is before upto. */
  predicate Faced(p: Profile, winners: set<string>, done: set<string>, a: string, upto: int, x: string, k: int) {
    x in winners && 0 <= k < |p.candidates| && p.candidates[k] !in winners &&
    (x in done || (x == a && k < upto))
  }

  /** The state of the winner-set loops: `min_majority` is at most 1 and at
      most every support reached so far, and is 1 or the support of the
      winner wx over the wk-th candidate. */
  ghost predicate WinnerScanned(p: Profile, winners: set<string>, done: set<string>, a: string, upto: int,
                                m: real, wx: string, wk: int)
    requires TotalWeight(p.ballots) != 0.0 || NoContest(p, winners)
  {
    m <= 1.0 &&
    (forall x, k :: Faced(p, winners, done, a, upto, x, k) ==> m <= Support(p, x, p.candidates[k])) &&
    (m == 1.0 || (Faced(p, winners, winners, "", 0, wx, wk) && m == Support(p, wx, p.candidates[wk])))
  }

  /** m is `min_majority` after the loops: min(1, every winner's support
      over every loser). */
  ghost predicate IsMinSupport(p: Profile, winners: set<string>, m: real)
    requires TotalWeight(p.ballots) != 0.0 || NoContest(p, winners)
  {
    m <= 1.0 &&
    (forall x, k :: Faced(p, winners, winners, "", 0, x, k) ==> m <= Support(p, x, p.candidates[k])) &&
    (m == 1.0 || exists x, k :: Faced(p, winners, winners, "", 0, x, k) && m == Support(p, x, p.candidates[k]))
  }

  /** `sigma_UM_winner_set(profile, voting_rule, seats)`. `elect` stands for
      running the rule and flattening `get_elected()` to a set; the set is
      walked in an unspecified order. The division by the total weight fails
      only when some winner faces a loser. */
  method SigmaUMWinnerSet(profile: Profile, elect: (Profile, int) -> set<string>, seats: int,
                          scale: real -> real) returns (sigma: real)
    requires TotalWeight(profile.ballots) != 0.0 || NoContest(profile, elect(profile, seats))
    ensures exists m :: IsMinSupport(profile, elect(profile, seats), m) &&
                        sigma == if m >= 0.5 then 1.0 else scale(2.0 * m)
  {
    var winnersSet := elect(profile, seats);
    var minMajority := MinSupportScan(profile, winnersSet);
    sigma := if minMajority >= 0.5 then 1.0 else scale(2.0 * minMajority);
    assert IsMinSupport(profile, elect(profile, seats), minMajority) &&
           sigma == if minMajority >= 0.5 then 1.0 else scale(2.0 * minMajority);
  }

  /** The loops of `sigma_UM_winner_set`: every winner against every loser,
      keeping the smallest support (starting from 1). */
  method MinSupportScan(profile: Profile, winnersSet: set<string>) returns (minMajority: real)
    requires TotalWeight(profile.ballots) != 0.0 || NoContest(profile, winnersSet)
    ensures IsMinSupport(profile, winnersSet, minMajority)
  {
    minMajority := 1.0;
    ghost var wx, wk := "", 0;
    var remaining := winnersSet;
    while remaining != {}
      invariant remaining <= winnersSet
      invariant WinnerScanned(profile, winnersSet, winnersSet - remaining, "", 0, minMajority, wx, wk)
      decreases |remaining|
    {
      var a :| a in remaining;
      ghost var done := winnersSet - remaining;
      minMajority, wx, wk := ScanLosers(profile, winnersSet, done, a, minMajority, wx, wk);
      assert winnersSet - (remaining - {a}) == done + {a};
      remaining := remaining - {a};
    }
    assert winnersSet - remaining == winnersSet;
    WinnerDone(profile, winnersSet, minMajority, wx, wk);
  }

  /** The inner loop: winner a against each candidate outside the winner set. */
  method ScanLosers(profile: Profile, winnersSet: set<string>, ghost done: set<string>, a: string,
                    minMajority0: real, ghost wx0: string, ghost wk0: int)
    returns (minMajority: real, ghost wx: string, ghost wk: int)
    requires a in winnersSet
    requires TotalWeight(profile.ballots) != 0.0 || NoContest(profile, winnersSet)
    requires WinnerScanned(profile, winnersSet, done, "", 0, minMajority0, wx0, wk0)
    ensures WinnerScanned(profile, winnersSet, done + {a}, "", 0, minMajority, wx, wk)
  {
    var candidates := profile.candidates;
    minMajority, wx, wk := minMajority0, wx0, wk0;
    WinnerStart(profile, winnersSet, done, a, minMajority, wx, wk);
    for k := 0 to |candidates|
      invariant WinnerScanned(profile, winnersSet, done, a, k, minMajority, wx, wk)
    {
      var b := candidates[k];
      if b in winnersSet || a == b {
        WinnerSkip(profile, winnersSet, done, a, k, minMajority, wx, wk);
        continue;
      }
      var aOverB := TallyOver(profile.ballots, a, b);
      var support := aOverB / TotalWeight(profile.ballots);
      WinnerCount(profile, winnersSet, done, a, k, minMajority, wx, wk);
      if support < minMajority {
        wx, wk := a, k;
      }
      minMajority := if support < minMajority then support else minMajority;
    }
    WinnerEnd(profile, winnersSet, done, a, minMajority, wx, wk);
  }

  lemma WinnerStart(p: Profile, winners: set<string>, done: set<string>, a: string,
                    m: real, wx: string, wk: int)
    requires TotalWeight(p.ballots) != 0.0 || NoContest(p, winners)
    requires WinnerScanned(p, winners, done, "", 0, m, wx, wk)
    ensures WinnerScanned(p, winners, done, a, 0, m, wx, wk)
  {
    assert forall x, k :: Faced(p, winners, done, a, 0, x, k) ==> Faced(p, winners, done, "", 0, x, k);
  }

  lemma WinnerSkip(p: Profile, winners: set<string>, done: set<string>, a: string, k: nat,
                   m: real, wx: string, wk: int)
    requires k < |p.candidates| && a in winners
    requires p.candidates[k] in winners || p.candidates[k] == a
    requires TotalWeight(p.ballots) != 0.0 || NoContest(p, winners)
    requires WinnerScanned(p, winners, done, a, k, m, wx, wk)
    ensures WinnerScanned(p, winners, done, a, k + 1, m, wx, wk)
  {
    assert forall x, k' :: Faced(p, winners, done, a, k + 1, x, k') ==> Faced(p, winners, done, a, k, x, k');
  }

  lemma WinnerCount(p: Profile, winners: set<string>, done: set<string>, a: string, k: nat,
                    m: real, wx: string, wk: int)
    requires k < |p.candidates| && a in winners && p.candidates[k] !in winners
    requires TotalWeight(p.ballots) != 0.0 || NoContest(p, winners)
    requires WinnerScanned(p, winners, done, a, k, m, wx, wk)
    ensures TotalWeight(p.ballots) != 0.0
    ensures var s := Support(p, a, p.candidates[k]);
            WinnerScanned(p, winners, done, a, k + 1, if s < m then s else m,
                          if s < m then a else wx, if s < m then k else wk)
  {
    assert Faced(p, winners, done, a, k + 1, a, k);
    assert Faced(p, winners, winners, "", 0, a, k);
  }

  lemma WinnerEnd(p: Profile, winners: set<string>, done: set<string>, a: string,
                  m: real, wx: string, wk: int)
    requires TotalWeight(p.ballots) != 0.0 || NoContest(p, winners)
    requires WinnerScanned(p, winners, done, a, |p.candidates|, m, wx, wk)
    ensures WinnerScanned(p, winners, done + {a}, "", 0, m, wx, wk)
  {
    assert forall x, k :: Faced(p, winners, done + {a}, "", 0, x, k) ==> Faced(p, winners, done, a, |p.candidates|, x, k);
  }

  lemma WinnerDone(p: Profile, winners: set<string>, m: real, wx: string, wk: int)
    requires TotalWeight(p.ballots) != 0.0 || NoContest(p, winners)
    requires WinnerScanned(p, winners, winners, "", 0, m, wx, wk)
    ensures IsMinSupport(p, winners, m)
  {
  }

  /** With weights of at least zero, a support lies in [0, 1]. */
  lemma SupportRange(p: Profile, x: string, y: string)
    requires TotalWeight(p.ballots) != 0.0 && NonNegativeWeights(p.ballots)
    ensures 0.0 <= Support(p, x, y) <= 1.0
  {
    TallyBound(p.ballots, x, y);
    FractionOfMax(Tally(p.ballots, x, y).0, TotalWeight(p.ballots));
  }

  /** The minimum support is determined by the profile and the winners, and
      with weights of at least zero it lies in [0, 1]. */
  lemma MinSupportUnique(p: Profile, winners: set<string>, m1: real, m2: real)
    requires TotalWeight(p.ballots) != 0.0 || NoContest(p, winners)
    requires IsMinSupport(p, winners, m1) && IsMinSupport(p, winners, m2)
    ensures m1 == m2
  {
    if m1 != 1.0 {
      var x, k :| Faced(p, winners, winners, "", 0, x, k) && m1 == Support(p, x, p.candidates[k]);
    }
    if m2 != 1.0 {
      var x, k :| Faced(p, winners, winners, "", 0, x, k) && m2 == Support(p, x, p.candidates[k]);
    }
  }

  lemma MinSupportRange(p: Profile, winners: set<string>, m: real)
    requires TotalWeight(p.ballots) != 0.0 && NonNegativeWeights(p.ballots)
    requires IsMinSupport(p, winners, m)
    ensures 0.0 <= m <= 1.0
  {
    if m != 1.0 {
      var x, k :| Faced(p, winners, winners, "", 0, x, k) && m == Support(p, x, p.candidates[k]);
      SupportRange(p, x, p.candidates[k]);
    }
  }

  /** When no winner faces a loser the minimum stays 1, so the score is 1. */
  lemma NoContestScoresOne(p: Profile, winners: set<string>, m: real)
    requires NoContest(p, winners)
    requires IsMinSupport(p, winners, m)
    ensures m == 1.0
  {
  }

  /** The score is 1 exactly when every winner has at least half of the
      support against every loser. */
  lemma MajorityWinnersScoreOne(p: Profile, winners: set<string>, m: real)
    requires TotalWeight(p.ballots) != 0.0 || NoContest(p, winners)
    requires IsMinSupport(p, winners, m)
    ensures m >= 0.5 <==>
            forall x, k :: Faced(p, winners, winners, "", 0, x, k) ==> Support(p, x, p.candidates[k]) >= 0.5
  {
    if m != 1.0 {
      var x, k :| Faced(p, winners, winners, "", 0, x, k) && m == Support(p, x, p.candidates[k]);
    }
  }
}

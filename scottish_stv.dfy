/** The simplified STV of IIA_scottish.py (`stv_ranking`): a Droop-style quota
    fixed for the whole count, batch election of every active candidate whose
    first-place count reaches it, otherwise elimination of the weakest active
    candidate. There is no transfer of surplus votes: elected candidates stay on
    the ballots (so ballots they top stop counting) and only eliminated ones are
    struck off. */
module ScottishStv {
  import opened Common
  import opened ScottishRules

  /** `floor(len(ballots) / (num_seats + 1)) + 1`, with Python's floor of the
      exact quotient (also for a negative divisor). */
  function Quota(voters: nat, seats: int): (q: int)
    requires seats != -1
    ensures seats >= 0 ==> (seats + 1) * (q - 1) <= voters < (seats + 1) * q
    ensures seats < -1 ==> q <= 1
  {
    var d := seats + 1;
    if d > 0 then voters / d + 1
    else -((voters + (-d) - 1) / (-d)) + 1
  }

  /** Ballots whose first entry is c, counted only when c is still active:
      `Counter(b[0] for b in ballots if b and b[0] in active)[c]`. */
  function FirstCount(ballots: seq<Ballot>, active: seq<Candidate>, c: Candidate): nat {
    if ballots == [] then 0
    else
      var b := ballots[0];
      (if b != [] && b[0] in active && b[0] == c then 1 else 0) + FirstCount(ballots[1..], active, c)
  }

  /** The first-place table of one round, for every active candidate. */
  function Tally(ballots: seq<Ballot>, active: seq<Candidate>): (counts: map<Candidate, int>)
    ensures forall c :: c in counts <==> c in active
  {
    map c | c in active :: FirstCount(ballots, active, c)
  }

  /** The `for c in active:` loop of a round, which elects and removes from the
      very list it iterates. After a removal Python's iterator still moves on
      to index i + 1, so the entry that slid into slot i is not examined in
      this round. Returns the new active and elected lists. */
  function Sweep(active: seq<Candidate>, i: nat, elected: seq<Candidate>,
                 counts: map<Candidate, int>, quota: int): (r: (seq<Candidate>, seq<Candidate>))
    requires forall c :: c in active ==> c in counts
    ensures |r.0| <= |active|
    ensures multiset(r.0) + multiset(r.1) == multiset(active) + multiset(elected)
    ensures forall c :: c in r.0 ==> c in active
    decreases |active| - i
  {
    if i >= |active| then (active, elected)
    else
      var c := active[i];
      if counts[c] >= quota && c !in elected then
        RemoveFirstMembers(active, c);
        Sweep(RemoveFirst(active, c), i + 1, elected + [c], counts, quota)
      else
        Sweep(active, i + 1, elected, counts, quota)
  }

  /** The sweep only appends to the elected list. */
  lemma {:induction false} SweepExtends(active: seq<Candidate>, i: nat, elected: seq<Candidate>,
                                        counts: map<Candidate, int>, quota: int)
    requires forall c :: c in active ==> c in counts
    ensures var r := Sweep(active, i, elected, counts, quota);
            |elected| <= |r.1| && r.1[..|elected|] == elected
    decreases |active| - i
  {
    if i < |active| {
      var c := active[i];
      if counts[c] >= quota && c !in elected {
        var rest := RemoveFirst(active, c);
        RemoveFirstMembers(active, c);
        SweepExtends(rest, i + 1, elected + [c], counts, quota);
        var r := Sweep(rest, i + 1, elected + [c], counts, quota);
        assert Sweep(active, i, elected, counts, quota) == r;
        PrefixOfPrefix(r.1, elected, c);
      } else {
        SweepExtends(active, i + 1, elected, counts, quota);
        assert Sweep(active, i, elected, counts, quota) == Sweep(active, i + 1, elected, counts, quota);
      }
    }
  }

  lemma PrefixOfPrefix(s: seq<Candidate>, e: seq<Candidate>, c: Candidate)
    requires |e| + 1 <= |s| && s[..|e| + 1] == e + [c]
    ensures s[..|e|] == e
  {
    assert s[..|e|] == (s[..|e| + 1])[..|e|];
  }

  /** Everything the sweep elects was active and had reached the quota. */
  lemma {:induction false} SweepElects(active: seq<Candidate>, i: nat, elected: seq<Candidate>,
                                       counts: map<Candidate, int>, quota: int)
    requires forall c :: c in active ==> c in counts
    ensures var r := Sweep(active, i, elected, counts, quota);
            forall k :: |elected| <= k < |r.1| ==> r.1[k] in active && r.1[k] in counts && counts[r.1[k]] >= quota
    decreases |active| - i
  {
    if i < |active| {
      var c := active[i];
      if counts[c] >= quota && c !in elected {
        var rest := RemoveFirst(active, c);
        RemoveFirstMembers(active, c);
        SweepElects(rest, i + 1, elected + [c], counts, quota);
        SweepExtends(rest, i + 1, elected + [c], counts, quota);
        var r := Sweep(rest, i + 1, elected + [c], counts, quota);
        assert Sweep(active, i, elected, counts, quota) == r;
        forall k | |elected| + 1 <= k < |r.1|
          ensures r.1[k] in active
        {
          assert r.1[k] in rest;
        }
        ElectedTail(r.1, elected, c, active, counts, quota);
      } else {
        SweepElects(active, i + 1, elected, counts, quota);
        assert Sweep(active, i, elected, counts, quota) == Sweep(active, i + 1, elected, counts, quota);
      }
    }
  }

  /** The entries after `e` are c followed by active entries at the quota. */
  lemma ElectedTail(s: seq<Candidate>, e: seq<Candidate>, c: Candidate,
                    active: seq<Candidate>, counts: map<Candidate, int>, quota: int)
    requires |e| + 1 <= |s| && s[..|e| + 1] == e + [c]
    requires c in active && c in counts && counts[c] >= quota
    requires forall k :: |e| + 1 <= k < |s| ==> s[k] in active && s[k] in counts && counts[s[k]] >= quota
    ensures forall k :: |e| <= k < |s| ==> s[k] in active && s[k] in counts && counts[s[k]] >= quota
  {
    assert s[|e|] == (s[..|e| + 1])[|e|] == c;
  }

  /** The sweep as evidently intended: every active candidate is examined
      once, and each one at or above the quota and not yet elected is moved
      from the active list to the end of the elected list. */
  function SweepIntended(active: seq<Candidate>, elected: seq<Candidate>,
                         counts: map<Candidate, int>, quota: int): (r: (seq<Candidate>, seq<Candidate>))
    requires forall c :: c in active ==> c in counts
    ensures multiset(r.0) + multiset(r.1) == multiset(active) + multiset(elected)
    ensures forall c :: c in elected ==> c in r.1
    ensures forall c :: c in active && counts[c] >= quota ==> c in r.1
    ensures forall c :: c in r.0 ==> c in active && (counts[c] < quota || c in r.1)
    decreases |active|
  {
    if active == [] then ([], elected)
    else
      var c, rest := active[0], active[1..];
      HeadAndRest(active);
      if counts[c] >= quota && c !in elected then
        SweepIntended(rest, elected + [c], counts, quota)
      else
        var r := SweepIntended(rest, elected, counts, quota);
        assert multiset([c] + r.0) + multiset(r.1) == multiset{c} + (multiset(r.0) + multiset(r.1));
        ([c] + r.0, r.1)
  }

  lemma HeadAndRest(s: seq<Candidate>)
    requires s != []
    ensures multiset(s) == multiset{s[0]} + multiset(s[1..])
    ensures forall x :: x in s <==> x == s[0] || x in s[1..]
  {
    assert s == [s[0]] + s[1..];
  }

  /** `[c for c in active if c not in elected]`. */
  function NotElected(active: seq<Candidate>, elected: seq<Candidate>): (r: seq<Candidate>)
    ensures forall c :: c in r <==> c in active && c !in elected
  {
    if active == [] then []
    else
      assert forall c :: c in active <==> c == active[0] || c in active[1..];
      (if active[0] in elected then [] else [active[0]]) + NotElected(active[1..], elected)
  }

  /** The candidate to eliminate: fewest first places, smallest id among those
      (`min(...)`, then `sorted([...])[0]`). */
  function Lowest(still: seq<Candidate>, counts: map<Candidate, int>): (e: Candidate)
    requires |still| > 0 && forall c :: c in still ==> c in counts
    ensures e in still
    ensures forall c :: c in still ==> counts[e] < counts[c] || (counts[e] == counts[c] && e <= c)
  {
    if |still| == 1 then still[0]
    else
      assert forall c :: c in still <==> c == still[0] || c in still[1..];
      var e := Lowest(still[1..], counts);
      var c := still[0];
      if counts[c] < counts[e] || (counts[c] == counts[e] && c <= e) then c else e
  }

  /** The variables of the `while` loop. */
  datatype StvState = StvState(ballots: seq<Ballot>, active: seq<Candidate>,
                               elected: seq<Candidate>, eliminated: seq<Candidate>)

  /** One pass of the loop body: tally, elect, and unless the loop breaks,
      eliminate one candidate. The boolean says whether the loop goes on. */
  function Round(st: StvState, quota: int, seats: int): (r: (bool, StvState))
    ensures r.0 ==> |r.1.active| < |st.active|
  {
    var counts := Tally(st.ballots, st.active);
    var (active, elected) := Sweep(st.active, 0, st.elected, counts, quota);
    if |elected| >= seats then (false, st.(active := active, elected := elected))
    else
      var still := NotElected(active, elected);
      if still == [] then (false, st.(active := active, elected := elected))
      else
        var e := Lowest(still, counts);
        (true, StvState(StrikeOff(st.ballots, e), RemoveFirst(active, e), elected, st.eliminated + [e]))
  }

  /** The whole `while len(elected) < num_seats and active:` loop. */
  function Run(st: StvState, quota: int, seats: int): StvState
    decreases |st.active|
  {
    if |st.elected| < seats && |st.active| > 0 then
      var (go, next) := Round(st, quota, seats);
      if go then Run(next, quota, seats) else next
    else st
  }

  /** `[c for c in candidates if c not in elected and c not in eliminated]`. */
  function Unclassified(candidates: seq<Candidate>, elected: seq<Candidate>, eliminated: seq<Candidate>): (r: seq<Candidate>)
    ensures forall c :: multiset(r)[c] == if c in elected || c in eliminated then 0 else multiset(candidates)[c]
  {
    if candidates == [] then []
    else
      assert candidates == [candidates[0]] + candidates[1..];
      var c := candidates[0];
      (if c in elected || c in eliminated then [] else [c]) + Unclassified(candidates[1..], elected, eliminated)
  }

  /** Every candidate is in exactly one of active, elected and eliminated. */
  ghost predicate Partitioned(st: StvState, candidates: seq<Candidate>) {
    multiset(st.active) + multiset(st.elected) + multiset(st.eliminated) == multiset(candidates)
  }

  /** A round moves candidates between the three groups and loses none. */
  lemma RoundPartitioned(st: StvState, quota: int, seats: int, candidates: seq<Candidate>)
    requires Partitioned(st, candidates)
    ensures Partitioned(Round(st, quota, seats).1, candidates)
  {
    var counts := Tally(st.ballots, st.active);
    var r := Sweep(st.active, 0, st.elected, counts, quota);
    var swept := st.(active := r.0, elected := r.1);
    assert Partitioned(swept, candidates);
    if |r.1| < seats {
      var still := NotElected(r.0, r.1);
      if still != [] {
        var e := Lowest(still, counts);
        var next := StvState(StrikeOff(st.ballots, e), RemoveFirst(r.0, e), r.1, st.eliminated + [e]);
        assert Round(st, quota, seats).1 == next;
        assert multiset(next.active) + multiset{e} == multiset(r.0);
        assert multiset(next.eliminated) == multiset(st.eliminated) + multiset{e};
      } else {
        assert Round(st, quota, seats).1 == swept;
      }
    } else {
      assert Round(st, quota, seats).1 == swept;
    }
  }

  /** The whole count keeps every candidate in exactly one group. */
  lemma {:induction false} RunPartitioned(st: StvState, quota: int, seats: int, candidates: seq<Candidate>)
    requires Partitioned(st, candidates)
    ensures Partitioned(Run(st, quota, seats), candidates)
    decreases |st.active|
  {
    if |st.elected| < seats && |st.active| > 0 {
      RoundPartitioned(st, quota, seats, candidates);
      var (go, next) := Round(st, quota, seats);
      if go {
        RunPartitioned(next, quota, seats, candidates);
      }
    }
  }

  /** A round that does not stop the count eliminates exactly one still-active,
      not-yet-elected candidate: one with the fewest first places, the smallest
      id among ties. It strikes that candidate off every ballot, keeping the
      other entries in order, and keeps the elected list as the sweep left it. */
  lemma RoundEliminatesLowest(st: StvState, quota: int, seats: int)
    requires Round(st, quota, seats).0
    ensures var next := Round(st, quota, seats).1;
            var counts := Tally(st.ballots, st.active);
            && |next.eliminated| == |st.eliminated| + 1
            && next.eliminated[..|st.eliminated|] == st.eliminated
            && var e := next.eliminated[|st.eliminated|];
               && e in st.active && e !in next.elected
               && |next.active| + 1 + |next.elected| == |st.active| + |st.elected|
               && (forall c :: c in next.active && c !in next.elected ==>
                     c in counts && e in counts && (counts[e] < counts[c] || (counts[e] == counts[c] && e <= c)))
               && |next.ballots| == |st.ballots|
               && (forall k :: 0 <= k < |st.ballots| ==> next.ballots[k] == Without(st.ballots[k], e))
  {
    var counts := Tally(st.ballots, st.active);
    var (active, elected) := Sweep(st.active, 0, st.elected, counts, quota);
    var still := NotElected(active, elected);
    var e := Lowest(still, counts);
    var next := Round(st, quota, seats).1;
    assert next.eliminated == st.eliminated + [e];
    assert next.eliminated[..|st.eliminated|] == st.eliminated;
    assert multiset(active) + multiset(elected) == multiset(st.active) + multiset(st.elected);
    assert |multiset(active) + multiset(elected)| == |multiset(st.active) + multiset(st.elected)|;
    RemoveFirstMembers(active, e);
  }

  /** `stv_ranking`: elected candidates in election order, then eliminated ones
      in elimination order, then the rest in input order. The quota is computed
      once and never changes. The ranking is a permutation of the candidates. */
  method StvRanking(ballots: seq<Ballot>, candidates: seq<Candidate>, numSeats: int)
    returns (ranking: seq<Candidate>)
    requires numSeats != -1
    requires Distinct(candidates)
    ensures var out := Run(StvState(ballots, candidates, [], []), Quota(|ballots|, numSeats), numSeats);
            ranking == out.elected + out.eliminated + Unclassified(candidates, out.elected, out.eliminated)
    ensures multiset(ranking) == multiset(candidates)
  {
    var quota := Quota(|ballots|, numSeats);
    var elected: seq<Candidate>, eliminated: seq<Candidate> := [], [];
    var active := candidates;
    var bs := ballots;
    ghost var final := Run(StvState(ballots, candidates, [], []), quota, numSeats);
    while |elected| < numSeats && |active| > 0
      invariant Run(StvState(bs, active, elected, eliminated), quota, numSeats) == final
      decreases |active|
    {
      ghost var st := StvState(bs, active, elected, eliminated);
      var counts := Tally(bs, active);
      var i := 0;
      while i < |active|
        invariant forall c :: c in active ==> c in counts
        invariant Sweep(active, i, elected, counts, quota) == Sweep(st.active, 0, st.elected, counts, quota)
        decreases |active| - i
      {
        var c := active[i];
        if counts[c] >= quota && c !in elected {
          elected := elected + [c];
          RemoveFirstMembers(active, c);
          active := RemoveFirst(active, c);
        }
        i := i + 1;
      }
      assert (active, elected) == Sweep(st.active, 0, st.elected, counts, quota);
      if |elected| >= numSeats {
        break;
      }
      var still := NotElected(active, elected);
      if |still| == 0 {
        break;
      }
      var e := Lowest(still, counts);
      eliminated := eliminated + [e];
      active := RemoveFirst(active, e);
      bs := StrikeOff(bs, e);
    }
    assert StvState(bs, active, elected, eliminated) == final;
    ranking := elected + eliminated + Unclassified(candidates, elected, eliminated);
    RunPartitioned(StvState(ballots, candidates, [], []), quota, numSeats, candidates);
    RankingIsPermutation(final, candidates);
  }

  /** Elected, then eliminated, then the unclassified rest: every candidate once. */
  lemma RankingIsPermutation(out: StvState, candidates: seq<Candidate>)
    requires Distinct(candidates)
    requires Partitioned(out, candidates)
    ensures multiset(out.elected + out.eliminated + Unclassified(candidates, out.elected, out.eliminated))
         == multiset(candidates)
  {
    var rest := Unclassified(candidates, out.elected, out.eliminated);
    forall c ensures multiset(out.elected + out.eliminated + rest)[c] == multiset(candidates)[c] {
      DistinctMultiset(candidates);
      assert c in out.elected <==> multiset(out.elected)[c] > 0;
      assert c in out.eliminated <==> multiset(out.eliminated)[c] > 0;
    }
  }

  /** Removing from `active` while iterating over it: three voters, three seats,
      one first place for each of 1, 2 and 3, so the quota is 1 and all three
      reach it in the first round. The sweep elects 1, which shifts 2 into the
      slot it has just examined, then elects 3; 2 is never examined, is the only
      unelected active candidate left, and is eliminated. Only two of the three
      seats are filled. */
  lemma SweepSkipsShiftedCandidate()
    ensures var ballots: seq<Ballot> := [[1], [2], [3]];
            var out := Run(StvState(ballots, [1, 2, 3], [], []), Quota(|ballots|, 3), 3);
            && Quota(|ballots|, 3) == 1
            && Tally(ballots, [1, 2, 3])[2] == 1
            && out.elected == [1, 3] && out.eliminated == [2]
  {
    var ballots: seq<Ballot> := [[1], [2], [3]];
    var st := StvState(ballots, [1, 2, 3], [], []);
    ExampleTally();
    ExampleRound();
    var next := Round(st, 1, 3).1;
    assert next.active == [] && Run(st, 1, 3) == Run(next, 1, 3) == next;
  }

  /** On the same first round the intended sweep elects all three. */
  lemma IntendedSweepElectsAll()
    ensures SweepIntended([1, 2, 3], [], Tally([[1], [2], [3]], [1, 2, 3]), 1) == ([], [1, 2, 3])
  {
    ExampleTally();
    IntendedSweepAllAtQuota(Tally([[1], [2], [3]], [1, 2, 3]));
  }

  lemma IntendedSweepAllAtQuota(counts: map<Candidate, int>)
    requires counts.Keys == {1, 2, 3} && counts[1] == 1 && counts[2] == 1 && counts[3] == 1
    ensures SweepIntended([1, 2, 3], [], counts, 1) == ([], [1, 2, 3])
  {
    IntendedFirstStep(counts);
    IntendedSecondStep(counts);
    IntendedThirdStep(counts);
  }

  lemma IntendedFirstStep(counts: map<Candidate, int>)
    requires counts.Keys == {1, 2, 3} && counts[1] == 1
    ensures SweepIntended([1, 2, 3], [], counts, 1) == SweepIntended([2, 3], [1], counts, 1)
  {
    var a: seq<Candidate> := [1, 2, 3];
    var none: seq<Candidate> := [];
    IntendedElectsHead(a, none, counts, 1);
    assert a[1..] == [2, 3] && none + [1] == [1];
  }

  lemma IntendedSecondStep(counts: map<Candidate, int>)
    requires counts.Keys == {1, 2, 3} && counts[2] == 1
    ensures SweepIntended([2, 3], [1], counts, 1) == SweepIntended([3], [1, 2], counts, 1)
  {
    var a: seq<Candidate> := [2, 3];
    var one: seq<Candidate> := [1];
    IntendedElectsHead(a, one, counts, 1);
    assert a[1..] == [3] && one + [2] == [1, 2];
  }

  lemma IntendedThirdStep(counts: map<Candidate, int>)
    requires counts.Keys == {1, 2, 3} && counts[3] == 1
    ensures SweepIntended([3], [1, 2], counts, 1) == ([], [1, 2, 3])
  {
    var a: seq<Candidate> := [3];
    var two: seq<Candidate> := [1, 2];
    IntendedElectsHead(a, two, counts, 1);
    assert a[1..] == [] && two + [3] == [1, 2, 3];
  }

  /** A head candidate at the quota and not yet elected is elected. */
  lemma IntendedElectsHead(active: seq<Candidate>, elected: seq<Candidate>, counts: map<Candidate, int>, quota: int)
    requires active != [] && active[0] in counts && forall c :: c in active ==> c in counts
    requires counts[active[0]] >= quota && active[0] !in elected
    ensures SweepIntended(active, elected, counts, quota) == SweepIntended(active[1..], elected + [active[0]], counts, quota)
  {
  }

  lemma ExampleRound()
    ensures var r := Round(StvState([[1], [2], [3]], [1, 2, 3], [], []), 1, 3);
            r.0 && r.1.active == [] && r.1.elected == [1, 3] && r.1.eliminated == [2]
  {
    var st := StvState([[1], [2], [3]], [1, 2, 3], [], []);
    ExampleFirstSweep();
    ExampleElimination(Tally(st.ballots, st.active));
    RoundEliminating(st, 1, 3, [2], [1, 3], 2);
  }

  lemma ExampleFirstSweep()
    ensures Sweep([1, 2, 3], 0, [], Tally([[1], [2], [3]], [1, 2, 3]), 1) == ([2], [1, 3])
    ensures 2 in Tally([[1], [2], [3]], [1, 2, 3])
  {
    ExampleTally();
    ExampleSweep(Tally([[1], [2], [3]], [1, 2, 3]));
  }

  /** A round whose sweep leaves `active` and `elected`, with seats still to
      fill and `e` the weakest unelected active candidate, eliminates `e`. */
  lemma RoundEliminating(st: StvState, quota: int, seats: int,
                         active: seq<Candidate>, elected: seq<Candidate>, e: Candidate)
    requires Sweep(st.active, 0, st.elected, Tally(st.ballots, st.active), quota) == (active, elected)
    requires |elected| < seats && NotElected(active, elected) != []
    requires Lowest(NotElected(active, elected), Tally(st.ballots, st.active)) == e
    ensures e in active
    ensures Round(st, quota, seats)
         == (true, StvState(StrikeOff(st.ballots, e), RemoveFirst(active, e), elected, st.eliminated + [e]))
  {
  }

  /** After the sweep, 2 is the only unelected active candidate, so it is
      the one eliminated, and no one stays active. */
  lemma ExampleElimination(counts: map<Candidate, int>)
    requires 2 in counts
    ensures NotElected([2], [1, 3]) == [2]
    ensures Lowest(NotElected([2], [1, 3]), counts) == 2
    ensures RemoveFirst([2], 2) == []
  {
    var one: seq<Candidate> := [2];
    assert one[1..] == [];
    assert NotElected(one, [1, 3]) == [2] + NotElected([], [1, 3]);
  }

  lemma ExampleTally()
    ensures var counts := Tally([[1], [2], [3]], [1, 2, 3]);
            counts[1] == 1 && counts[2] == 1 && counts[3] == 1
  {
    var ballots: seq<Ballot> := [[1], [2], [3]];
    assert ballots[1..] == [[2], [3]] && ballots[2..] == [[3]];
  }

  lemma ExampleSweep(counts: map<Candidate, int>)
    requires counts.Keys == {1, 2, 3} && counts[1] == 1 && counts[2] == 1 && counts[3] == 1
    ensures Sweep([1, 2, 3], 0, [], counts, 1) == ([2], [1, 3])
  {
    ExampleFirstStep(counts);
    ExampleSecondStep(counts);
  }

  lemma ExampleFirstStep(counts: map<Candidate, int>)
    requires counts.Keys == {1, 2, 3} && counts[1] == 1
    ensures Sweep([1, 2, 3], 0, [], counts, 1) == Sweep([2, 3], 1, [1], counts, 1)
  {
    var a: seq<Candidate> := [1, 2, 3];
    assert a[0] == 1 && a[1..] == [2, 3];
    assert RemoveFirst(a, 1) == [2, 3];
    var none: seq<Candidate> := [];
    assert none + [1] == [1];
    assert Sweep(a, 0, none, counts, 1) == Sweep(RemoveFirst(a, 1), 1, none + [1], counts, 1);
  }

  lemma ExampleSecondStep(counts: map<Candidate, int>)
    requires counts.Keys == {1, 2, 3} && counts[3] == 1
    ensures Sweep([2, 3], 1, [1], counts, 1) == ([2], [1, 3])
  {
    var b: seq<Candidate> := [2, 3];
    assert b[0] == 2 && b[1..] == [3];
    assert RemoveFirst(b, 3) == [2];
    assert b[1] == 3 && 3 !in [1] && [1] + [3] == [1, 3];
    assert Sweep(b, 1, [1], counts, 1) == Sweep(RemoveFirst(b, 3), 2, [1] + [3], counts, 1);
  }
}

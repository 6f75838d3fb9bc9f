/** Small vocabulary shared by every other module: optional values, the
    comprehension `[x for x in s if x != y]`, the position a dict comprehension
    `{c: i for i, c in enumerate(s)}` records, and counting of index pairs. */
module Common {

  datatype Option<T> = None | Some(value: T)

  /** The errors the modelled code raises on purpose (not crashes). */
  datatype Error =
    | SizeMismatch                   // `assert len(list1) == len(list2)`
    | TooFewCandidates(rule: string) // k-approval with fewer than k candidates
    | UnknownRule(name: string)      // a rule name outside the allowed five

  datatype Result<T> = Ok(value: T) | Err(error: Error)

  /** No element occurs twice (candidate lists are built from a set). */
  predicate Distinct<T(==)>(s: seq<T>) {
    forall i, j :: 0 <= i < j < |s| ==> s[i] != s[j]
  }

  /** A sequence has no repeats exactly when nothing occurs in it twice. */
  lemma {:induction false} DistinctMultiset<T>(s: seq<T>)
    ensures Distinct(s) <==> forall x :: multiset(s)[x] <= 1
  {
    if s != [] {
      var t := s[1..];
      assert s == [s[0]] + t;
      DistinctMultiset(t);
      if Distinct(s) {
        assert Distinct(t);
        assert s[0] !in t;
      }
      if forall x :: multiset(s)[x] <= 1 {
        assert forall x :: multiset(t)[x] <= 1 by {
          forall x ensures multiset(t)[x] <= 1 {
            assert multiset(s)[x] == multiset{s[0]}[x] + multiset(t)[x];
          }
        }
        assert multiset(s)[s[0]] == 1 + multiset(t)[s[0]];
        assert s[0] !in t;
        forall i, j | 0 <= i < j < |s| ensures s[i] != s[j] {
          if i == 0 {
            assert s[j] == t[j - 1];
          } else {
            assert s[i] == t[i - 1] && s[j] == t[j - 1];
          }
        }
      }
    }
  }

  /** `[x for x in s if x != y]`. */
  function Without<T(==,!new)>(s: seq<T>, y: T): (r: seq<T>)
    ensures |r| <= |s|
    ensures y !in s ==> r == s
  {
    if s == [] then []
    else
      var rest := Without(s[1..], y);
      assert s == [s[0]] + s[1..];
      if s[0] == y then rest else [s[0]] + rest
  }

  /** Filtering keeps exactly the elements other than y. */
  lemma {:induction false} WithoutMembers<T(!new)>(s: seq<T>, y: T)
    ensures forall x :: x in Without(s, y) <==> x in s && x != y
  {
    if s != [] {
      assert s == [s[0]] + s[1..];
      WithoutMembers(s[1..], y);
    }
  }

  /** Filtering removes every copy of y and keeps every other element with
      its multiplicity. */
  lemma {:induction false} WithoutMultiset<T(!new)>(s: seq<T>, y: T)
    ensures multiset(Without(s, y)) == multiset(s)[y := 0]
  {
    if s != [] {
      assert s == [s[0]] + s[1..];
      WithoutMultiset(s[1..], y);
    }
  }

  /** Deleting an element that occurs exactly once keeps everything else, in
      order: the result is the sequence with that one position cut out. */
  lemma {:induction false} WithoutAt<T(!new)>(s: seq<T>, k: nat)
    requires k < |s| && Distinct(s)
    ensures Without(s, s[k]) == s[..k] + s[k + 1..]
  {
    if k == 0 {
      WithoutHead(s);
    } else {
      var t := s[1..];
      DistinctTail(s);
      assert t[k - 1] == s[k];
      WithoutAt(t, k - 1);
      WithoutCons(s, s[k]);
      CutAfterHead(s, k);
    }
  }

  lemma DistinctTail<T>(s: seq<T>)
    requires |s| > 0 && Distinct(s)
    ensures Distinct(s[1..])
  {
    forall i, j | 0 <= i < j < |s| - 1 ensures s[1..][i] != s[1..][j] {
      assert s[1..][i] == s[i + 1] && s[1..][j] == s[j + 1];
    }
  }

  lemma WithoutCons<T(!new)>(s: seq<T>, y: T)
    requires |s| > 0 && s[0] != y
    ensures Without(s, y) == [s[0]] + Without(s[1..], y)
  {
  }

  lemma CutAfterHead<T>(s: seq<T>, k: nat)
    requires 0 < k < |s|
    ensures [s[0]] + (s[1..][..k - 1] + s[1..][k..]) == s[..k] + s[k + 1..]
  {
    assert s[1..][..k - 1] == s[1..k] && s[1..][k..] == s[k + 1..];
    assert s[..k] == [s[0]] + s[1..k];
  }

  lemma WithoutHead<T(!new)>(s: seq<T>)
    requires |s| > 0 && Distinct(s)
    ensures Without(s, s[0]) == s[1..]
  {
    var t := s[1..];
    assert s == [s[0]] + t;
    assert s[0] !in t;
    assert Without(s, s[0]) == Without(t, s[0]);
  }

  /** Removing one element keeps a sequence free of repeats. */
  lemma {:induction false} WithoutDistinct<T(!new)>(s: seq<T>, y: T)
    requires Distinct(s)
    ensures Distinct(Without(s, y))
  {
    if s != [] {
      assert s == [s[0]] + s[1..];
      assert Distinct(s[1..]);
      WithoutDistinct(s[1..], y);
      WithoutMembers(s[1..], y);
      assert s[0] !in Without(s[1..], y);
    }
  }

  /** Filtering out an element that occurs makes the sequence shorter. */
  lemma {:induction false} WithoutShorter<T(!new)>(s: seq<T>, y: T)
    requires y in s
    ensures |Without(s, y)| < |s|
  {
    assert s == [s[0]] + s[1..];
    if s[0] != y {
      WithoutShorter(s[1..], y);
    }
  }

  /** `list.remove(x)`: delete the first occurrence of x. */
  function RemoveFirst<T(==)>(s: seq<T>, x: T): (r: seq<T>)
    requires x in s
    ensures |r| == |s| - 1
    ensures multiset(r) == multiset(s) - multiset{x}
  {
    if s[0] == x then (assert s == [s[0]] + s[1..]; s[1..])
    else (assert s == [s[0]] + s[1..]; [s[0]] + RemoveFirst(s[1..], x))
  }

  /** Removing an element introduces nothing new. */
  lemma RemoveFirstMembers<T>(s: seq<T>, x: T)
    requires x in s
    ensures forall y :: y in RemoveFirst(s, x) ==> y in s
  {
    forall y | y in RemoveFirst(s, x) ensures y in s {
      assert y in multiset(RemoveFirst(s, x));
    }
  }

  /** The index a dict comprehension `{c: i for i, c in enumerate(s)}` keeps
      for c: later entries overwrite earlier ones, so it is the last one. */
  function PosOf<T(==)>(s: seq<T>, x: T): (i: nat)
    requires x in s
    ensures i < |s| && s[i] == x
    ensures forall j :: i < j < |s| ==> s[j] != x
  {
    if s[|s| - 1] == x then |s| - 1
    else
      assert x in s[..|s| - 1] by {
        var k :| 0 <= k < |s| && s[k] == x;
        assert s[..|s| - 1][k] == x;
      }
      PosOf(s[..|s| - 1], x)
  }

  /** In a sequence without repeats the recorded index is the only one. */
  lemma PosOfDistinct<T>(s: seq<T>, k: nat)
    requires Distinct(s) && k < |s|
    ensures PosOf(s, s[k]) == k
  {
  }

  /** All index pairs i < j below n: the pairs a ranking distance compares. */
  function AllPairs(n: nat): set<(int, int)> {
    set i, j | 0 <= i < j < n :: (i, j)
  }

  /** The pairs (i, m) for i below n. */
  function Column(n: nat, m: int): set<(int, int)> {
    set i | 0 <= i < n :: (i, m)
  }

  lemma {:induction false} ColumnCard(n: nat, m: int)
    ensures |Column(n, m)| == n
  {
    if n > 0 {
      ColumnCard(n - 1, m);
      assert Column(n, m) == Column(n - 1, m) + {(n - 1, m)};
    }
  }

  lemma AllPairsSplit(m: nat)
    ensures AllPairs(m + 1) == AllPairs(m) + Column(m, m)
    ensures AllPairs(m) !! Column(m, m)
  {
    forall p | p in AllPairs(m + 1) ensures p in AllPairs(m) + Column(m, m) {
      if p.1 < m { assert p in AllPairs(m); } else { assert p in Column(m, m); }
    }
  }

  /** There are Pairs(n), that is n(n-1)/2, pairs i < j below n. */
  lemma {:induction false} AllPairsCard(n: nat)
    ensures |AllPairs(n)| == Pairs(n)
  {
    if n > 0 {
      AllPairsCard(n - 1);
      ColumnCard(n - 1, n - 1);
      AllPairsSplit(n - 1);
    }
  }

  /** A set that maps one-to-one into another is no larger. */
  lemma {:induction false} InjectionCard<T, U>(a: set<T>, b: set<U>, f: T -> U)
    requires forall x :: x in a ==> f(x) in b
    requires forall x, y :: x in a && y in a && f(x) == f(y) ==> x == y
    ensures |a| <= |b|
    decreases a
  {
    if a != {} {
      var x :| x in a;
      InjectionCard(a - {x}, b - {f(x)}, f);
    }
  }

  /** Any set of index pairs i < j below n has at most n(n-1)/2 members. */
  lemma PairSetBound(s: set<(int, int)>, n: nat)
    requires s <= AllPairs(n)
    ensures |s| <= n * (n - 1) / 2
  {
    AllPairsCard(n);
    PairsFormula(n);
    InjectionCard(s, AllPairs(n), p => p);
  }

  /** The number of index pairs i < j below n, counted row by row. */
  function Pairs(n: nat): nat {
    if n == 0 then 0 else Pairs(n - 1) + (n - 1)
  }

  lemma {:induction false} PairsFormula(n: nat)
    ensures Pairs(n) == n * (n - 1) / 2
  {
    if n > 0 {
      PairsFormula(n - 1);
      assert (n - 1) * (n - 2) + 2 * (n - 1) == n * (n - 1);
    }
  }

  lemma {:induction false} PairsMono(n: nat, m: nat)
    requires n <= m
    ensures Pairs(n) <= Pairs(m)
    decreases m
  {
    if n < m {
      PairsMono(n, m - 1);
    }
  }

  /** The sum of the first k entries. */
  function SumTo(xs: seq<nat>, k: nat): nat
    requires k <= |xs|
  {
    if k == 0 then 0 else SumTo(xs, k - 1) + xs[k - 1]
  }

  /** A sum of naturals is 0 exactly when every summand is. */
  lemma {:induction false} SumToZero(xs: seq<nat>, k: nat)
    requires k <= |xs|
    ensures SumTo(xs, k) == 0 <==> forall i :: 0 <= i < k ==> xs[i] == 0
  {
    if k > 0 {
      SumToZero(xs, k - 1);
    }
  }

  /** k summands of at most h sum to at most k * h. */
  lemma {:induction false} SumToBound(xs: seq<nat>, k: nat, h: int)
    requires k <= |xs|
    requires forall i :: 0 <= i < |xs| ==> xs[i] <= h
    ensures SumTo(xs, k) <= k * h
  {
    if k > 0 {
      SumToBound(xs, k - 1, h);
      assert k * h == (k - 1) * h + h;
    }
  }
}

/**
 Sorted samples of real numbers and what survives sorting: permutation, order
 statistics, pointwise domination and monotone maps.
 */
module OrderStatistics {

  type Sample = seq<real>

  predicate Sorted(s: Sample) {
    forall i, j :: 0 <= i <= j < |s| ==> s[i] <= s[j]
  }

  function Insert(x: real, s: Sample): (r: Sample)
    ensures |r| == |s| + 1
  {
    if s == [] || x <= s[0] then [x] + s else [s[0]] + Insert(x, s[1..])
  }

  /** The sorted copy of a sample. */
  function Sort(s: Sample): (r: Sample)
    ensures |r| == |s|
  {
    if s == [] then [] else Insert(s[0], Sort(s[1..]))
  }

  lemma {:induction false} InsertKeepsSorted(x: real, s: Sample)
    requires Sorted(s)
    ensures Sorted(Insert(x, s))
    ensures Insert(x, s)[0] == if s == [] || x <= s[0] then x else s[0]
  {
    if s == [] || x <= s[0] {
    } else {
      InsertKeepsSorted(x, s[1..]);
      SortedCons(s[0], Insert(x, s[1..]));
    }
  }

  lemma SortedCons(x: real, s: Sample)
    requires Sorted(s) && (s == [] || x <= s[0])
    ensures Sorted([x] + s)
  {
  }

  lemma {:induction false} InsertAddsOne(x: real, s: Sample)
    ensures multiset(Insert(x, s)) == multiset{x} + multiset(s)
  {
    if s == [] || x <= s[0] {
    } else {
      InsertAddsOne(x, s[1..]);
      assert s == [s[0]] + s[1..];
    }
  }

  lemma {:induction false} SortIsSortedPermutation(s: Sample)
    ensures Sorted(Sort(s)) && multiset(Sort(s)) == multiset(s)
  {
    if s == [] {
    } else {
      SortIsSortedPermutation(s[1..]);
      InsertKeepsSorted(s[0], Sort(s[1..]));
      InsertAddsOne(s[0], Sort(s[1..]));
      assert s == [s[0]] + s[1..];
    }
  }

  // ---------- counting below a threshold ----------

  function CountUpTo(s: Sample, t: real): nat {
    if s == [] then 0 else (if s[0] <= t then 1 else 0) + CountUpTo(s[1..], t)
  }

  lemma {:induction false} CountOfInsert(x: real, s: Sample, t: real)
    ensures CountUpTo(Insert(x, s), t) == (if x <= t then 1 else 0) + CountUpTo(s, t)
  {
    if s == [] || x <= s[0] {
      assert Insert(x, s)[1..] == s;
    } else {
      CountOfInsert(x, s[1..], t);
      assert Insert(x, s)[1..] == Insert(x, s[1..]);
    }
  }

  lemma {:induction false} CountOfSort(s: Sample, t: real)
    ensures CountUpTo(Sort(s), t) == CountUpTo(s, t)
  {
    if s == [] {
    } else {
      CountOfSort(s[1..], t);
      CountOfInsert(s[0], Sort(s[1..]), t);
    }
  }

  /** In a sorted sample the k-th value is at most `t` iff more than k values are. */
  lemma {:induction false} RankByCount(s: Sample, k: nat, t: real)
    requires Sorted(s) && k < |s|
    ensures s[k] <= t <==> CountUpTo(s, t) > k
  {
    if s[0] > t {
      NoneUpTo(s, t);
    } else if k == 0 {
    } else {
      RankByCount(s[1..], k - 1, t);
    }
  }

  lemma {:induction false} NoneUpTo(s: Sample, t: real)
    requires forall i :: 0 <= i < |s| ==> s[i] > t
    ensures CountUpTo(s, t) == 0
  {
    if s == [] {
    } else {
      NoneUpTo(s[1..], t);
    }
  }

  // ---------- ranks, by counting positions ----------

  ghost function PositionsUpTo(s: Sample, v: real): set<nat> {
    set i: nat | i < |s| && s[i] <= v
  }

  ghost function PositionsBelow(s: Sample, v: real): set<nat> {
    set i: nat | i < |s| && s[i] < v
  }

  /** At most `k` positions hold less than `v`, and more than `k` hold no more: `v` is the k-th value, counted from zero. */
  ghost predicate HasRank(s: Sample, k: nat, v: real) {
    |PositionsBelow(s, v)| <= k < |PositionsUpTo(s, v)|
  }

  lemma {:induction false} CountsPositions(s: Sample, v: real)
    ensures CountUpTo(s, v) == |PositionsUpTo(s, v)|
  {
    hide CountUpTo;
    if s == [] {
      NoPositions(v);
    } else {
      var front, last := s[..|s| - 1], s[|s| - 1];
      CountsPositions(front, v);
      CountOfOneMore(front, last, v);
      PositionsOfOneMore(front, last, v);
      assert s == front + [last];
    }
  }

  lemma NoPositions(v: real)
    ensures CountUpTo([], v) == 0 && PositionsUpTo([], v) == {}
  {
  }

  lemma CountOfOneMore(s: Sample, x: real, v: real)
    ensures CountUpTo(s + [x], v) == CountUpTo(s, v) + if x <= v then 1 else 0
  {
    CountOfConcat(s, [x], v);
  }

  lemma PositionsOfOneMore(s: Sample, x: real, v: real)
    ensures |PositionsUpTo(s + [x], v)| == |PositionsUpTo(s, v)| + if x <= v then 1 else 0
  {
    if x <= v {
      assert PositionsUpTo(s + [x], v) == PositionsUpTo(s, v) + {|s|};
    } else {
      assert PositionsUpTo(s + [x], v) == PositionsUpTo(s, v);
    }
  }

  lemma SubsetSize(a: set<nat>, b: set<nat>)
    requires a <= b
    ensures |a| <= |b|
  {
    assert b == a + (b - a);
  }

  /** The positions below `v` are those up to the greatest value below it. */
  lemma {:induction false} GreatestBelow(s: Sample, v: real, n: nat) returns (t: real)
    requires n <= |s| && exists i :: 0 <= i < n && s[i] < v
    ensures t < v && forall i :: 0 <= i < n && s[i] < v ==> s[i] <= t
  {
    if forall i :: 0 <= i < n - 1 ==> s[i] >= v {
      t := s[n - 1];
    } else {
      t := GreatestBelow(s, v, n - 1);
      if s[n - 1] < v && s[n - 1] > t {
        t := s[n - 1];
      }
    }
  }

  /** The k-th entry of the sorted copy has rank k in the sample. */
  lemma SortedHasRank(s: Sample, k: nat)
    requires k < |s|
    ensures HasRank(s, k, Sort(s)[k])
  {
    hide Sort;
    var v := Sort(s)[k];
    SortIsSortedPermutation(s);
    RankByCount(Sort(s), k, v);
    CountOfSort(s, v);
    CountsPositions(s, v);
    if exists i :: 0 <= i < |s| && s[i] < v {
      var t := GreatestBelow(s, v, |s|);
      RankByCount(Sort(s), k, t);
      CountOfSort(s, t);
      CountsPositions(s, t);
      SubsetSize(PositionsBelow(s, v), PositionsUpTo(s, t));
    } else {
      assert PositionsBelow(s, v) == {};
    }
  }

  /** Only one value has a rank. */
  lemma RankIsUnique(s: Sample, k: nat, u: real, v: real)
    requires HasRank(s, k, u) && HasRank(s, k, v)
    ensures u == v
  {
    if u < v {
      SubsetSize(PositionsUpTo(s, u), PositionsBelow(s, v));
    } else if v < u {
      SubsetSize(PositionsUpTo(s, v), PositionsBelow(s, u));
    }
  }

  predicate Dominated(a: Sample, b: Sample) {
    |a| == |b| && forall i :: 0 <= i < |a| ==> a[i] <= b[i]
  }

  lemma {:induction false} CountDominated(a: Sample, b: Sample, t: real)
    requires Dominated(a, b)
    ensures CountUpTo(a, t) >= CountUpTo(b, t)
  {
    if a == [] {
    } else {
      CountDominated(a[1..], b[1..], t);
    }
  }

  /** Raising values pointwise never lowers an order statistic. */
  lemma SortIsMonotone(a: Sample, b: Sample)
    requires Dominated(a, b)
    ensures Dominated(Sort(a), Sort(b))
  {
    SortIsSortedPermutation(a);
    SortIsSortedPermutation(b);
    forall k | 0 <= k < |a| ensures Sort(a)[k] <= Sort(b)[k] {
      var t := Sort(b)[k];
      RankByCount(Sort(b), k, t);
      CountOfSort(a, t);
      CountOfSort(b, t);
      CountDominated(a, b, t);
      RankByCount(Sort(a), k, t);
    }
  }

  /** The two samples hold the same values equally often. */
  ghost predicate SameCounts(a: Sample, b: Sample) {
    |a| == |b| && forall t :: CountUpTo(a, t) == CountUpTo(b, t)
  }

  /** A sorted arrangement of the same values is the sorted copy. */
  lemma SortedCopyIsUnique(s: Sample, r: Sample)
    requires Sorted(r) && SameCounts(r, s)
    ensures r == Sort(s)
  {
    var c := Sort(s);
    SortIsSortedPermutation(s);
    forall k | 0 <= k < |r| ensures r[k] == c[k] {
      CountOfSort(s, r[k]);
      CountOfSort(s, c[k]);
      RankByCount(r, k, r[k]);
      RankByCount(c, k, r[k]);
      RankByCount(r, k, c[k]);
      RankByCount(c, k, c[k]);
    }
  }

  lemma {:induction false} CountOfConcat(a: Sample, b: Sample, t: real)
    ensures CountUpTo(a + b, t) == CountUpTo(a, t) + CountUpTo(b, t)
  {
    if a == [] {
      assert a + b == b;
    } else {
      assert (a + b)[1..] == a[1..] + b;
      CountOfConcat(a[1..], b, t);
    }
  }

  // ---------- maps that respect order ----------

  function Map(f: real -> real, s: Sample): (r: Sample)
    ensures |r| == |s| && forall i :: 0 <= i < |s| ==> r[i] == f(s[i])
  {
    seq(|s|, i requires 0 <= i < |s| => f(s[i]))
  }

  ghost predicate Increasing(f: real -> real) {
    forall x, y :: x <= y ==> f(x) <= f(y)
  }

  ghost predicate Decreasing(f: real -> real) {
    forall x, y :: x <= y ==> f(y) <= f(x)
  }

  function Reverse(s: Sample): (r: Sample)
    ensures |r| == |s| && forall i :: 0 <= i < |s| ==> r[i] == s[|s| - 1 - i]
  {
    seq(|s|, i requires 0 <= i < |s| => s[|s| - 1 - i])
  }

  lemma MapCons(f: real -> real, x: real, s: Sample)
    ensures Map(f, [x] + s) == [f(x)] + Map(f, s)
  {
  }

  lemma {:induction false} InsertOfIncreasingMap(f: real -> real, x: real, s: Sample)
    requires Increasing(f) && Sorted(s)
    ensures Insert(f(x), Map(f, s)) == Map(f, Insert(x, s))
  {
    if s == [] || x <= s[0] {
      MapCons(f, x, s);
    } else {
      InsertOfIncreasingMap(f, x, s[1..]);
      MapCons(f, s[0], Insert(x, s[1..]));
      assert Map(f, s)[1..] == Map(f, s[1..]);
      assert Map(f, s) == [f(s[0])] + Map(f, s[1..]);
    }
  }

  lemma {:induction false} SortOfIncreasingMap(f: real -> real, s: Sample)
    requires Increasing(f)
    ensures Sort(Map(f, s)) == Map(f, Sort(s))
  {
    if s == [] {
      assert Map(f, s) == [];
    } else {
      SortOfIncreasingMap(f, s[1..]);
      SortIsSortedPermutation(s[1..]);
      InsertOfIncreasingMap(f, s[0], Sort(s[1..]));
      assert Map(f, s)[1..] == Map(f, s[1..]);
    }
  }

  lemma {:induction false} CountOfMappedInsert(f: real -> real, x: real, s: Sample, t: real)
    ensures CountUpTo(Map(f, Insert(x, s)), t) == (if f(x) <= t then 1 else 0) + CountUpTo(Map(f, s), t)
  {
    if s == [] || x <= s[0] {
      assert Map(f, Insert(x, s))[1..] == Map(f, s);
    } else {
      CountOfMappedInsert(f, x, s[1..], t);
      assert Map(f, s)[1..] == Map(f, s[1..]);
      assert Map(f, Insert(x, s))[1..] == Map(f, Insert(x, s[1..]));
    }
  }

  lemma {:induction false} CountOfMappedSort(f: real -> real, s: Sample, t: real)
    ensures CountUpTo(Map(f, Sort(s)), t) == CountUpTo(Map(f, s), t)
  {
    if s == [] {
    } else {
      CountOfMappedSort(f, s[1..], t);
      CountOfMappedInsert(f, s[0], Sort(s[1..]), t);
      assert Map(f, s)[1..] == Map(f, s[1..]);
    }
  }

  lemma {:induction false} CountOfReverse(s: Sample, t: real)
    ensures CountUpTo(Reverse(s), t) == CountUpTo(s, t)
  {
    if s == [] {
    } else {
      CountOfReverse(s[1..], t);
      assert Reverse(s) == Reverse(s[1..]) + [s[0]];
      CountOfConcat(Reverse(s[1..]), [s[0]], t);
    }
  }

  lemma SortOfDecreasingMap(f: real -> real, s: Sample)
    requires Decreasing(f)
    ensures Sort(Map(f, s)) == Reverse(Map(f, Sort(s)))
  {
    var mapped := Map(f, Sort(s));
    SortIsSortedPermutation(s);
    forall t ensures CountUpTo(Reverse(mapped), t) == CountUpTo(Map(f, s), t) {
      CountOfReverse(mapped, t);
      CountOfMappedSort(f, s, t);
    }
    SortedCopyIsUnique(Map(f, s), Reverse(mapped));
  }

  lemma SortedWithin(s: Sample, low: real, high: real)
    requires forall i :: 0 <= i < |s| ==> low <= s[i] <= high
    ensures forall i :: 0 <= i < |s| ==> low <= Sort(s)[i] <= high
  {
    SortIsSortedPermutation(s);
    forall i | 0 <= i < |s| ensures low <= Sort(s)[i] <= high {
      var x := Sort(s)[i];
      assert x in multiset(Sort(s));
      assert x in s;
    }
  }
}

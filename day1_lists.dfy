/** Day 1: the distance and the similarity score of two location-id lists.
    The lists are taken already parsed; reading the file is not modelled. */
module ListDistance {
  import opened Numbers

  function Sum(s: seq<int>): int {
    if s == [] then 0 else s[0] + Sum(s[1..])
  }

  predicate Sorted(s: seq<int>) {
    forall i, j :: 0 <= i < j < |s| ==> s[i] <= s[j]
  }

  // ---------------------------------------------------------------------
  // Python's `sorted`

  /** Inserts `x` into a sorted list, keeping it sorted. */
  function Insert(x: int, s: seq<int>): (r: seq<int>)
    requires Sorted(s)
    ensures Sorted(r)
    ensures multiset(r) == multiset(s) + multiset{x}
  {
    if s == [] then [x]
    else if x <= s[0] then
      assert s == [s[0]] + s[1..];
      [x] + s
    else
      var rest := Insert(x, s[1..]);
      InsertBehindHead(x, s, rest);
      [s[0]] + rest
  }

  /** Putting the head of `s` in front of `x` inserted into the rest of `s`
      keeps the result sorted and adds exactly `x`. */
  lemma InsertBehindHead(x: int, s: seq<int>, rest: seq<int>)
    requires Sorted(s) && s != [] && s[0] < x
    requires Sorted(rest) && multiset(rest) == multiset(s[1..]) + multiset{x}
    ensures Sorted([s[0]] + rest)
    ensures multiset([s[0]] + rest) == multiset(s) + multiset{x}
  {
    assert s == [s[0]] + s[1..];
    forall k | 0 <= k < |rest| ensures s[0] <= rest[k] {
      assert rest[k] in multiset(rest);
      if rest[k] != x {
        assert rest[k] in multiset(s[1..]);
        var j :| 0 <= j < |s[1..]| && s[1..][j] == rest[k];
        assert s[j + 1] == rest[k];
      }
    }
  }

  /** Python's `sorted(s)`: the ascending permutation of `s`. */
  function Sort(s: seq<int>): (r: seq<int>)
    ensures Sorted(r)
    ensures multiset(r) == multiset(s)
  {
    if s == [] then []
    else
      assert s == [s[0]] + s[1..];
      Insert(s[0], Sort(s[1..]))
  }

  /** The first element of a non-empty sorted list is its least value. */
  lemma SortedHeadIsLeast(a: seq<int>, v: int)
    requires Sorted(a) && v in multiset(a)
    ensures a[0] <= v
  {
    var i :| 0 <= i < |a| && a[i] == v;
  }

  /** A sorted list is determined by its multiset of values. */
  lemma {:induction false} SortedUnique(a: seq<int>, b: seq<int>)
    requires Sorted(a) && Sorted(b) && multiset(a) == multiset(b)
    ensures a == b
  {
    if a != [] {
      SortedHeadsAgree(a, b);
      SortedUnique(a[1..], b[1..]);
      assert a == [a[0]] + a[1..];
      assert b == [b[0]] + b[1..];
    }
  }

  /** Two sorted lists with the same values start alike, and so do their
      tails. */
  lemma SortedHeadsAgree(a: seq<int>, b: seq<int>)
    requires Sorted(a) && Sorted(b) && multiset(a) == multiset(b) && a != []
    ensures b != [] && a[0] == b[0]
    ensures Sorted(a[1..]) && Sorted(b[1..]) && multiset(a[1..]) == multiset(b[1..])
  {
    assert |b| == |multiset(b)| == |a|;
    SortedHeadIsLeast(a, b[0]);
    SortedHeadIsLeast(b, a[0]);
    TailMultiset(a);
    TailMultiset(b);
    SortedTail(a);
    SortedTail(b);
  }

  lemma SortedTail(a: seq<int>)
    requires Sorted(a) && a != []
    ensures Sorted(a[1..])
  {
  }

  /** Dropping the head removes one copy of it from the multiset. */
  lemma TailMultiset(a: seq<int>)
    requires a != []
    ensures multiset(a[1..]) == multiset(a) - multiset{a[0]}
  {
    assert a == [a[0]] + a[1..];
  }

  /** Sorting depends only on the multiset of values. */
  lemma SortIgnoresOrder(s: seq<int>, t: seq<int>)
    requires multiset(s) == multiset(t)
    ensures Sort(s) == Sort(t)
  {
    SortedUnique(Sort(s), Sort(t));
  }

  // ---------------------------------------------------------------------
  // calculate_total_list_distance

  /** `[abs(x - y) for x, y in zip(a, b)]`: pairs up to the shorter length. */
  function PairDistances(a: seq<int>, b: seq<int>): (d: seq<int>)
    ensures |d| == if |a| < |b| then |a| else |b|
    ensures forall i :: 0 <= i < |d| ==> d[i] == Abs(a[i] - b[i])
  {
    if a == [] || b == [] then []
    else [Abs(a[0] - b[0])] + PairDistances(a[1..], b[1..])
  }

  /** calculate_total_list_distance on the two already loaded lists. */
  function TotalListDistance(first: seq<int>, second: seq<int>): int {
    Sum(PairDistances(Sort(first), Sort(second)))
  }

  lemma {:induction false} SumNonNegative(s: seq<int>)
    requires forall i :: 0 <= i < |s| ==> s[i] >= 0
    ensures Sum(s) >= 0
    ensures Sum(s) == 0 <==> forall i :: 0 <= i < |s| ==> s[i] == 0
  {
    if s != [] {
      SumNonNegative(s[1..]);
      assert forall i :: 1 <= i < |s| ==> s[1..][i - 1] == s[i];
    }
  }

  /** The distance is the sum of `|a_i - b_i|` over the sorted lists,
      index by index up to the shorter length, and it is never negative. */
  lemma TotalListDistanceIsPairedSum(first: seq<int>, second: seq<int>)
    ensures var d := PairDistances(Sort(first), Sort(second));
      && TotalListDistance(first, second) == Sum(d)
      && |d| == (if |first| < |second| then |first| else |second|)
      && (forall i :: 0 <= i < |d| ==> d[i] == Abs(Sort(first)[i] - Sort(second)[i]))
    ensures TotalListDistance(first, second) >= 0
  {
    var a, b := Sort(first), Sort(second);
    assert |a| == |multiset(a)| == |first| && |b| == |multiset(b)| == |second|;
    SumNonNegative(PairDistances(a, b));
  }

  /** Reordering either list leaves the distance unchanged. */
  lemma TotalListDistanceIgnoresOrder(first: seq<int>, second: seq<int>, first': seq<int>, second': seq<int>)
    requires multiset(first) == multiset(first') && multiset(second) == multiset(second')
    ensures TotalListDistance(first, second) == TotalListDistance(first', second')
  {
    SortIgnoresOrder(first, first');
    SortIgnoresOrder(second, second');
  }

  /** For lists of equal length the distance is zero exactly when one is a
      permutation of the other. */
  lemma TotalListDistanceZero(first: seq<int>, second: seq<int>)
    requires |first| == |second|
    ensures TotalListDistance(first, second) == 0 <==> multiset(first) == multiset(second)
  {
    var a, b := Sort(first), Sort(second);
    var d := PairDistances(a, b);
    assert |a| == |multiset(a)| == |first| && |b| == |multiset(b)| == |second|;
    SumNonNegative(d);
    if multiset(first) == multiset(second) {
      SortIgnoresOrder(first, second);
      assert forall i :: 0 <= i < |d| ==> d[i] == 0;
    }
    if TotalListDistance(first, second) == 0 {
      assert forall i :: 0 <= i < |a| ==> a[i] == b[i] by {
        forall i | 0 <= i < |a| ensures a[i] == b[i] {
          assert d[i] == Abs(a[i] - b[i]) == 0;
        }
      }
      assert a == b;
    }
  }

  // ---------------------------------------------------------------------
  // calculate_similarity_score

  /** `Counter(s)`: every value of `s` mapped to how often it occurs. */
  function Tally(s: seq<int>): (m: map<int, nat>)
    ensures forall v :: v in m <==> v in s
    ensures forall v :: v in m ==> m[v] == multiset(s)[v] && m[v] > 0
  {
    if s == [] then map[]
    else
      var last := s[|s| - 1];
      var init := Tally(s[..|s| - 1]);
      assert s == s[..|s| - 1] + [last];
      init[last := if last in init then init[last] + 1 else 1]
  }

  /** `[v * counter.get(v) for v in first if counter.get(v)]`. */
  function Similarities(first: seq<int>, counter: map<int, nat>): seq<int> {
    if first == [] then []
    else
      var v := first[0];
      (if v in counter && counter[v] != 0 then [v * counter[v]] else [])
      + Similarities(first[1..], counter)
  }

  /** calculate_similarity_score on the two already loaded lists. */
  function SimilarityScore(first: seq<int>, second: seq<int>): int {
    Sum(Similarities(first, Tally(second)))
  }

  /** Reference definition: each value of the first list weighted by the
      number of its occurrences in the second list. */
  function WeightedOccurrences(first: seq<int>, second: seq<int>): int {
    if first == [] then 0
    else first[0] * multiset(second)[first[0]] + WeightedOccurrences(first[1..], second)
  }

  lemma SumConcat(a: seq<int>, b: seq<int>)
    ensures Sum(a + b) == Sum(a) + Sum(b)
  {
    if a == [] {
      assert a + b == b;
    } else {
      assert (a + b)[0] == a[0] && (a + b)[1..] == a[1..] + b;
      SumConcat(a[1..], b);
    }
  }

  /** The similarity score is the sum over the first list of each value times
      its number of occurrences in the second list. */
  lemma {:induction false} SimilarityScoreIsWeightedSum(first: seq<int>, second: seq<int>)
    ensures SimilarityScore(first, second) == WeightedOccurrences(first, second)
  {
    if first != [] {
      var counter := Tally(second);
      var v := first[0];
      var head := if v in counter && counter[v] != 0 then [v * counter[v]] else [];
      SumConcat(head, Similarities(first[1..], counter));
      SimilarityScoreIsWeightedSum(first[1..], second);
    }
  }

  /** A value absent from the second list contributes nothing. */
  lemma SimilarityIgnoresAbsent(v: int, first: seq<int>, second: seq<int>)
    requires v !in second
    ensures SimilarityScore([v] + first, second) == SimilarityScore(first, second)
  {
    var counter := Tally(second);
    assert v !in counter;
    assert ([v] + first)[0] == v && ([v] + first)[1..] == first;
    var rest := Similarities(first, counter);
    assert Similarities([v] + first, counter) == [] + rest;
    assert [] + rest == rest;
  }

  /** Reordering the second list leaves the score unchanged. */
  lemma SimilarityIgnoresOrderOfSecond(first: seq<int>, second: seq<int>, second': seq<int>)
    requires multiset(second) == multiset(second')
    ensures SimilarityScore(first, second) == SimilarityScore(first, second')
  {
    SimilarityScoreIsWeightedSum(first, second);
    SimilarityScoreIsWeightedSum(first, second');
    WeightedOccurrencesDependsOnMultiset(first, second, second');
  }

  lemma {:induction false} WeightedOccurrencesDependsOnMultiset(first: seq<int>, second: seq<int>, second': seq<int>)
    requires multiset(second) == multiset(second')
    ensures WeightedOccurrences(first, second) == WeightedOccurrences(first, second')
  {
    if first != [] {
      WeightedOccurrencesDependsOnMultiset(first[1..], second, second');
    }
  }
}

/** Models of the handful of Python string operations the puzzle solvers rely on:
    `str.find`, `str.split`, `str.join`, `str.count` and the start offsets that
    `re.finditer` reports for a literal pattern. Every scan is the leftmost,
    non-overlapping scan Python performs. */
module Strings {

  datatype Option<T> = None | Some(value: T)

  /** `p` occurs in `s` starting at offset `i`. */
  predicate OccursAt(s: string, p: string, i: int) {
    0 <= i && i + |p| <= |s| && s[i..i + |p|] == p
  }

  /** `p` occurs somewhere in `s` (Python's `p in s`). */
  predicate Contains(s: string, p: string) {
    exists i :: 0 <= i <= |s| && OccursAt(s, p, i)
  }

  /** No proper suffix of `p` is also a prefix of `p`: two occurrences of such
      a pattern can never overlap. */
  predicate OverlapFree(p: string) {
    forall k :: 0 < k < |p| ==> p[k..] != p[..|p| - k]
  }

  /** Leftmost occurrence of `p` at or after `i` (Python's `s.find(p, i)`). */
  function FindFrom(s: string, p: string, i: nat): (r: Option<nat>)
    decreases |s| - i
    ensures r.Some? ==> i <= r.value && r.value + |p| <= |s|
  {
    if i + |p| > |s| then None
    else if s[i..i + |p|] == p then Some(i)
    else FindFrom(s, p, i + 1)
  }

  /** `FindFrom` reports the leftmost occurrence, and `None` only when there
      is no occurrence at or after `i`. */
  lemma {:induction false} FindFromLeftmost(s: string, p: string, i: nat)
    decreases |s| - i
    ensures FindFrom(s, p, i).Some? ==> OccursAt(s, p, FindFrom(s, p, i).value)
    ensures FindFrom(s, p, i).Some? ==> forall j :: i <= j < FindFrom(s, p, i).value ==> !OccursAt(s, p, j)
    ensures FindFrom(s, p, i).None? ==> forall j :: i <= j ==> !OccursAt(s, p, j)
  {
    if i + |p| <= |s| && s[i..i + |p|] != p {
      FindFromLeftmost(s, p, i + 1);
    }
  }

  /** The leftmost occurrence at or after `i` is the one `FindFrom` reports. */
  lemma FindFromFirst(s: string, p: string, i: nat, k: nat)
    requires i <= k && OccursAt(s, p, k)
    requires forall j :: i <= j < k ==> !OccursAt(s, p, j)
    ensures FindFrom(s, p, i) == Some(k)
  {
    FindFromLeftmost(s, p, i);
  }

  /** An occurrence starts with the pattern's first character. */
  lemma OccursAtHead(s: string, p: string, i: int)
    requires |p| > 0 && OccursAt(s, p, i)
    ensures s[i] == p[0]
  {
    assert s[i..i + |p|][0] == s[i];
  }

  /** Python's `s.split(sep)`: the pieces between leftmost, non-overlapping
      occurrences of `sep`. */
  function Split(s: string, sep: string): (parts: seq<string>)
    requires |sep| > 0
    decreases |s|
    ensures |parts| >= 1
  {
    match FindFrom(s, sep, 0)
    case None => [s]
    case Some(k) => [s[..k]] + Split(s[k + |sep|..], sep)
  }

  /** Python's `sep.join(parts)` for a non-empty list. */
  function Join(parts: seq<string>, sep: string): string
    requires |parts| >= 1
  {
    if |parts| == 1 then parts[0] else parts[0] + sep + Join(parts[1..], sep)
  }

  /** Python's `"".join(parts)`. */
  function Concat(parts: seq<string>): string {
    if parts == [] then "" else parts[0] + Concat(parts[1..])
  }

  /** Start offsets reported by `re.finditer(p, s)` at or after `i` for a
      literal pattern: after a match the scan resumes at its end. */
  function MatchStarts(s: string, p: string, i: nat): (r: seq<nat>)
    requires |p| > 0
    decreases |s| - i
    ensures forall k :: 0 <= k < |r| ==> i <= r[k] && OccursAt(s, p, r[k])
  {
    if i + |p| > |s| then []
    else if s[i..i + |p|] == p then [i] + MatchStarts(s, p, i + |p|)
    else MatchStarts(s, p, i + 1)
  }

  /** Python's `s.count(p)` for a non-empty pattern: the number of
      non-overlapping occurrences found left to right. */
  function Count(s: string, p: string): nat
    requires |p| > 0
  {
    |MatchStarts(s, p, 0)|
  }

  /** Every offset at which `p` occurs in `s`, overlapping or not. */
  function Occurrences(s: string, p: string): set<nat> {
    set i: nat | i <= |s| && OccursAt(s, p, i)
  }

  // ---------------------------------------------------------------------
  // Lemmas about the scans

  /** Two occurrences of an overlap-free pattern are at least `|p|` apart. */
  lemma OverlapFreeApart(s: string, p: string, i: int, j: int)
    requires OverlapFree(p)
    requires OccursAt(s, p, i) && OccursAt(s, p, j) && i < j
    ensures j >= i + |p|
  {
    if j < i + |p| {
      OverlapIsBorder(s, p, i, j);
    }
  }

  /** Two overlapping occurrences make a suffix of `p` equal to a prefix of `p`. */
  lemma OverlapIsBorder(s: string, p: string, i: int, j: int)
    requires OccursAt(s, p, i) && OccursAt(s, p, j) && i < j < i + |p|
    ensures p[j - i..] == p[..|p| - (j - i)]
  {
    var k := j - i;
    forall t | 0 <= t < |p| - k
      ensures p[k..][t] == p[..|p| - k][t]
    {
      assert p[k + t] == s[i..i + |p|][k + t] == s[j..j + |p|][t] == p[t];
    }
  }

  /** For an overlap-free pattern the non-overlapping scan misses nothing:
      it reports exactly the offsets where the pattern occurs. */
  lemma {:induction false} MatchStartsComplete(s: string, p: string, i: nat, m: int)
    requires |p| > 0 && OverlapFree(p)
    decreases |s| - i
    ensures m in MatchStarts(s, p, i) <==> i <= m && OccursAt(s, p, m)
  {
    if i + |p| > |s| {
    } else if s[i..i + |p|] == p {
      MatchStartsComplete(s, p, i + |p|, m);
      if i < m < i + |p| && OccursAt(s, p, m) {
        OverlapFreeApart(s, p, i, m);
      }
    } else {
      MatchStartsComplete(s, p, i + 1, m);
    }
  }

  /** The reported offsets strictly increase. */
  lemma {:induction false} MatchStartsIncreasing(s: string, p: string, i: nat)
    requires |p| > 0
    decreases |s| - i
    ensures Increasing(MatchStarts(s, p, i))
  {
    if i + |p| > |s| {
    } else if s[i..i + |p|] == p {
      MatchStartsIncreasing(s, p, i + |p|);
    } else {
      MatchStartsIncreasing(s, p, i + 1);
    }
  }

  /** A pattern whose first character appears nowhere else in it cannot
      overlap itself. */
  lemma HeadUniqueOverlapFree(p: string)
    requires forall k :: 0 < k < |p| ==> p[k] != p[0]
    ensures OverlapFree(p)
  {
    forall k | 0 < k < |p| ensures p[k..] != p[..|p| - k] {
      assert p[k..][0] != p[..|p| - k][0];
    }
  }

  /** `s.count(p)` of an overlap-free pattern is the number of places it occurs. */
  lemma CountIsOccurrences(s: string, p: string)
    requires |p| > 0 && OverlapFree(p)
    ensures Count(s, p) == |Occurrences(s, p)|
  {
    var r := MatchStarts(s, p, 0);
    MatchStartsIncreasing(s, p, 0);
    forall m | true ensures m in r <==> m in Occurrences(s, p) {
      MatchStartsComplete(s, p, 0, m);
    }
    assert Occurrences(s, p) == Elements(r);
    DistinctCardinality(r);
  }

  /** `r` is strictly increasing. */
  predicate Increasing(r: seq<nat>) {
    forall a, b :: 0 <= a < b < |r| ==> r[a] < r[b]
  }

  /** The set of values listed in `r`. */
  function Elements(r: seq<nat>): set<nat> {
    set m | m in r
  }

  /** A strictly increasing sequence has as many elements as its set. */
  lemma {:induction false} DistinctCardinality(r: seq<nat>)
    requires Increasing(r)
    ensures |Elements(r)| == |r|
  {
    if r != [] {
      var tail := r[1..];
      DistinctCardinality(tail);
      assert Elements(r) == {r[0]} + Elements(tail);
      assert r[0] !in Elements(tail);
    }
  }

  /** A pattern with a character that does not appear in `s` is never counted. */
  lemma CountWithoutChar(s: string, p: string, k: nat)
    requires k < |p| && p[k] !in s
    ensures Count(s, p) == 0
  {
    NoMatchStarts(s, p, k, 0);
  }

  lemma {:induction false} NoMatchStarts(s: string, p: string, k: nat, i: nat)
    requires k < |p| && p[k] !in s
    decreases |s| - i
    ensures MatchStarts(s, p, i) == []
  {
    if i + |p| <= |s| {
      assert s[i..i + |p|][k] == s[i + k] && s[i + k] in s;
      NoMatchStarts(s, p, k, i + 1);
    }
  }

  // ---------------------------------------------------------------------
  // Lemmas about split and join

  /** Joining the pieces of a split with the separator gives the text back. */
  lemma {:induction false} SplitJoin(s: string, sep: string)
    requires |sep| > 0
    decreases |s|
    ensures Join(Split(s, sep), sep) == s
  {
    match FindFrom(s, sep, 0)
    case None =>
    case Some(k) =>
      var rest := s[k + |sep|..];
      var tail := Split(rest, sep);
      SplitJoin(rest, sep);
      var parts := [s[..k]] + tail;
      assert Split(s, sep) == parts;
      assert parts[1..] == tail;
      assert Join(parts, sep) == s[..k] + sep + Join(tail, sep);
      FindFromLeftmost(s, sep, 0);
      assert s == s[..k] + s[k..k + |sep|] + rest;
  }

  /** An occurrence inside a prefix is an occurrence in the whole. */
  lemma OccursInPrefix(s: string, p: string, k: nat, j: int)
    requires k <= |s| && OccursAt(s[..k], p, j)
    ensures OccursAt(s, p, j)
  {
    forall t | 0 <= t < |p| ensures s[j..j + |p|][t] == p[t] {
      assert s[..k][j..j + |p|][t] == s[j + t];
    }
  }

  /** No piece of a split contains the separator. */
  lemma {:induction false} SplitPiecesFree(s: string, sep: string)
    requires |sep| > 0
    decreases |s|
    ensures forall t :: 0 <= t < |Split(s, sep)| ==> !Contains(Split(s, sep)[t], sep)
  {
    match FindFrom(s, sep, 0)
    case None =>
      FindFromLeftmost(s, sep, 0);
      assert Split(s, sep) == [s];
    case Some(k) =>
      var rest := s[k + |sep|..];
      SplitPiecesFree(rest, sep);
      var parts := Split(s, sep);
      assert parts == [s[..k]] + Split(rest, sep);
      FindFromLeftmost(s, sep, 0);
      forall j | OccursAt(s[..k], sep, j) ensures false {
        OccursInPrefix(s, sep, k, j);
      }
      forall t | 0 <= t < |parts| ensures !Contains(parts[t], sep) {
        if t > 0 {
          assert parts[t] == Split(rest, sep)[t - 1];
        }
      }
  }

  /** Splitting at the first occurrence of the separator. */
  lemma SplitAtFirst(s: string, sep: string, k: nat)
    requires |sep| > 0 && FindFrom(s, sep, 0) == Some(k)
    ensures Split(s, sep) == [s[..k]] + Split(s[k + |sep|..], sep)
  {
  }

  /** Splitting text that does not contain the separator yields the text alone. */
  lemma SplitWithoutSeparator(s: string, sep: string)
    requires |sep| > 0 && !Contains(s, sep)
    ensures Split(s, sep) == [s]
  {
    FindFromLeftmost(s, sep, 0);
  }

  /** Splitting text that contains the separator yields at least two pieces. */
  lemma SplitWithSeparator(s: string, sep: string)
    requires |sep| > 0 && Contains(s, sep)
    ensures |Split(s, sep)| >= 2
  {
    var j :| OccursAt(s, sep, j);
    FindFromLeftmost(s, sep, 0);
  }

  /** Length of a join: the pieces plus one separator between neighbours. */
  lemma {:induction false} JoinLength(parts: seq<string>, sep: string)
    requires |parts| >= 1
    ensures |Join(parts, sep)| == |Concat(parts)| + (|parts| - 1) * |sep|
  {
    if |parts| > 1 {
      JoinLength(parts[1..], sep);
    }
  }

  /** `"".join` of a list whose first piece is `x`. */
  lemma ConcatCons(x: string, rest: seq<string>)
    ensures Concat([x] + rest) == x + Concat(rest)
  {
    assert ([x] + rest)[1..] == rest;
  }
}

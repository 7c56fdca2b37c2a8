/**
 * Similarity scoring (src/App.jsx:116-184): the Levenshtein distance
 * `lev` over normalised text, the suggestion score `scoreCandidate`
 * and the typo-tolerant `isFuzzyNameMatch`. Ratios are exact `real`s.
 */
module Similarity {
  import opened Text

  function Min3(x: nat, y: nat, z: nat): (r: nat)
    ensures r <= x && r <= y && r <= z
    ensures r == x || r == y || r == z
  {
    if x <= y && x <= z then x else if y <= z then y else z
  }

  function Max(x: nat, y: nat): nat {
    if x >= y then x else y
  }

  /**
   * The unit-cost edit distance between the first `i` characters of `a`
   * and the first `j` characters of `b`: the recurrence the table follows.
   */
  function Dist(a: string, b: string, i: nat, j: nat): nat
    requires i <= |a| && j <= |b|
    decreases i + j
  {
    if i == 0 then j
    else if j == 0 then i
    else Min3(Dist(a, b, i - 1, j) + 1,
              Dist(a, b, i, j - 1) + 1,
              Dist(a, b, i - 1, j - 1) + (if a[i - 1] == b[j - 1] then 0 else 1))
  }

  function EditDistance(a: string, b: string): nat {
    Dist(a, b, |a|, |b|)
  }

  /** `lev`: the edit distance between the normalised inputs. */
  function Levenshtein(a: string, b: string): nat {
    EditDistance(ToNorm(a), ToNorm(b))
  }

  /** `lev` as the source computes it: normalise, answer directly when one side is empty, else fill the table. */
  method Lev(a: string, b: string) returns (r: nat)
    ensures r == Levenshtein(a, b)
  {
    var x := ToNorm(a);
    var y := ToNorm(b);
    if |x| == 0 {
      return |y|;
    }
    if |y| == 0 {
      return |x|;
    }
    r := FillTable(x, y);
  }

  /** The dynamic-programming table of `lev`, filled row by row; its last cell is the distance. */
  method FillTable(x: string, y: string) returns (r: nat)
    ensures r == EditDistance(x, y)
  {
    var n, m := |x|, |y|;
    var d := new nat[n + 1, m + 1];
    InitBorders(d);
    var i := 1;
    while i <= n
      invariant 1 <= i <= n + 1
      invariant forall p | 0 <= p <= n :: d[p, 0] == p
      invariant forall p, q {:trigger d[p, q]} | 0 <= p < i && 0 <= q <= m :: d[p, q] == Dist(x, y, p, q)
    {
      FillRow(d, x, y, i);
      i := i + 1;
    }
    r := d[n, m];
  }

  /** Column 0 and row 0: the distances from and to an empty prefix. */
  method InitBorders(d: array2<nat>)
    requires d.Length0 > 0 && d.Length1 > 0
    modifies d
    ensures forall p | 0 <= p < d.Length0 :: d[p, 0] == p
    ensures forall q | 0 <= q < d.Length1 :: d[0, q] == q
  {
    var i := 0;
    while i < d.Length0
      invariant 0 <= i <= d.Length0
      invariant forall p | 0 <= p < i :: d[p, 0] == p
    {
      d[i, 0] := i;
      i := i + 1;
    }
    var j := 0;
    while j < d.Length1
      invariant 0 <= j <= d.Length1
      invariant forall p | 0 <= p < d.Length0 :: d[p, 0] == p
      invariant forall q | 0 <= q < j :: d[0, q] == q
    {
      d[0, j] := j;
      j := j + 1;
    }
  }

  /** Row `i` of the table, from the row above it. */
  method FillRow(d: array2<nat>, x: string, y: string, i: nat)
    requires d.Length0 == |x| + 1 && d.Length1 == |y| + 1 && 1 <= i <= |x|
    requires forall p | 0 <= p <= |x| :: d[p, 0] == p
    requires forall p, q {:trigger d[p, q]} | 0 <= p < i && 0 <= q <= |y| :: d[p, q] == Dist(x, y, p, q)
    modifies d
    ensures forall p | 0 <= p <= |x| :: d[p, 0] == p
    ensures forall p, q {:trigger d[p, q]} | 0 <= p <= i && 0 <= q <= |y| :: d[p, q] == Dist(x, y, p, q)
  {
    var j := 1;
    while j <= |y|
      invariant 1 <= j <= |y| + 1
      invariant forall p | 0 <= p <= |x| :: d[p, 0] == p
      invariant forall p, q {:trigger d[p, q]} | 0 <= p <= i && 0 <= q <= |y| && (p < i || q < j) :: d[p, q] == Dist(x, y, p, q)
    {
      var cost := if x[i - 1] == y[j - 1] then 0 else 1;
      d[i, j] := Min3(d[i - 1, j] + 1, d[i, j - 1] + 1, d[i - 1, j - 1] + cost);
      j := j + 1;
    }
  }

  // ---------------------------------------------------------------------
  // Properties of the edit distance

  lemma {:induction false} DistSamePrefix(a: string, b: string, i: nat)
    requires i <= |a| && i <= |b| && a[..i] == b[..i]
    ensures Dist(a, b, i, i) == 0
  {
    if i > 0 {
      assert a[..i - 1] == a[..i][..i - 1] && b[..i - 1] == b[..i][..i - 1];
      assert a[i - 1] == a[..i][i - 1];
      DistSamePrefix(a, b, i - 1);
    }
  }

  /** `lev(a, a) = 0`. */
  lemma EditDistanceSelf(a: string)
    ensures EditDistance(a, a) == 0
  {
    DistSamePrefix(a, a, |a|);
  }

  lemma {:induction false} DistSymmetric(a: string, b: string, i: nat, j: nat)
    requires i <= |a| && j <= |b|
    ensures Dist(a, b, i, j) == Dist(b, a, j, i)
    decreases i + j
  {
    if i > 0 && j > 0 {
      DistSymmetric(a, b, i - 1, j);
      DistSymmetric(a, b, i, j - 1);
      DistSymmetric(a, b, i - 1, j - 1);
      var cost := if a[i - 1] == b[j - 1] then 0 else 1;
      Min3Swap(Dist(a, b, i - 1, j) + 1, Dist(a, b, i, j - 1) + 1, Dist(a, b, i - 1, j - 1) + cost);
    }
  }

  lemma Min3Swap(x: nat, y: nat, z: nat)
    ensures Min3(x, y, z) == Min3(y, x, z)
  {
  }

  /** The distance does not depend on the order of its arguments. */
  lemma EditDistanceSymmetric(a: string, b: string)
    ensures EditDistance(a, b) == EditDistance(b, a)
  {
    DistSymmetric(a, b, |a|, |b|);
  }

  lemma {:induction false} DistAtMostMax(a: string, b: string, i: nat, j: nat)
    requires i <= |a| && j <= |b|
    ensures Dist(a, b, i, j) <= Max(i, j)
    decreases i + j
  {
    if i > 0 && j > 0 {
      DistAtMostMax(a, b, i - 1, j - 1);
    }
  }

  /** The distance never exceeds the longer length. */
  lemma EditDistanceAtMostMax(a: string, b: string)
    ensures EditDistance(a, b) <= Max(|a|, |b|)
  {
    DistAtMostMax(a, b, |a|, |b|);
  }

  lemma {:induction false} DistAtLeastDiff(a: string, b: string, i: nat, j: nat)
    requires i <= |a| && j <= |b|
    ensures Dist(a, b, i, j) >= i - j && Dist(a, b, i, j) >= j - i
    decreases i + j
  {
    if i > 0 && j > 0 {
      DistAtLeastDiff(a, b, i - 1, j);
      DistAtLeastDiff(a, b, i, j - 1);
      DistAtLeastDiff(a, b, i - 1, j - 1);
    }
  }

  /** The distance is at least the difference of the lengths. */
  lemma EditDistanceAtLeastDiff(a: string, b: string)
    ensures EditDistance(a, b) >= |a| - |b| && EditDistance(a, b) >= |b| - |a|
  {
    DistAtLeastDiff(a, b, |a|, |b|);
  }

  /** Against the empty string the distance is the length. */
  lemma EditDistanceEmpty(a: string)
    ensures EditDistance(a, []) == |a| && EditDistance([], a) == |a|
  {
  }

  /** `lev` normalises its inputs, so text that is already normalised is compared as it is. */
  lemma LevenshteinNormalized(a: string, b: string)
    requires Normalized(a) && Normalized(b)
    ensures Levenshtein(a, b) == EditDistance(a, b)
  {
    NormalizedIffFixed(a);
    NormalizedIffFixed(b);
  }

  /** Normalising first makes no difference to `lev`. */
  lemma LevenshteinOfNorm(a: string, b: string)
    ensures Levenshtein(ToNorm(a), ToNorm(b)) == Levenshtein(a, b)
  {
    ToNormIdempotent(a);
    ToNormIdempotent(b);
  }

  /** Dropping the character at `k`, then the prefix `i` of the shorter text against `i + 1` of the longer. */
  lemma {:induction false} DistDeleteOne(a: string, k: nat, i: nat)
    requires k < |a| && k <= i < |a|
    ensures Dist(a[..k] + a[k + 1..], a, i, i + 1) <= 1
    decreases i
  {
    var x := a[..k] + a[k + 1..];
    if i == k {
      assert x[..k] == a[..k];
      DistSamePrefix(x, a, k);
    } else {
      DistDeleteOne(a, k, i - 1);
      assert x[i - 1] == a[i];
    }
  }

  /** Deleting one character is one edit. */
  lemma EditDistanceDeleteOne(a: string, k: nat)
    requires k < |a|
    ensures EditDistance(a[..k] + a[k + 1..], a) <= 1
  {
    DistDeleteOne(a, k, |a| - 1);
  }

  // ---------------------------------------------------------------------
  // Scores

  /** `1 - lev(x, y) / max(x.length, y.length)`. */
  function Sim(x: string, y: string): real
    requires x != [] || y != []
  {
    1.0 - (Levenshtein(x, y) as real) / (Max(|x|, |y|) as real)
  }

  /** Some candidate word contains `qw`. */
  predicate SomeContains(cWords: seq<string>, qw: string) {
    exists j | 0 <= j < |cWords| :: Contains(cWords[j], qw)
  }

  /** `qWords.filter(qw => cWords.some(cw => cw.includes(qw))).length`. */
  function MatchingWords(qWords: seq<string>, cWords: seq<string>): (r: nat)
    ensures r <= |qWords|
  {
    if qWords == [] then 0
    else (if SomeContains(cWords, qWords[0]) then 1 else 0) + MatchingWords(qWords[1..], cWords)
  }

  /** `scoreCandidate`. */
  function ScoreCandidate(q: string, cand: string): (r: real)
    ensures ToNorm(q) == [] ==> r == 0.0
    ensures ToNorm(q) != [] && Contains(ToNorm(cand), ToNorm(q)) ==> r == 100.0
    ensures ToNorm(q) != [] && !Contains(ToNorm(cand), ToNorm(q)) ==> 0.0 <= r <= 1.0
  {
    var qs := ToNorm(q);
    var cs := ToNorm(cand);
    if qs == [] then 0.0
    else if Contains(cs, qs) then 100.0
    else
      var qWords := Words(qs);
      var cWords := Words(cs);
      var coverage := (MatchingWords(qWords, cWords) as real) / (Max(1, |qWords|) as real);
      RatioInUnit(MatchingWords(qWords, cWords), Max(1, |qWords|));
      SimInUnit(qs, cs);
      coverage * 0.7 + Sim(qs, cs) * 0.3
  }

  /** A count over a bound that is at least the count lies in [0, 1]. */
  lemma RatioInUnit(k: nat, m: nat)
    requires 0 < m && k <= m
    ensures 0.0 <= (k as real) / (m as real) <= 1.0
  {
    var r := (k as real) / (m as real);
    assert r * (m as real) == k as real;
  }

  lemma SimInUnit(x: string, y: string)
    requires x != [] || y != []
    ensures 0.0 <= Sim(x, y) <= 1.0
  {
    LevenshteinBound(x, y);
    RatioInUnit(Levenshtein(x, y), Max(|x|, |y|));
  }

  /** `lev(x, y)` never exceeds the longer raw length, since normalising never lengthens text. */
  lemma LevenshteinBound(x: string, y: string)
    ensures Levenshtein(x, y) <= Max(|x|, |y|)
  {
    EditDistanceAtMostMax(ToNorm(x), ToNorm(y));
  }

  /** A score of exactly 100 marks containment of the normalised query, and nothing else. */
  lemma ScoreHundredIffContains(q: string, cand: string)
    ensures ScoreCandidate(q, cand) == 100.0 <==> ToNorm(q) != [] && Contains(ToNorm(cand), ToNorm(q))
  {
  }

  /** The per-word test of `isFuzzyNameMatch` on one pair. */
  predicate SimilarWords(qw: string, lw: string) {
    |qw| >= 3 && |lw| >= 3 && Sim(qw, lw) >= 0.7
  }

  /** `lWords.some(lw => SimilarWords(qw, lw))`. */
  predicate CloseTo(qw: string, lWords: seq<string>) {
    lWords != [] && (SimilarWords(qw, lWords[0]) || CloseTo(qw, lWords[1..]))
  }

  /** `qWords.some(qw => CloseTo(qw, lWords))`: the per-word rule. */
  predicate CloseWords(qWords: seq<string>, lWords: seq<string>) {
    qWords != [] && (CloseTo(qWords[0], lWords) || CloseWords(qWords[1..], lWords))
  }

  lemma {:induction false} CloseToExists(qw: string, lWords: seq<string>)
    ensures CloseTo(qw, lWords) <==> exists j | 0 <= j < |lWords| :: SimilarWords(qw, lWords[j])
  {
    if lWords != [] {
      CloseToExists(qw, lWords[1..]);
      if exists j | 0 <= j < |lWords| :: SimilarWords(qw, lWords[j]) {
        var j :| 0 <= j < |lWords| && SimilarWords(qw, lWords[j]);
        if j > 0 {
          assert lWords[1..][j - 1] == lWords[j];
        }
      }
    }
  }

  /** The per-word rule holds exactly when some pair of words is similar. */
  lemma {:induction false} CloseWordsExists(qWords: seq<string>, lWords: seq<string>)
    ensures CloseWords(qWords, lWords) <==>
      exists i, j | 0 <= i < |qWords| && 0 <= j < |lWords| :: SimilarWords(qWords[i], lWords[j])
  {
    if qWords != [] {
      CloseWordsExists(qWords[1..], lWords);
      CloseToExists(qWords[0], lWords);
      if exists i, j | 0 <= i < |qWords| && 0 <= j < |lWords| :: SimilarWords(qWords[i], lWords[j]) {
        var i, j :| 0 <= i < |qWords| && 0 <= j < |lWords| && SimilarWords(qWords[i], lWords[j]);
        if i > 0 {
          assert qWords[1..][i - 1] == qWords[i];
        }
      }
    }
  }

  /** `isFuzzyNameMatch`, stated as the three ways to match. */
  predicate IsFuzzyNameMatch(query: string, name: string) {
    var q := ToNorm(query);
    var l := ToNorm(name);
    q != [] && l != [] &&
    (Contains(l, q) || Sim(q, l) >= 0.6 || CloseWords(Words(q), Words(l)))
  }

  /** `isFuzzyNameMatch` as the source runs it: early returns, then the loops over word pairs. */
  method FuzzyNameMatch(query: string, name: string) returns (b: bool)
    ensures b == IsFuzzyNameMatch(query, name)
  {
    var q := ToNorm(query);
    var l := ToNorm(name);
    if q == [] || l == [] {
      return false;
    }
    if Contains(l, q) {
      return true;
    }
    var wholeDist := Lev(q, l);
    if 1.0 - (wholeDist as real) / (Max(|q|, |l|) as real) >= 0.6 {
      return true;
    }
    b := AnyCloseWords(Words(q), Words(l));
  }

  /** The outer loop of `isFuzzyNameMatch`: query words shorter than three characters are skipped. */
  method AnyCloseWords(qWords: seq<string>, lWords: seq<string>) returns (b: bool)
    ensures b == CloseWords(qWords, lWords)
  {
    var i := 0;
    while i < |qWords|
      invariant 0 <= i <= |qWords|
      invariant CloseWords(qWords, lWords) == CloseWords(qWords[i..], lWords)
    {
      assert qWords[i..][1..] == qWords[i + 1..];
      var qw := qWords[i];
      if |qw| >= 3 {
        var hit := AnyCloseTo(qw, lWords);
        if hit {
          return true;
        }
      } else {
        ShortNotClose(qw, lWords);
      }
      i := i + 1;
    }
    return false;
  }

  lemma {:induction false} ShortNotClose(qw: string, lWords: seq<string>)
    requires |qw| < 3
    ensures !CloseTo(qw, lWords)
  {
    if lWords != [] {
      ShortNotClose(qw, lWords[1..]);
    }
  }

  /** The inner loop of `isFuzzyNameMatch`: name words shorter than three characters are skipped. */
  method AnyCloseTo(qw: string, lWords: seq<string>) returns (b: bool)
    requires |qw| >= 3
    ensures b == CloseTo(qw, lWords)
  {
    var j := 0;
    while j < |lWords|
      invariant 0 <= j <= |lWords|
      invariant CloseTo(qw, lWords) == CloseTo(qw, lWords[j..])
    {
      assert lWords[j..][1..] == lWords[j + 1..];
      var lw := lWords[j];
      if |lw| >= 3 {
        var d := Lev(qw, lw);
        var sim := 1.0 - (d as real) / (Max(|qw|, |lw|) as real);
        if sim >= 0.7 {
          return true;
        }
      }
      j := j + 1;
    }
    return false;
  }

  /**
   * A one-character typo in a normalised name of five or more characters is
   * forgiven by the whole-string rule: the similarity is at least 0.8.
   */
  lemma OneDeletionIsFuzzy(l: string, k: nat)
    requires Normalized(l) && |l| >= 5 && k < |l|
    requires Normalized(l[..k] + l[k + 1..])
    ensures l[..k] + l[k + 1..] != [] && Sim(l[..k] + l[k + 1..], l) >= 0.8
    ensures IsFuzzyNameMatch(l[..k] + l[k + 1..], l)
  {
    var q := l[..k] + l[k + 1..];
    assert |q| == |l| - 1;
    EditDistanceDeleteOne(l, k);
    LevenshteinNormalized(q, l);
    NormalizedIffFixed(q);
    NormalizedIffFixed(l);
    assert Max(|q|, |l|) == |l|;
    var d := Levenshtein(q, l);
    assert (d as real) / (|l| as real) <= 0.2 by {
      assert d <= 1;
      RatioAtMost(d, |l|);
    }
  }

  lemma RatioAtMost(d: nat, n: nat)
    requires d <= 1 && n >= 5
    ensures (d as real) / (n as real) <= 0.2
  {
    var r := (d as real) / (n as real);
    assert r * (n as real) == d as real;
  }

  /** The typo the matcher is meant to forgive: "selct" for "select". */
  lemma SelectTypoExample(q: string, l: string)
    requires q == "selct" && l == "select"
    ensures IsFuzzyNameMatch(q, l)
  {
    assert Normalized(l);
    assert q == l[..3] + l[4..];
    assert Normalized(q);
    OneDeletionIsFuzzy(l, 3);
  }
}

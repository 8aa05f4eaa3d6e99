/** The translation memory's similarity score: Levenshtein edit distance
    normalised to a whole percentage of the longer string's length. */
module Similarity {
  import opened Wrappers

  function Min3(a: nat, b: nat, c: nat): nat {
    if a <= b && a <= c then a else if b <= c then b else c
  }

  /** Edit distance with unit-cost insertion, deletion and substitution,
      defined on prefixes exactly as the dynamic-programming table fills them:
      equal last characters copy the diagonal cell, otherwise one plus the
      cheapest of the three neighbours. */
  function Distance(a: string, b: string): nat
    decreases |a| + |b|
  {
    if |a| == 0 then |b|
    else if |b| == 0 then |a|
    else if a[|a| - 1] == b[|b| - 1] then Distance(a[..|a| - 1], b[..|b| - 1])
    else 1 + Min3(Distance(a[..|a| - 1], b[..|b| - 1]),
                  Distance(a[..|a| - 1], b),
                  Distance(a, b[..|b| - 1]))
  }

  lemma {:induction false} DistanceSymmetric(a: string, b: string)
    ensures Distance(a, b) == Distance(b, a)
    decreases |a| + |b|
  {
    if |a| > 0 && |b| > 0 {
      DistanceSymmetric(a[..|a| - 1], b[..|b| - 1]);
      if a[|a| - 1] != b[|b| - 1] {
        DistanceSymmetric(a[..|a| - 1], b);
        DistanceSymmetric(a, b[..|b| - 1]);
      }
    }
  }

  lemma {:induction false} DistanceToSelf(a: string)
    ensures Distance(a, a) == 0
    decreases |a|
  {
    if |a| > 0 {
      DistanceToSelf(a[..|a| - 1]);
    }
  }

  /** The distance lies between the difference of the lengths and the longer length. */
  lemma {:induction false} DistanceBounds(a: string, b: string)
    ensures Distance(a, b) <= Max(|a|, |b|)
    ensures Distance(a, b) >= |a| - |b| && Distance(a, b) >= |b| - |a|
    decreases |a| + |b|
  {
    if |a| > 0 && |b| > 0 {
      DistanceBounds(a[..|a| - 1], b[..|b| - 1]);
      if a[|a| - 1] != b[|b| - 1] {
        DistanceBounds(a[..|a| - 1], b);
        DistanceBounds(a, b[..|b| - 1]);
      }
    }
  }

  /** Distance zero means the strings are equal. */
  lemma {:induction false} DistanceZero(a: string, b: string)
    requires Distance(a, b) == 0
    ensures a == b
    decreases |a| + |b|
  {
    if |a| > 0 && |b| > 0 {
      DistanceZero(a[..|a| - 1], b[..|b| - 1]);
      assert a == a[..|a| - 1] + [a[|a| - 1]];
      assert b == b[..|b| - 1] + [b[|b| - 1]];
    }
  }

  /** The `levenshteinDistance` routine: fills the table row by row, where row
      `i` holds the distances from every prefix of `s1` to `s2[..i]`. */
  method LevenshteinDistance(s1: string, s2: string) returns (d: nat)
    ensures d == Distance(s1, s2)
  {
    var prev: seq<nat> := seq(|s1| + 1, j => j);
    forall j | 0 <= j <= |s1| ensures prev[j] == Distance(s1[..j], s2[..0]) {
      assert |s2[..0]| == 0;
    }
    var i := 1;
    while i <= |s2|
      invariant 1 <= i <= |s2| + 1
      invariant |prev| == |s1| + 1
      invariant forall j :: 0 <= j <= |s1| ==> prev[j] == Distance(s1[..j], s2[..i - 1])
    {
      prev := NextRow(s1, s2, i, prev);
      i := i + 1;
    }
    assert s1[..|s1|] == s1 && s2[..|s2|] == s2;
    d := prev[|s1|];
  }

  /** Row `i` of the table from row `i - 1`. */
  method NextRow(s1: string, s2: string, i: nat, prev: seq<nat>) returns (cur: seq<nat>)
    requires 1 <= i <= |s2|
    requires |prev| == |s1| + 1
    requires forall j :: 0 <= j <= |s1| ==> prev[j] == Distance(s1[..j], s2[..i - 1])
    ensures |cur| == |s1| + 1
    ensures forall j :: 0 <= j <= |s1| ==> cur[j] == Distance(s1[..j], s2[..i])
  {
    cur := [i];
    assert |s1[..0]| == 0;
    var j := 1;
    while j <= |s1|
      invariant 1 <= j <= |s1| + 1
      invariant |cur| == j
      invariant forall k :: 0 <= k < j ==> cur[k] == Distance(s1[..k], s2[..i])
    {
      var v: nat;
      if s2[i - 1] == s1[j - 1] {
        v := prev[j - 1];
      } else {
        v := Min3(prev[j - 1] + 1, cur[j - 1] + 1, prev[j] + 1);
      }
      DistanceStep(s1, s2, i, j);
      cur := cur + [v];
      j := j + 1;
    }
  }

  /** One cell of the table, unfolded from the definition of `Distance`. */
  lemma DistanceStep(s1: string, s2: string, i: nat, j: nat)
    requires 1 <= i <= |s2| && 1 <= j <= |s1|
    ensures s2[i - 1] == s1[j - 1] ==>
      Distance(s1[..j], s2[..i]) == Distance(s1[..j - 1], s2[..i - 1])
    ensures s2[i - 1] != s1[j - 1] ==>
      Distance(s1[..j], s2[..i]) == Min3(Distance(s1[..j - 1], s2[..i - 1]) + 1,
                                         Distance(s1[..j - 1], s2[..i]) + 1,
                                         Distance(s1[..j], s2[..i - 1]) + 1)
  {
    var a, b := s1[..j], s2[..i];
    assert a[..|a| - 1] == s1[..j - 1] && a[|a| - 1] == s1[j - 1];
    assert b[..|b| - 1] == s2[..i - 1] && b[|b| - 1] == s2[i - 1];
  }

  /** `calculateSimilarity`: `Math.round(100 * (L - d) / L)` for the longer
      length `L` and distance `d`, written as an exact integer division
      (round half up), and 100 when both strings are empty. */
  function Score(str1: string, str2: string): (r: int)
    ensures 0 <= r <= 100
  {
    var longer := if |str1| > |str2| then str1 else str2;
    var shorter := if |str1| > |str2| then str2 else str1;
    if |longer| == 0 then 100
    else
      var d := Distance(longer, shorter);
      DistanceBounds(longer, shorter);
      RoundedPercentRange(|longer|, d);
      RoundedPercent(|longer|, d)
  }

  /** `Math.round(100 * (len - d) / len)` for non-negative operands. */
  function RoundedPercent(len: nat, d: nat): int
    requires len > 0
  {
    (200 * (len - d) + len) / (2 * len)
  }

  lemma RoundedPercentRange(len: nat, d: nat)
    requires 0 < len && d <= len
    ensures 0 <= RoundedPercent(len, d) <= 100
  {
    var n := 200 * (len - d) + len;
    assert 0 <= n <= 201 * len;
    DivAtLeast(n, 2 * len, 101);
  }

  /** For a positive divisor, the quotient reaches `k` exactly when the dividend reaches `k` times the divisor. */
  lemma DivAtLeast(n: int, m: int, k: int)
    requires m > 0
    ensures n / m >= k <==> n >= k * m
  {
    var q := n / m;
    var r := n % m;
    assert n == q * m + r && 0 <= r < m;
    if q >= k {
      MulMonotone(k, q, m);
    } else {
      MulMonotone(q, k - 1, m);
      assert (k - 1) * m == k * m - m;
    }
  }

  lemma MulMonotone(a: int, b: int, m: int)
    requires a <= b && m >= 0
    ensures a * m <= b * m
  {
    assert b * m - a * m == (b - a) * m;
  }

  /** The score does not depend on the order of its arguments. */
  lemma ScoreSymmetric(a: string, b: string)
    ensures Score(a, b) == Score(b, a)
  {
    DistanceSymmetric(a, b);
  }

  /** Two identical strings score 100. */
  lemma ScoreOfEqual(a: string)
    ensures Score(a, a) == 100
  {
    DistanceToSelf(a);
    if |a| > 0 {
      DivAtLeast(200 * |a| + |a|, 2 * |a|, 100);
    }
  }

  /** The score in terms of the longer length, whichever argument is longer. */
  lemma ScoreUnfold(a: string, b: string)
    requires |a| > 0 || |b| > 0
    ensures Score(a, b) == RoundedPercent(Max(|a|, |b|), Distance(a, b))
  {
    DistanceSymmetric(a, b);
  }

  /** A score of 100 does not need equal strings: it means the distance is at
      most one two-hundredth of the longer length (rounding up from 99.5). */
  lemma ScoreHundred(a: string, b: string)
    requires |a| > 0 || |b| > 0
    ensures Score(a, b) == 100 <==> 200 * Distance(a, b) <= Max(|a|, |b|)
  {
    ScoreUnfold(a, b);
    DistanceBounds(a, b);
    PercentAtLeast(Max(|a|, |b|), Distance(a, b), 100);
    RoundedPercentRange(Max(|a|, |b|), Distance(a, b));
  }

  /** The fuzzy-match threshold of 70 in integer terms: `200 * d <= 61 * L`. */
  lemma ScoreAtLeastSeventy(a: string, b: string)
    requires |a| > 0 || |b| > 0
    ensures Score(a, b) >= 70 <==> 200 * Distance(a, b) <= 61 * Max(|a|, |b|)
  {
    ScoreUnfold(a, b);
    DistanceBounds(a, b);
    PercentAtLeast(Max(|a|, |b|), Distance(a, b), 70);
  }

  /** The rounded percentage reaches `k` exactly when `200 * d <= (201 - 2k) * len`. */
  lemma PercentAtLeast(len: nat, d: nat, k: int)
    requires 0 < len && d <= len
    ensures RoundedPercent(len, d) >= k <==> 200 * d <= (201 - 2 * k) * len
  {
    DivAtLeast(200 * (len - d) + len, 2 * len, k);
    assert k * (2 * len) == 2 * k * len;
    assert (201 - 2 * k) * len == 201 * len - 2 * k * len;
  }

  /** Strings whose lengths differ too much never reach the fuzzy threshold. */
  lemma ScoreLengthGap(a: string, b: string)
    requires |a| > 0 || |b| > 0
    requires 200 * (|a| - |b|) > 61 * |a|
    ensures Score(a, b) < 70
  {
    DistanceBounds(a, b);
    ScoreAtLeastSeventy(a, b);
  }
}

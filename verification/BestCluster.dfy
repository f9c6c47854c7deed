/** GetBestCluster of dbt3_benchmark/launcher.pl: the mean of the longest stretch of results without a
    conspicuous gap.  1.3 is taken as the exact real number. */
module BestCluster {
  import opened PlanTable
  import opened Arithmetic

  /** What a call can come to: on an empty list the assignment to $scores[-1] is fatal. */
  datatype Outcome = Died | Returned(value: real)

  function Gap(q: seq<Time>, j: int): int
    requires 1 <= j < |q|
  {
    (q[j] as int) - (q[j - 1] as int)
  }

  function GapSum(q: seq<Time>, n: nat): int
    requires n <= |q|
  {
    if n < 2 then 0 else GapSum(q, n - 1) + Gap(q, n - 1)
  }

  function AverageGap(q: seq<Time>): real
    requires q != []
  {
    GapSum(q, |q|) as real / (if |q| == 1 then 1 else |q| - 1) as real
  }

  /** The condition on which the group started at i ends before j. */
  predicate Breaks(q: seq<Time>, i: int, j: int)
    requires 0 <= i < j < |q|
  {
    (q[j] != TIMED_OUT && q[i] == TIMED_OUT) || Gap(q, j) as real > AverageGap(q) * 1.3
  }

  predicate Group(q: seq<Time>, i: int, len: int)
  {
    0 <= i && 1 <= len && i + len <= |q| && forall j :: i < j < i + len ==> !Breaks(q, i, j)
  }

  predicate MaximalGroup(q: seq<Time>, i: int, len: int)
  {
    Group(q, i, len) && (i + len == |q| || Breaks(q, i, i + len))
  }

  ghost predicate LeftmostLongest(q: seq<Time>, i: int, len: int)
  {
    MaximalGroup(q, i, len) && forall k, m :: Group(q, k, m) ==> m < len || (m == len && i <= k)
  }

  function GroupMean(q: seq<Time>, i: int, len: int): real
    requires Group(q, i, len)
  {
    Mean(q[i..i + len])
  }

  method GetBestCluster(q: seq<Time>, clusterSize: int, getBestAvailable: bool) returns (r: Outcome)
    ensures !getBestAvailable && |q| < clusterSize ==> r == Returned(0.0)
    ensures (getBestAvailable || |q| >= clusterSize) && q == [] ==> r == Died
    ensures (getBestAvailable || |q| >= clusterSize) && q != [] ==>
              exists i, len :: LeftmostLongest(q, i, len)
                && r == Returned(if getBestAvailable || len >= clusterSize then GroupMean(q, i, len) else 0.0)
  {
    if !getBestAvailable && |q| < clusterSize {
      return Returned(0.0);
    }
    if q == [] {
      return Died;
    }
    var sumTimeDiff := SumOfGaps(q);
    var avgTimeDiff := sumTimeDiff as real / (if |q| == 1 then 1 else |q| - 1) as real;
    var scores := ScoreGroups(q, avgTimeDiff);
    var bestStart, maxScore := LeftmostMaximum(scores);
    LongestIsMaximal(q, scores[..], bestStart);
    var sumBestDiff := SumRange(q, bestStart, maxScore);
    r := Returned(0.0);
    if getBestAvailable || maxScore >= clusterSize {
      r := Returned(sumBestDiff as real / maxScore as real);
    }
  }

  method SumOfGaps(q: seq<Time>) returns (sum: int)
    requires q != []
    ensures sum == GapSum(q, |q|)
  {
    sum := 0;
    var i := 1;
    while i < |q|
      invariant 1 <= i <= |q| && sum == GapSum(q, i)
    {
      sum := sum + Gap(q, i);
      i := i + 1;
    }
  }

  method ScoreGroups(q: seq<Time>, avgTimeDiff: real) returns (scores: array<int>)
    requires q != [] && avgTimeDiff == AverageGap(q)
    ensures fresh(scores) && scores.Length == |q|
    ensures forall i :: 0 <= i < |q| ==> MaximalGroup(q, i, scores[i])
  {
    scores := new int[|q|];
    var i := 0;
    while i < |q| - 1
      invariant 0 <= i <= |q| - 1
      invariant forall k :: 0 <= k < i ==> MaximalGroup(q, k, scores[k])
    {
      scores[i] := 1;
      var j := i + 1;
      while j < |q|
        invariant i < j <= |q| && scores[i] == j - i && Group(q, i, j - i)
        invariant forall k :: 0 <= k < i ==> MaximalGroup(q, k, scores[k])
      {
        if (q[j] != TIMED_OUT && q[i] == TIMED_OUT) || Gap(q, j) as real > avgTimeDiff * 1.3 {
          break;
        }
        scores[i] := scores[i] + 1;
        j := j + 1;
      }
      i := i + 1;
    }
    scores[|q| - 1] := 1;
  }

  method LeftmostMaximum(scores: array<int>) returns (bestStart: int, maxScore: int)
    requires scores.Length > 0 && forall i :: 0 <= i < scores.Length ==> scores[i] >= 1
    ensures 0 <= bestStart < scores.Length && maxScore == scores[bestStart]
    ensures forall k :: 0 <= k < scores.Length ==> scores[k] <= maxScore
    ensures forall k :: 0 <= k < bestStart ==> scores[k] < maxScore
  {
    bestStart, maxScore := 0, -100;
    for i := 0 to scores.Length
      invariant i == 0 ==> maxScore == -100
      invariant i > 0 ==> 0 <= bestStart < i && maxScore == scores[bestStart]
      invariant forall k :: 0 <= k < i ==> scores[k] <= maxScore
      invariant i > 0 ==> forall k :: 0 <= k < bestStart ==> scores[k] < maxScore
    {
      if maxScore < scores[i] {
        maxScore, bestStart := scores[i], i;
      }
    }
  }

  method SumRange(q: seq<Time>, start: int, len: int) returns (sum: int)
    requires 0 <= start && 1 <= len && start + len <= |q|
    ensures sum == Sum(q[start..start + len])
  {
    sum := 0;
    var i := start;
    while i <= start + len - 1
      invariant start <= i <= start + len && sum == Sum(q[start..i])
    {
      assert q[start..i + 1][..i - start] == q[start..i];
      sum := sum + q[i];
      i := i + 1;
    }
  }

  lemma LongestIsMaximal(q: seq<Time>, scores: seq<int>, best: int)
    requires |scores| == |q| && forall i :: 0 <= i < |q| ==> MaximalGroup(q, i, scores[i])
    requires 0 <= best < |q| && forall k :: 0 <= k < |q| ==> scores[k] <= scores[best]
    requires forall k :: 0 <= k < best ==> scores[k] < scores[best]
    ensures LeftmostLongest(q, best, scores[best])
  {
    forall k, m | Group(q, k, m) ensures m < scores[best] || (m == scores[best] && best <= k) {
      assert MaximalGroup(q, k, scores[k]);
      assert m <= scores[k] by {
        if m > scores[k] {
          assert false;
        }
      }
    }
  }

  // ----- What the chosen group is like

  lemma GroupIsUnique(q: seq<Time>, i: int, len: int, k: int, m: int)
    requires LeftmostLongest(q, i, len) && LeftmostLongest(q, k, m)
    ensures i == k && len == m
  {
    assert Group(q, i, len) && Group(q, k, m);
  }

  /** The sum of the gaps telescopes. */
  lemma {:induction false} GapsTelescope(q: seq<Time>, n: nat)
    requires 1 <= n <= |q|
    ensures GapSum(q, n) == (q[n - 1] as int) - (q[0] as int)
  {
    if n > 1 {
      GapsTelescope(q, n - 1);
    }
  }

  lemma {:induction false} SumBetween(xs: seq<Time>, lo: int, hi: int)
    requires forall k :: 0 <= k < |xs| ==> lo <= xs[k] <= hi
    ensures lo * |xs| <= Sum(xs) <= hi * |xs|
  {
    if xs != [] {
      SumBetween(xs[..|xs| - 1], lo, hi);
      assert lo * |xs| == lo * (|xs| - 1) + lo && hi * |xs| == hi * (|xs| - 1) + hi;
    }
  }

  /** A reported mean lies between the least and the greatest result of its group. */
  lemma MeanBetween(q: seq<Time>, i: int, len: int, lo: int, hi: int)
    requires Group(q, i, len)
    requires forall k :: i <= k < i + len ==> lo <= q[k] <= hi
    ensures lo as real <= GroupMean(q, i, len) <= hi as real
  {
    var xs := q[i..i + len];
    SumBetween(xs, lo, hi);
    ProductAsReal(lo, |xs|);
    ProductAsReal(hi, |xs|);
    DivideBetween(lo as real, Sum(xs) as real, hi as real, |xs| as real);
  }

  lemma ProductAsReal(a: int, b: int)
    ensures (a * b) as real == a as real * b as real
  {
  }

  lemma DivideBetween(lo: real, s: real, hi: real, n: real)
    requires n > 0.0 && lo * n <= s <= hi * n
    ensures lo <= s / n <= hi
  {
    var m := s / n;
    assert m * n == s;
    if m < lo {
      Scale(m, lo, n);
    } else if hi < m {
      Scale(hi, m, n);
    }
  }

  lemma Scale(a: real, b: real, n: real)
    requires a < b && n > 0.0
    ensures a * n < b * n
  {
    assert (b - a) * n > 0.0;
  }

  /** The results j - 1 and j can stand in one group: not a timeout followed by a time, and a gap of at most
      1.3 times the average one, here multiplied out. */
  predicate Together(q: seq<Time>, j: int)
    requires 1 <= j < |q|
  {
    !(q[j - 1] == TIMED_OUT && q[j] != TIMED_OUT)
    && Gap(q, j) * (|q| - 1) * 10 <= 13 * ((q[|q| - 1] as int) - (q[0] as int))
  }

  lemma TogetherIff(q: seq<Time>, j: int)
    requires 1 <= j < |q|
    ensures Together(q, j) <==> !Breaks(q, j - 1, j)
  {
    GapsTelescope(q, |q|);
    MultipliedOut(Gap(q, j), GapSum(q, |q|), |q| - 1);
  }

  lemma MultipliedOut(g: int, s: int, n: nat)
    requires n > 0
    ensures g * n * 10 <= 13 * s <==> g as real <= (s as real / n as real) * 1.3
  {
    var m, limit := n as real, (s as real / n as real) * 1.3;
    ProductAsReal(g, n);
    assert (g * n) as real == g as real * m;
    assert limit * m == s as real * 1.3 by {
      Cancel(s as real, m);
    }
    if g as real <= limit {
      ScaleAtMost(g as real, limit, m);
    } else {
      Scale(limit, g as real, m);
    }
  }

  lemma Cancel(s: real, m: real)
    requires m > 0.0
    ensures (s / m) * 1.3 * m == s * 1.3
  {
    assert s / m * m == s;
  }

  lemma ScaleAtMost(a: real, b: real, n: real)
    requires a <= b && n > 0.0
    ensures a * n <= b * n
  {
    if a < b {
      Scale(a, b, n);
    }
  }

  /** A stretch of results that belong together: if it begins with a timeout it holds timeouts only, and no
      gap inside is greater than 1.3 times the average one. */
  predicate Close(q: seq<Time>, i: int, len: int)
  {
    && 0 <= i && 1 <= len && i + len <= |q|
    && (q[i] == -1 ==> forall j :: i < j < i + len ==> q[j] == -1)
    && forall j :: i < j < i + len ==> Gap(q, j) * (|q| - 1) * 10 <= 13 * ((q[|q| - 1] as int) - (q[0] as int))
  }

  lemma GroupIff(q: seq<Time>, i: int, len: int)
    ensures Group(q, i, len) <==> Close(q, i, len)
  {
    if 0 <= i && 1 <= len && i + len <= |q| {
      forall j | i < j < i + len
        ensures Breaks(q, i, j) <==> (q[i] == -1 && q[j] != -1)
                                     || Gap(q, j) * (|q| - 1) * 10 > 13 * ((q[|q| - 1] as int) - (q[0] as int))
      {
        GapsTelescope(q, |q|);
        MultipliedOut(Gap(q, j), GapSum(q, |q|), |q| - 1);
      }
    }
  }

  /** What is averaged: the longest such stretch, and of several the first. */
  lemma ChosenIsFirstLongest(q: seq<Time>, i: int, len: int, k: int, m: int)
    requires LeftmostLongest(q, i, len)
    ensures Close(q, i, len)
    ensures Close(q, k, m) ==> m < len || (m == len && i <= k)
  {
    GroupIff(q, i, len);
    GroupIff(q, k, m);
  }

  /** At least two results are averaged exactly when some two neighbours can stand together. */
  lemma ChosenGroupHasTwoIff(q: seq<Time>, i: int, len: int)
    requires |q| >= 2 && LeftmostLongest(q, i, len)
    ensures len >= 2 <==> exists j :: 1 <= j < |q| && Together(q, j)
  {
    if len >= 2 {
      TogetherIff(q, i + 1);
    }
    if j :| 1 <= j < |q| && Together(q, j) {
      TogetherIff(q, j);
      assert Group(q, j - 1, 2);
    }
  }

  /** The gaps cannot all exceed 1.3 times their average unless they sum up to less than 0, so that two
      results without timeout, the last not below the first, are enough. */
  lemma ChosenGroupHasTwo(q: seq<Time>, i: int, len: int)
    requires |q| >= 2 && TIMED_OUT !in q && q[|q| - 1] >= q[0]
    requires LeftmostLongest(q, i, len)
    ensures len >= 2
  {
    var j := SomeTogether(q);
    ChosenGroupHasTwoIff(q, i, len);
  }

  lemma SomeTogether(q: seq<Time>) returns (j: int)
    requires |q| >= 2 && TIMED_OUT !in q && q[|q| - 1] >= q[0]
    ensures 1 <= j < |q| && Together(q, j)
  {
    GapsTelescope(q, |q|);
    j := SmallGap(q, |q|);
    var product, sum := Gap(q, j) * (|q| - 1), GapSum(q, |q|);
    assert product <= sum && 0 <= sum;
    assert q[j - 1] in q;
  }

  /** Some gap is at most the average one. */
  lemma {:induction false} SmallGap(q: seq<Time>, n: nat) returns (j: int)
    requires 2 <= n <= |q|
    ensures 1 <= j < n && Gap(q, j) * (n - 1) <= GapSum(q, n)
  {
    j := n - 1;
    if n > 2 {
      var k := SmallGap(q, n - 1);
      assert GapSum(q, n) == GapSum(q, n - 1) + Gap(q, n - 1);
      if Gap(q, k) <= Gap(q, n - 1) {
        j := k;
        assert Gap(q, k) * (n - 1) == Gap(q, k) * (n - 2) + Gap(q, k);
      } else {
        ProductGrows(n - 2, Gap(q, n - 1), Gap(q, k));
        assert Gap(q, n - 1) * (n - 1) == Gap(q, n - 1) * (n - 2) + Gap(q, n - 1);
      }
    }
  }

  /** The order of the end points matters: of two results that fall, only the first is averaged. */
  lemma FallingPairIsSplit(a: Time, b: Time, i: int, len: int)
    requires a > b >= 0 && LeftmostLongest([a, b], i, len)
    ensures i == 0 && len == 1
  {
    ChosenGroupHasTwoIff([a, b], i, len);
    assert Group([a, b], 0, 1);
  }
}

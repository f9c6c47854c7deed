/** The table of execution plans kept by dbt3_benchmark/launcher.pl: for every plan seen so far the
    times of its runs, in seconds, with -1 for a run that timed out.  A mean is a real number; only
    plans without a timeout, with at least one run and with a mean below 10000000 can be "best". */
module PlanTable {

  type Time = t: int | -1 <= t witness 0
  type Plan = string
  type Table = map<Plan, seq<Time>>

  const TIMED_OUT: Time := -1
  const SENTINEL := 10000000.0

  function Sum(xs: seq<Time>): int
  {
    if xs == [] then 0 else Sum(xs[..|xs| - 1]) + xs[|xs| - 1]
  }

  function Mean(xs: seq<Time>): real
    requires xs != []
  {
    Sum(xs) as real / |xs| as real
  }

  lemma {:induction false} SumAdds(xs: seq<Time>, ys: seq<Time>)
    ensures Sum(xs + ys) == Sum(xs) + Sum(ys)
    ensures |ys| == 1 ==> Sum(ys) == ys[0]
  {
    if ys == [] {
      assert xs + ys == xs;
    } else {
      SumAdds(xs, ys[..|ys| - 1]);
      assert (xs + ys)[..|xs + ys| - 1] == xs + ys[..|ys| - 1];
    }
  }

  lemma MeanTimesLength(xs: seq<Time>)
    requires xs != []
    ensures Mean(xs) * |xs| as real == Sum(xs) as real
  {
  }

  /** Means compared without division. */
  lemma MeansCompare(xs: seq<Time>, ys: seq<Time>)
    requires xs != [] && ys != []
    ensures Mean(xs) <= Mean(ys) <==> Sum(xs) * |ys| <= Sum(ys) * |xs|
  {
    Quotients(Sum(xs), |xs|, Sum(ys), |ys|);
  }

  lemma Quotients(s: int, m: int, t: int, n: int)
    requires m > 0 && n > 0
    ensures s as real / m as real <= t as real / n as real <==> s * n <= t * m
  {
    var a, b := s as real / m as real, t as real / n as real;
    assert a * m as real == s as real && b * n as real == t as real;
    Fractions(a, s, m, b, t, n);
  }

  lemma ZeroMean(xs: seq<Time>)
    requires xs != []
    ensures Mean(xs) == 0.0 <==> Sum(xs) == 0
  {
    MeanTimesLength(xs);
    if Sum(xs) == 0 {
      NoProduct(Mean(xs), |xs| as real);
    }
  }

  lemma NoProduct(a: real, b: real)
    requires a * b == 0.0 && b > 0.0
    ensures a == 0.0
  {
  }

  lemma Fractions(a: real, s: int, m: int, b: real, t: int, n: int)
    requires m > 0 && n > 0 && a * m as real == s as real && b * n as real == t as real
    ensures a <= b <==> s * n <= t * m
  {
    var p := m as real * n as real;
    assert (s * n) as real == s as real * n as real == a * p;
    assert (t * m) as real == t as real * m as real == b * p;
    Scaled(a, b, p);
  }

  lemma Scaled(a: real, b: real, p: real)
    requires p > 0.0
    ensures a <= b <==> a * p <= b * p
  {
    if a < b {
      assert (b - a) * p > 0.0;
    } else {
      assert (a - b) * p >= 0.0;
    }
  }

  /** A plan that has been run and has never timed out. */
  predicate Clean(xs: seq<Time>)
  {
    xs != [] && TIMED_OUT !in xs
  }

  predicate Eligible(xs: seq<Time>)
  {
    Clean(xs) && Mean(xs) < SENTINEL
  }

  /** Written out in whole numbers: runs without a timeout that took less than 10000000 seconds on average. */
  lemma EligibleIff(xs: seq<Time>)
    ensures Clean(xs) <==> xs != [] && forall k :: 0 <= k < |xs| ==> xs[k] != -1
    ensures Eligible(xs) <==> Clean(xs) && Sum(xs) < 10000000 * |xs|
  {
    if xs != [] {
      MeanTimesLength(xs);
      Fractions(10000000.0, 10000000, 1, Mean(xs), Sum(xs), |xs|);
    }
  }

  predicate IsBest(t: Table, p: Plan)
  {
    p in t && Eligible(t[p]) && forall q :: q in t && Clean(t[q]) ==> Mean(t[p]) <= Mean(t[q])
  }

  predicate NoneEligible(t: Table)
  {
    forall q :: q in t ==> !Eligible(t[q])
  }

  /** One of the orders in which Perl's "each" can deliver the keys of a hash. */
  ghost predicate IsOrder(order: seq<Plan>, keys: set<Plan>)
  {
    && (forall p :: p in order <==> p in keys)
    && (forall i, j :: 0 <= i < j < |order| ==> order[i] != order[j])
  }

  /** The plan at position i is the first one in the order to have the least mean. */
  ghost predicate FirstBest(t: Table, order: seq<Plan>, i: int)
    requires IsOrder(order, t.Keys)
  {
    && 0 <= i < |order|
    && IsBest(t, order[i])
    && forall k :: 0 <= k < i ==> !IsBest(t, order[k])
  }

  lemma OrderExists(keys: set<Plan>)
    ensures exists order :: IsOrder(order, keys)
  {
    if keys == {} {
      assert IsOrder([], keys);
    } else {
      var p :| p in keys;
      OrderExists(keys - {p});
      var rest :| IsOrder(rest, keys - {p});
      assert IsOrder([p] + rest, keys) by {
        forall q ensures q in [p] + rest <==> q in keys {
          assert q in rest <==> q in keys - {p};
        }
      }
    }
  }

  /** Walks the hash in an order nothing is known about. */
  method AnyOrder(keys: set<Plan>) returns (order: seq<Plan>)
    ensures IsOrder(order, keys)
  {
    order := [];
    var rest := keys;
    while rest != {}
      invariant rest <= keys
      invariant IsOrder(order, keys - rest)
    {
      var p :| p in rest;
      order, rest := order + [p], rest - {p};
    }
    assert keys - rest == keys;
  }

  /** Ties make the winner depend on the hash order, and every best plan does win under some order. */
  lemma EveryBestPlanWins(t: Table, p: Plan)
    ensures IsBest(t, p) <==>
            exists order, i :: IsOrder(order, t.Keys) && FirstBest(t, order, i) && order[i] == p
  {
    if IsBest(t, p) {
      OrderExists(t.Keys - {p});
      var rest :| IsOrder(rest, t.Keys - {p});
      var order := [p] + rest;
      forall q ensures q in order <==> q in t.Keys {
        assert q in rest <==> q in t.Keys - {p};
      }
      assert IsOrder(order, t.Keys);
      assert FirstBest(t, order, 0) && order[0] == p;
    }
  }

  lemma {:induction false} SumNonNegative(xs: seq<Time>)
    requires TIMED_OUT !in xs
    ensures 0 <= Sum(xs)
  {
    if xs != [] {
      SumNonNegative(xs[..|xs| - 1]);
    }
  }

  /** The inner "foreach": the sum of a result list, or -1 as soon as a timeout is met. */
  method Accumulate(xs: seq<Time>) returns (count: nat, avg: int)
    ensures count == 0 <==> xs == []
    ensures avg == -1 <==> TIMED_OUT in xs
    ensures TIMED_OUT !in xs ==> count == |xs| && avg == Sum(xs)
  {
    count, avg := 0, 0;
    while count < |xs|
      invariant count <= |xs|
      invariant TIMED_OUT !in xs[..count]
      invariant avg == Sum(xs[..count])
    {
      var tmp := xs[count];
      assert xs[..count + 1][..count] == xs[..count];
      count := count + 1;
      avg := avg + tmp;
      if tmp == TIMED_OUT {
        avg := -1;
        assert TIMED_OUT in xs;
        return;
      }
    }
    assert xs[..count] == xs;
    SumNonNegative(xs);
  }

  /** The "while each" loop shared by AnalyzeExplain and GetBestExplainCluster. */
  method ScanPlans(t: Table, order: seq<Plan>) returns (min: real, minkey: Plan, minCount: nat)
    requires IsOrder(order, t.Keys)
    ensures NoneEligible(t) ==> min == SENTINEL && minkey == "" && minCount == 0
    ensures !NoneEligible(t) ==>
              exists i :: FirstBest(t, order, i) && minkey == order[i]
                          && min == Mean(t[minkey]) && minCount == |t[minkey]|
  {
    min, minkey, minCount := SENTINEL, "", 0;
    var n := 0;
    ghost var w := -1;
    while n < |order|
      invariant 0 <= n <= |order|
      invariant -1 <= w < n
      invariant w == -1 ==> min == SENTINEL && minkey == "" && minCount == 0
      invariant w >= 0 ==> minkey == order[w] && minkey in t && Eligible(t[minkey])
                           && min == Mean(t[minkey]) && minCount == |t[minkey]|
      invariant min <= SENTINEL
      invariant forall k :: 0 <= k < n && order[k] in t && Clean(t[order[k]]) ==> min <= Mean(t[order[k]])
      invariant forall k :: 0 <= k < w && order[k] in t && Clean(t[order[k]]) ==> min < Mean(t[order[k]])
    {
      var key := order[n];
      assert key in t;
      var count, avg := Accumulate(t[key]);
      if count != 0 && avg != -1 {
        var mean := avg as real / count as real;
        if min > mean {
          min, minkey, minCount := mean, key, count;
          w := n;
        }
      }
      n := n + 1;
    }
    if w == -1 {
      forall q | q in t ensures !Eligible(t[q]) {
        var k :| 0 <= k < |order| && order[k] == q;
      }
    } else {
      forall q | q in t && Clean(t[q]) ensures Mean(t[minkey]) <= Mean(t[q]) {
        var k :| 0 <= k < |order| && order[k] == q;
      }
      assert minkey in t && !NoneEligible(t);
      assert FirstBest(t, order, w);
    }
  }

  // ----- GetBestExplainCluster

  /** The values GetBestExplainCluster can return, whatever the hash order. */
  ghost predicate ClusterResult(t: Table, clusterSize: int, getBestAvailable: bool, r: real)
  {
    if NoneEligible(t) then
      r == if getBestAvailable || 0 >= clusterSize then -1.0 else 0.0
    else
      exists p :: IsBest(t, p)
        && r == if getBestAvailable || |t[p]| >= clusterSize then Mean(t[p]) else 0.0
  }

  /** Existence of a best plan: the minimum over finitely many plans is attained. */
  lemma BestExists(t: Table)
    ensures NoneEligible(t) <==> !exists p :: IsBest(t, p)
  {
    if !NoneEligible(t) {
      var s := set q | q in t && Eligible(t[q]);
      var w :| w in t && Eligible(t[w]);
      assert w in s;
      var p := LeastMean(t, s);
      assert IsBest(t, p);
    }
  }

  lemma LeastMean(t: Table, s: set<Plan>) returns (p: Plan)
    requires s != {} && forall q :: q in s ==> q in t && Eligible(t[q])
    ensures p in s && Eligible(t[p]) && forall q :: q in s && Clean(t[q]) ==> Mean(t[p]) <= Mean(t[q])
  {
    p :| p in s;
    var rest := s - {p};
    assert forall q :: q in s ==> q == p || q in rest;
    if rest != {} {
      var r := LeastMean(t, rest);
      if Mean(t[r]) < Mean(t[p]) {
        p := r;
      }
    }
  }

  method GetBestExplainCluster(t: Table, order: seq<Plan>, clusterSize: int, getBestAvailable: bool)
    returns (r: real)
    requires IsOrder(order, t.Keys)
    ensures ClusterResult(t, clusterSize, getBestAvailable, r)
  {
    r := 0.0;
    var min, minkey, minCount := ScanPlans(t, order);
    if getBestAvailable || minCount >= clusterSize {
      if min == SENTINEL {
        r := -1.0;
      } else {
        r := min;
      }
    }
  }

  /** With getBestAvailable the hash order is irrelevant: the result is the least mean over the plans
      that can be best, or -1 when there is none. */
  lemma BestAvailableIsUnique(t: Table, clusterSize: int, r: real)
    ensures ClusterResult(t, clusterSize, true, r) <==>
            if NoneEligible(t) then r == -1.0
            else (exists p :: p in t && Eligible(t[p]) && Mean(t[p]) == r)
                 && (forall q :: q in t && Eligible(t[q]) ==> r <= Mean(t[q]))
  {
    BestExists(t);
    if !NoneEligible(t) {
      var b :| IsBest(t, b);
      if (exists p :: p in t && Eligible(t[p]) && Mean(t[p]) == r) && (forall q :: q in t && Eligible(t[q]) ==> r <= Mean(t[q])) {
        assert r == Mean(t[b]);
      }
    }
  }

  /** Without getBestAvailable the result depends on the hash order exactly when two tied best plans
      disagree about having enough runs, and their mean is not 0. */
  lemma SizedResultIsUniqueIff(t: Table, clusterSize: int)
    ensures (forall r1, r2 :: ClusterResult(t, clusterSize, false, r1) && ClusterResult(t, clusterSize, false, r2) ==> r1 == r2)
            <==> (forall p, q :: IsBest(t, p) && IsBest(t, q) && |t[p]| >= clusterSize > |t[q]| ==> Mean(t[p]) == 0.0)
  {
    if p, q :| IsBest(t, p) && IsBest(t, q) && |t[p]| >= clusterSize > |t[q]| && Mean(t[p]) != 0.0 {
      assert ClusterResult(t, clusterSize, false, Mean(t[p]));
      assert ClusterResult(t, clusterSize, false, 0.0);
    }
  }

  // ----- The key under which a plan is stored

  /** One line of the EXPLAIN output, split at tabs; missing columns read as empty. */
  type ExplainLine = seq<string>

  const ROWS_COLUMN := 8

  function Column(line: ExplainLine, i: nat): string
  {
    if i < |line| then line[i] else ""
  }

  /** What is kept of a line: its first ten columns, with the row estimate struck out. */
  function Kept(line: ExplainLine, k: nat): string
  {
    if k == ROWS_COLUMN then "###########" else Column(line, k)
  }

  function Fields(line: ExplainLine): (r: seq<string>)
    ensures |r| == 10 && forall k :: 0 <= k < 10 ==> r[k] == Kept(line, k)
  {
    seq(10, k requires 0 <= k => Kept(line, k))
  }

  /** The texts with a tab between any two. */
  function Join(parts: seq<string>): string
  {
    if parts == [] then ""
    else if |parts| == 1 then parts[0]
    else Join(parts[..|parts| - 1]) + "\t" + parts[|parts| - 1]
  }

  function LineKey(line: ExplainLine): string
  {
    Join(Fields(line))
  }

  function PlanKey(lines: seq<ExplainLine>): Plan
  {
    if lines == [] then "" else PlanKey(lines[..|lines| - 1]) + LineKey(lines[|lines| - 1])
  }

  predicate TabFree(s: string)
  {
    '\t' !in s
  }

  /** The last text of xs and the first of ys run together. */
  function Glue(xs: seq<string>, ys: seq<string>): (r: seq<string>)
    requires xs != [] && ys != []
    ensures |r| == |xs| + |ys| - 1
  {
    xs[..|xs| - 1] + [xs[|xs| - 1] + ys[0]] + ys[1..]
  }

  /** The texts between the tabs of a key: the last column of a line runs into the first of the next. */
  function Tokens(lines: seq<ExplainLine>): (r: seq<string>)
    ensures |r| == 9 * |lines| + 1
  {
    if lines == [] then [""] else Glue(Tokens(lines[..|lines| - 1]), Fields(lines[|lines| - 1]))
  }

  lemma JoinOneMore(xs: seq<string>, x: string)
    requires xs != []
    ensures Join(xs + [x]) == Join(xs) + ("\t" + x)
  {
    var all := xs + [x];
    assert all[..|all| - 1] == xs;
    Associate(Join(xs), "\t", x);
  }

  lemma GlueOneMore(xs: seq<string>, ys: seq<string>, y: string)
    requires xs != [] && ys != []
    ensures Glue(xs, ys + [y]) == Glue(xs, ys) + [y]
  {
    assert (ys + [y])[1..] == ys[1..] + [y];
  }

  lemma JoinGlueOne(xs: seq<string>, y: string)
    requires xs != []
    ensures Join(Glue(xs, [y])) == Join(xs) + y
  {
    var init, last := xs[..|xs| - 1], xs[|xs| - 1];
    assert Glue(xs, [y]) == init + [last + y];
    if init != [] {
      JoinOneMore(init, last + y);
      Associate(Join(init) + "\t", last, y);
      Associate(Join(init), "\t", last + y);
    }
  }

  lemma Associate(a: string, b: string, c: string)
    ensures a + b + c == a + (b + c)
  {
  }

  lemma {:induction false} JoinGlue(xs: seq<string>, ys: seq<string>)
    requires xs != [] && ys != []
    ensures Join(xs) + Join(ys) == Join(Glue(xs, ys))
  {
    if |ys| == 1 {
      assert ys == [ys[0]];
      JoinGlueOne(xs, ys[0]);
    } else {
      var init, last := ys[..|ys| - 1], ys[|ys| - 1];
      assert ys == init + [last];
      JoinGlue(xs, init);
      JoinOneMore(init, last);
      GlueOneMore(xs, init, last);
      JoinOneMore(Glue(xs, init), last);
      Associate(Join(xs), Join(init), "\t" + last);
    }
  }

  lemma {:induction false} KeyJoinsTokens(lines: seq<ExplainLine>)
    ensures PlanKey(lines) == Join(Tokens(lines))
  {
    if lines != [] {
      var init, line := lines[..|lines| - 1], lines[|lines| - 1];
      KeyJoinsTokens(init);
      JoinGlue(Tokens(init), Fields(line));
    }
  }

  /** The same texts one by one: number k of line i. */
  function Token(lines: seq<ExplainLine>, i: nat, k: nat): string
    requires i <= |lines| && k < 9 && (k > 0 ==> i < |lines|)
  {
    if k > 0 then Kept(lines[i], k)
    else (if i > 0 then Column(lines[i - 1], 9) else "") + (if i < |lines| then Column(lines[i], 0) else "")
  }

  lemma Place(x: nat) returns (i: nat, k: nat)
    ensures x == 9 * i + k && k < 9
  {
    i, k := x / 9, x % 9;
  }

  lemma TokensOfLines(lines: seq<ExplainLine>, n: nat, x: nat)
    requires n == |lines| - 1 && x <= 9 * |lines|
    ensures Tokens(lines)[x] == if x < 9 * n then Tokens(lines[..n])[x]
                                else if x == 9 * n then Tokens(lines[..n])[x] + Column(lines[n], 0)
                                else Kept(lines[n], x - 9 * n)
  {
    GlueFields(Tokens(lines[..n]), lines[n], x);
  }

  lemma GlueFields(xs: seq<string>, line: ExplainLine, x: nat)
    requires xs != [] && x < |xs| + 9
    ensures Glue(xs, Fields(line))[x] == if x < |xs| - 1 then xs[x]
                                         else if x == |xs| - 1 then xs[x] + Column(line, 0)
                                         else Kept(line, x - (|xs| - 1))
  {
    GlueAt(xs, Fields(line), x);
  }

  lemma GlueAt(xs: seq<string>, ys: seq<string>, x: nat)
    requires xs != [] && ys != [] && x < |xs| + |ys| - 1
    ensures Glue(xs, ys)[x] == if x < |xs| - 1 then xs[x]
                               else if x == |xs| - 1 then xs[x] + ys[0]
                               else ys[x - (|xs| - 1)]
  {
  }

  lemma EarlyToken(lines: seq<ExplainLine>, init: seq<ExplainLine>, i: nat, k: nat)
    requires lines != [] && init == lines[..|lines| - 1]
    requires k < 9 && (i < |init| || (i == |init| && k == 0))
    ensures Token(lines, i, k) == if i < |init| then Token(init, i, k) else Token(init, i, k) + Column(lines[i], 0)
  {
  }

  lemma LateToken(lines: seq<ExplainLine>, n: nat, i: nat, k: nat)
    requires n == |lines| - 1 && k < 9 && ((i == n && k > 0) || (i == n + 1 && k == 0))
    ensures Token(lines, i, k) == Kept(lines[n], 9 * i + k - 9 * n)
  {
  }

  lemma {:induction false} TokenAt(lines: seq<ExplainLine>, i: nat, k: nat)
    requires i <= |lines| && k < 9 && (k > 0 ==> i < |lines|)
    ensures Tokens(lines)[9 * i + k] == Token(lines, i, k)
  {
    if lines != [] {
      var n := |lines| - 1;
      var init := lines[..n];
      TokensOfLines(lines, n, 9 * i + k);
      if i < n || (i == n && k == 0) {
        TokenAt(init, i, k);
        EarlyToken(lines, init, i, k);
      } else {
        LateToken(lines, n, i, k);
      }
    }
  }

  lemma {:induction false} JoinIsTabFreeIff(xs: seq<string>)
    requires xs != [] && forall i :: 0 <= i < |xs| ==> TabFree(xs[i])
    ensures TabFree(Join(xs)) <==> |xs| == 1
  {
  }

  /** Two texts that are cut at their last tab. */
  lemma LastTab(p: string, x: string, q: string, y: string)
    requires TabFree(x) && TabFree(y) && p + "\t" + x == q + "\t" + y
    ensures p == q && x == y
  {
    var s := p + "\t" + x;
    assert s[|p|] == '\t' && forall k :: |p| < k < |s| ==> s[k] == x[k - |p| - 1];
    assert s[|q|] == '\t' && forall k :: |q| < k < |s| ==> s[k] == y[k - |q| - 1];
    assert |p| == |q|;
    assert p == s[..|p|] && q == s[..|q|];
    assert x == s[|p| + 1..] && y == s[|q| + 1..];
  }

  lemma {:induction false} JoinIsInjective(xs: seq<string>, ys: seq<string>)
    requires xs != [] && forall i :: 0 <= i < |xs| ==> TabFree(xs[i])
    requires ys != [] && forall i :: 0 <= i < |ys| ==> TabFree(ys[i])
    requires Join(xs) == Join(ys)
    ensures xs == ys
  {
    JoinIsTabFreeIff(xs);
    JoinIsTabFreeIff(ys);
    if |xs| > 1 {
      var i, j := xs[..|xs| - 1], ys[..|ys| - 1];
      LastTab(Join(i), xs[|xs| - 1], Join(j), ys[|ys| - 1]);
      JoinIsInjective(i, j);
      assert xs == i + [xs[|xs| - 1]] && ys == j + [ys[|ys| - 1]];
    }
  }

  predicate NoTabs(lines: seq<ExplainLine>)
  {
    forall i, k :: 0 <= i < |lines| && 0 <= k < |lines[i]| ==> TabFree(lines[i][k])
  }

  /** The explanations agree in what the key keeps: columns 1 to 7 of every line, the first id, the last
      column 9, and in between each column 9 put together with the id that follows it. */
  ghost predicate SamePlan(a: seq<ExplainLine>, b: seq<ExplainLine>)
  {
    && |a| == |b|
    && (forall i, k :: 0 <= i < |a| && 1 <= k <= 7 ==> Column(a[i], k) == Column(b[i], k))
    && (a != [] ==> Column(a[0], 0) == Column(b[0], 0) && Column(a[|a| - 1], 9) == Column(b[|a| - 1], 9))
    && (forall i :: 1 <= i < |a| ==> Column(a[i - 1], 9) + Column(a[i], 0) == Column(b[i - 1], 9) + Column(b[i], 0))
  }

  lemma TokenAgrees(a: seq<ExplainLine>, b: seq<ExplainLine>, i: nat, k: nat)
    requires Tokens(a) == Tokens(b) && i <= |a| && k < 9 && (k > 0 ==> i < |a|)
    ensures |a| == |b| && Token(a, i, k) == Token(b, i, k)
  {
    assert |Tokens(a)| == |Tokens(b)|;
    TokenAt(a, i, k);
    TokenAt(b, i, k);
  }

  lemma TokensTell(a: seq<ExplainLine>, b: seq<ExplainLine>)
    requires Tokens(a) == Tokens(b)
    ensures SamePlan(a, b)
  {
    TokenAgrees(a, b, 0, 0);
    TokenAgrees(a, b, |a|, 0);
    forall i, k | 0 <= i < |a| && 1 <= k <= 7 ensures Column(a[i], k) == Column(b[i], k) {
      TokenAgrees(a, b, i, k);
    }
    forall i | 1 <= i < |a|
      ensures Column(a[i - 1], 9) + Column(a[i], 0) == Column(b[i - 1], 9) + Column(b[i], 0)
    {
      TokenAgrees(a, b, i, 0);
    }
    if a != [] {
      OuterTokens(a);
      OuterTokens(b);
    }
  }

  lemma OuterTokens(lines: seq<ExplainLine>)
    requires lines != []
    ensures Token(lines, 0, 0) == Column(lines[0], 0) && Token(lines, |lines|, 0) == Column(lines[|lines| - 1], 9)
  {
  }

  lemma SameTokens(a: seq<ExplainLine>, b: seq<ExplainLine>)
    requires SamePlan(a, b)
    ensures Tokens(a) == Tokens(b)
  {
    forall x | 0 <= x <= 9 * |a| ensures Tokens(a)[x] == Tokens(b)[x] {
      var i, k := Place(x);
      TokenAt(a, i, k);
      TokenAt(b, i, k);
      SameToken(a, b, i, k);
    }
  }

  lemma SameToken(a: seq<ExplainLine>, b: seq<ExplainLine>, i: nat, k: nat)
    requires SamePlan(a, b) && i <= |a| && k < 9 && (k > 0 ==> i < |a|)
    ensures Token(a, i, k) == Token(b, i, k)
  {
    if k > 0 {
      assert Kept(a[i], k) == Kept(b[i], k);
    } else if 0 < i < |a| {
      assert Column(a[i - 1], 9) + Column(a[i], 0) == Column(b[i - 1], 9) + Column(b[i], 0);
    }
  }

  lemma TokensHaveNoTabs(lines: seq<ExplainLine>)
    requires NoTabs(lines)
    ensures forall x :: 0 <= x < |Tokens(lines)| ==> TabFree(Tokens(lines)[x])
  {
    forall x | 0 <= x <= 9 * |lines| ensures TabFree(Tokens(lines)[x]) {
      var i, k := Place(x);
      TokenAt(lines, i, k);
    }
  }

  /** When two explanations are one plan: exactly when they agree in everything the key keeps. */
  lemma PlanKeysAgreeIff(a: seq<ExplainLine>, b: seq<ExplainLine>)
    requires NoTabs(a) && NoTabs(b)
    ensures PlanKey(a) == PlanKey(b) <==> SamePlan(a, b)
  {
    KeyJoinsTokens(a);
    KeyJoinsTokens(b);
    if PlanKey(a) == PlanKey(b) {
      TokensHaveNoTabs(a);
      TokensHaveNoTabs(b);
      JoinIsInjective(Tokens(a), Tokens(b));
      TokensTell(a, b);
    } else if SamePlan(a, b) {
      SameTokens(a, b);
    }
  }

  /** The file AnalyzeExplain is given is written by "mysql -t", as a table drawn with bars and dashes: its
      lines hold no tabs and are a single column each.  Of such a file nothing is left out: two of them are
      one plan only if they are equal, the row estimates included. */
  lemma TablesAreOnePlanIff(a: seq<ExplainLine>, b: seq<ExplainLine>)
    requires NoTabs(a) && NoTabs(b)
    requires (forall i :: 0 <= i < |a| ==> |a[i]| == 1) && (forall i :: 0 <= i < |b| ==> |b[i]| == 1)
    ensures PlanKey(a) == PlanKey(b) <==> a == b
  {
    PlanKeysAgreeIff(a, b);
    if SamePlan(a, b) {
      forall i | 0 <= i < |a| ensures a[i] == b[i] {
        assert i > 0 ==> Column(a[i - 1], 9) + Column(a[i], 0) == Column(b[i - 1], 9) + Column(b[i], 0);
        assert i > 0 ==> "" + Column(a[i], 0) == Column(a[i], 0) && "" + Column(b[i], 0) == Column(b[i], 0);
        assert a[i] == [Column(a[i], 0)] && b[i] == [Column(b[i], 0)];
      }
    }
  }

  /** In tab-separated output the estimated number of rows is left out of the key.  Only an empty
      explanation gives the empty key, which the callers read as "do not run". */
  lemma {:induction false} RowEstimatesAreIgnored(a: seq<ExplainLine>, b: seq<ExplainLine>)
    requires |a| == |b|
    requires forall i, k: nat :: 0 <= i < |a| && k != ROWS_COLUMN ==> Column(a[i], k) == Column(b[i], k)
    ensures PlanKey(a) == PlanKey(b)
    ensures PlanKey(a) == "" <==> a == []
  {
    if a != [] {
      var x, y := a[|a| - 1], b[|b| - 1];
      RowEstimatesAreIgnored(a[..|a| - 1], b[..|b| - 1]);
      assert forall k: nat :: k != ROWS_COLUMN ==> Column(x, k) == Column(y, k);
      assert Fields(x) == Fields(y);
      assert LineKey(x) != "";
    }
  }

  /** The lines are joined without a separator, so tab-separated explanations that differ can be one plan:
      text may move from the id of a line to the last column of the line before. */
  lemma KeysCanCollide(a: ExplainLine, b: ExplainLine, text: string)
    requires |a| == |b| == 10
    ensures PlanKey([a[9 := a[9] + text], b]) == PlanKey([a, b[0 := text + b[0]]])
    ensures text != "" ==> [a[9 := a[9] + text], b] != [a, b[0 := text + b[0]]]
  {
    var x, y := [a[9 := a[9] + text], b], [a, b[0 := text + b[0]]];
    assert a[9] + text + b[0] == a[9] + (text + b[0]);
    assert SamePlan(x, y);
    SameTokens(x, y);
    KeyJoinsTokens(x);
    KeyJoinsTokens(y);
    if text != "" {
      assert |x[0][9]| != |y[0][9]|;
    }
  }
}

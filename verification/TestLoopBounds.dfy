/** How long the per-query loop of dbt3_benchmark/launcher.pl can go on, and what it answers. */
module TestLoopBounds {
  import opened PlanTable
  import opened TestLoop
  import opened TestLoopProperties
  import opened TestLoopLog
  import opened Wrappers
  import opened Arithmetic

  /** The settings that limit the number of runs. */
  predicate CountsTests(c: Config)
  {
    if c.analyze then c.numTests >= 1 else c.minMax || c.simpleAverage
  }

  predicate HasTimeLimit(c: Config)
  {
    c.analyze && c.maxQueryTime != 0
  }

  /** The settings that stop the loop whatever plans and times occur, as long as time passes. */
  predicate AlwaysStops(c: Config)
  {
    CountsTests(c) || HasTimeLimit(c)
  }

  /** Time passes: the clock never goes back, and each second sees at most `rate` iterations.  While every
      iteration restarts the server, which takes a second, the rate is 1. */
  ghost predicate Paced(rate: nat, obs: seq<Obs>)
  {
    && (forall i :: 0 <= i < |obs| ==> i <= rate * obs[i].clock)
    && (forall i, k :: 0 <= i <= k < |obs| ==> obs[i].clock <= obs[k].clock)
  }

  function Max(a: int, b: int): int
  {
    if a < b then b else a
  }

  function MaxIterations(c: Config): int
  {
    Max(1, c.numTests) + if c.Skips() then Max(1, c.maxSkipped) - 1 else 0
  }

  /** What MAX_QUERY_TIME makes of it: at most this many runs that do not stop the loop, the one that
      does, and the skips. */
  function MaxTimedIterations(c: Config, rate: nat): int
  {
    Max(0, rate * (c.maxQueryTime - c.timeout) + 1) + (if c.Skips() then Max(1, c.maxSkipped) - 1 else 0) + 1
  }

  /** The counters at the head of the loop. */
  lemma {:induction false} Counters(c: Config, obs: seq<Obs>, ss: seq<State>, n: nat)
    requires IsRun(c, obs, ss) && n <= |obs|
    ensures ss[n].j + ss[n].skipped == n && ss[n].j >= 0 && 0 <= ss[n].skipped
    ensures !c.Skips() ==> ss[n].skipped == 0
    ensures !ss[n].noMoreTests && ss[n].skipped > 0 ==> ss[n].skipped < c.maxSkipped
    ensures !ss[n].noMoreTests && ss[n].j > 0 && CountsTests(c) ==> ss[n].j < c.numTests
    ensures ss[n].noMoreTests && !c.analyze ==> n > 0 && ss[n].j >= c.numTests
  {
    if n > 0 {
      Counters(c, obs, ss, n - 1);
      assert StepAt(c, obs, ss, n - 1);
    }
  }

  lemma AtMostMaxIterations(c: Config, obs: seq<Obs>, ss: seq<State>)
    requires CountsTests(c) && IsRun(c, obs, ss)
    ensures |obs| <= MaxIterations(c)
  {
    var n := |obs|;
    if n > 0 {
      Counters(c, obs, ss, n - 1);
      assert StepAt(c, obs, ss, n - 1);
    }
  }

  /** As long as the time limit has not stopped the loop, the runs so far fit into the time. */
  lemma {:induction false} RunsFitIntoTime(c: Config, rate: nat, obs: seq<Obs>, ss: seq<State>, n: nat)
    requires IsRun(c, obs, ss) && Paced(rate, obs) && n <= |obs|
    requires HasTimeLimit(c) && !ss[n].noMoreTests
    ensures ss[n].j <= Max(0, rate * (c.maxQueryTime - c.timeout) + 1)
  {
    if n > 0 {
      assert StepAt(c, obs, ss, n - 1);
      RunsFitIntoTime(c, rate, obs, ss, n - 1);
      if ss[n].j > ss[n - 1].j {
        Counters(c, obs, ss, n);
        var clock := obs[n - 1].clock;
        assert !OutOfTime(c, clock);
        ProductGrows(rate, clock, c.maxQueryTime - c.timeout);
      }
    }
  }

  /** MAX_QUERY_TIME bounds the iterations of every run in which time passes, the skipped ones included. */
  lemma AtMostTimedIterations(c: Config, rate: nat, obs: seq<Obs>, ss: seq<State>)
    requires HasTimeLimit(c) && IsRun(c, obs, ss) && Paced(rate, obs)
    ensures |obs| <= MaxTimedIterations(c, rate)
  {
    var n := |obs|;
    if n > 0 {
      assert StepAt(c, obs, ss, n - 1);
      Counters(c, obs, ss, n - 1);
      RunsFitIntoTime(c, rate, obs, ss, n - 1);
    }
  }

  /** MIN_MAX_OUT_OF_N and SIMPLE_AVERAGE: exactly NUM_TESTS iterations, or one when it is 0. */
  lemma ExactlyNumTests(c: Config, obs: seq<Obs>, ss: seq<State>)
    requires !c.analyze && CountsTests(c) && IsRun(c, obs, ss)
    ensures ss[|obs|].noMoreTests <==> |obs| == Max(1, c.numTests)
  {
    Counters(c, obs, ss, |obs|);
    if |obs| > 0 {
      Counters(c, obs, ss, |obs| - 1);
      assert StepAt(c, obs, ss, |obs| - 1);
    }
  }

  // ----- How long it can really go on: iterations that are skipped, then runs of one plan

  function Zeros(n: nat): (r: seq<Time>)
    ensures |r| == n
  {
    seq(n, _ => 0)
  }

  lemma {:induction false} ZerosSumToZero(n: nat)
    ensures Sum(Zeros(n)) == 0
    ensures n > 0 ==> Clean(Zeros(n)) && Mean(Zeros(n)) == 0.0
  {
    if n > 0 {
      assert Zeros(n)[..n - 1] == Zeros(n - 1);
      ZerosSumToZero(n - 1);
    }
  }

  /** A query whose explanation is empty, and one answered within the second, always with the same plan. */
  function Unexplained(c: Config, clock: nat): Obs
  {
    Obs([], Zeros(c.warmupsCount), 0, clock)
  }

  function Instant(c: Config, clock: nat): Obs
  {
    Obs([["1"]], Zeros(c.warmupsCount), 0, clock)
  }

  function InstantPlan(c: Config): Plan
  {
    if c.Analyzes() then PlanKey([["1"]]) else NO_EXPLAIN
  }

  /** The run number j is the last one, in a test without time limit that only sees runs of no time. */
  predicate LastRun(c: Config, j: int)
  {
    if c.analyze then OutOfTests(c, j) else (c.minMax || c.simpleAverage) && j >= c.numTests
  }

  function SkipTable(k: nat): Table
  {
    if k == 0 then map[] else map["" := []]
  }

  function InstantTable(c: Config, k: nat, n: nat): Table
  {
    if n == 0 then SkipTable(k) else SkipTable(k)[InstantPlan(c) := Zeros(n)]
  }

  /** The state after k skipped iterations and n instant runs. */
  predicate SkippedThenRan(c: Config, s: State, k: nat, n: nat)
  {
    s.j == n && s.skipped == k && s.table == InstantTable(c, k, n) && s.noMoreTests == (n > 0 && LastRun(c, n))
  }

  lemma {:induction false} SkipRun(c: Config, k: nat) returns (obs: seq<Obs>, ss: seq<State>)
    requires k == 0 || (c.Skips() && k < c.maxSkipped)
    ensures |obs| == k && IsRun(c, obs, ss) && SkippedThenRan(c, ss[k], k, 0)
    ensures forall i :: 0 <= i < k ==> obs[i].clock == i
  {
    if k == 0 {
      obs, ss := [], [START];
    } else {
      obs, ss := SkipRun(c, k - 1);
      var s := ss[k - 1];
      var u := State(SkipTable(k), 0, k, false, false, s.best, s.log + TestStartRow(1), s.history + [Skipped("")]);
      assert SkipStep(c, s, Unexplained(c, k - 1), u);
      RunExtended(c, obs, ss, Unexplained(c, k - 1), u);
      obs, ss := obs + [Unexplained(c, k - 1)], ss + [u];
    }
  }

  /** One more instant run leads from table t to table u. */
  ghost predicate OneMoreInstant(c: Config, t: Table, u: Table)
  {
    var p := InstantPlan(c);
    && u == Pushed(if c.Analyzes() then Noted(t, p) else t, p, 0)
    && p != "" && Answers(t, p, p) && IsBest(u, p) && Mean(u[p]) == 0.0
  }

  lemma TableAfterInstant(c: Config, k: nat, n: nat)
    requires k > 0 ==> c.Skips()
    ensures OneMoreInstant(c, InstantTable(c, k, n), InstantTable(c, k, n + 1))
  {
    ZerosSumToZero(n);
    ZerosSumToZero(n + 1);
    RowEstimatesAreIgnored([["1"]], [["1"]]);
    assert Zeros(n) + [0] == Zeros(n + 1);
  }

  function InstantWarmups(c: Config, s: State): seq<Time>
  {
    if c.warmup && (!c.atOnce || !s.warmedUp) then Zeros(c.warmupsCount) else []
  }

  function InstantNext(c: Config, s: State, k: nat, n: nat): State
  {
    State(InstantTable(c, k, n + 1), n + 1, k, c.warmup || (c.atOnce && s.warmedUp), LastRun(c, n + 1),
          if c.analyze && (c.numTests == 0 || OutOfTests(c, n + 1)) then Some(0.0) else s.best,
          s.log + TestStartRow(n + 1) + WarmupRows(InstantWarmups(c, s)) + [RunStart(n + 1), RunEnd(n + 1, 0)],
          s.history + [Ran(InstantPlan(c), InstantWarmups(c, s), 0)])
  }

  lemma InstantStep(c: Config, s: State, k: nat, n: nat, clock: nat) returns (u: State)
    requires !HasTimeLimit(c) && (k > 0 ==> c.Skips()) && SkippedThenRan(c, s, k, n) && !s.noMoreTests
    ensures Step(c, s, Instant(c, clock), u) && SkippedThenRan(c, u, k, n + 1)
  {
    u := InstantNext(c, s, k, n);
    TableAfterInstant(c, k, n);
    InstantRunStep(c, s, k, n, clock, u);
  }

  lemma InstantRunStep(c: Config, s: State, k: nat, n: nat, clock: nat, u: State)
    requires !HasTimeLimit(c) && s.j == n && s.skipped == k && u == InstantNext(c, s, k, n)
    requires OneMoreInstant(c, s.table, u.table)
    ensures RunStep(c, s, Instant(c, clock), u)
  {
    InstantDecision(c, s, clock, u);
    assert u.history[|s.history|] == Ran(InstantPlan(c), InstantWarmups(c, s), 0);
  }

  lemma InstantDecision(c: Config, s: State, clock: nat, u: State)
    requires !HasTimeLimit(c) && u.noMoreTests == LastRun(c, u.j) && OneMoreInstant(c, s.table, u.table)
    requires u.best == if c.analyze && (c.numTests == 0 || OutOfTests(c, u.j)) then Some(0.0) else s.best
    ensures Decides(c, s.best, clock, u)
  {
  }

  /** One iteration a second: k skips, then n runs. */
  ghost predicate IsInstantRun(c: Config, obs: seq<Obs>, ss: seq<State>, k: nat, n: nat)
  {
    && |obs| == k + n && IsRun(c, obs, ss) && SkippedThenRan(c, ss[|obs|], k, n)
    && forall i :: 0 <= i < |obs| ==> obs[i].clock == i
  }

  /** There is such a run as long as no run before the n-th is the last. */
  lemma {:induction false} InstantRun(c: Config, k: nat, n: nat) returns (obs: seq<Obs>, ss: seq<State>)
    requires !HasTimeLimit(c) && (k == 0 || (c.Skips() && k < c.maxSkipped))
    requires forall i :: 1 <= i < n ==> !LastRun(c, i)
    ensures IsInstantRun(c, obs, ss, k, n)
  {
    if n == 0 {
      obs, ss := SkipRun(c, k);
    } else {
      var before, states := InstantRun(c, k, n - 1);
      obs, ss := OneInstantMore(c, before, states, k, n - 1);
    }
  }

  lemma OneInstantMore(c: Config, before: seq<Obs>, states: seq<State>, k: nat, n: nat)
      returns (obs: seq<Obs>, ss: seq<State>)
    requires !HasTimeLimit(c) && (k > 0 ==> c.Skips()) && (n > 0 ==> !LastRun(c, n))
    requires IsInstantRun(c, before, states, k, n)
    ensures IsInstantRun(c, obs, ss, k, n + 1)
  {
    var s, o := states[|before|], Instant(c, k + n);
    var u := InstantStep(c, s, k, n, k + n);
    RunExtended(c, before, states, o, u);
    obs, ss := before + [o], states + [u];
    assert ss[|obs|] == u;
  }

  /** No smaller number bounds the iterations where the settings count the tests and set no time limit: as
      many as can be skipped, and then NUM_TESTS runs of one plan. */
  lemma MaxIterationsIsReached(c: Config, rate: nat) returns (obs: seq<Obs>, ss: seq<State>)
    requires CountsTests(c) && !HasTimeLimit(c) && rate >= 1
    ensures IsRun(c, obs, ss) && Paced(rate, obs) && |obs| == MaxIterations(c)
  {
    var k := if c.Skips() then Max(1, c.maxSkipped) - 1 else 0;
    obs, ss := InstantRun(c, k, Max(1, c.numTests));
    SecondsArePaced(rate, obs);
  }

  /** No run in which time passes has more iterations. */
  ghost predicate BoundedBy(c: Config, rate: nat, bound: int)
  {
    forall obs, ss :: IsRun(c, obs, ss) && Paced(rate, obs) ==> |obs| <= bound
  }

  /** However many iterations fit into a second, their number is bounded if and only if the settings always
      stop the loop.  Plan analysis with neither NUM_TESTS nor MAX_QUERY_TIME goes on for ever on a query
      that is answered within the second by one plan, since a best mean of 0 reads as "none yet". */
  lemma BoundedIffAlwaysStops(c: Config, rate: nat)
    requires rate >= 1
    ensures (exists bound :: BoundedBy(c, rate, bound)) <==> AlwaysStops(c)
  {
    if AlwaysStops(c) {
      var bound := if CountsTests(c) then MaxIterations(c) else MaxTimedIterations(c, rate);
      forall obs, ss | IsRun(c, obs, ss) && Paced(rate, obs) ensures |obs| <= bound {
        if CountsTests(c) {
          AtMostMaxIterations(c, obs, ss);
        } else {
          AtMostTimedIterations(c, rate, obs, ss);
        }
      }
      assert BoundedBy(c, rate, bound);
    } else if bound :| BoundedBy(c, rate, bound) {
      var obs, ss := InstantRun(c, 0, Max(0, bound) + 1);
      SecondsArePaced(rate, obs);
      assert false;
    }
  }

  lemma SecondsArePaced(rate: nat, obs: seq<Obs>)
    requires rate >= 1 && forall i :: 0 <= i < |obs| ==> obs[i].clock == i
    ensures Paced(rate, obs)
  {
    forall i | 0 <= i < |obs| ensures i <= rate * obs[i].clock {
      ProductGrows(i, 1, rate);
    }
  }

  // ----- The answer

  /** The value reported for a query when the loop has stopped: the least mean among the plans that never
      timed out (below the sentinel), or -1.  Said on the history alone, so no hash order matters. */
  ghost predicate Answer(h: seq<Outcome>, r: real)
  {
    if forall p :: !Eligible(TimesOf(h, p)) then r == -1.0
    else (exists p :: Eligible(TimesOf(h, p)) && Mean(TimesOf(h, p)) == r)
         && forall p :: Eligible(TimesOf(h, p)) ==> r <= Mean(TimesOf(h, p))
  }

  /** Whenever the loop has stopped the reported value is that answer; the hash order can matter only for
      when it stops. */
  lemma FinalAnswer(c: Config, obs: seq<Obs>, ss: seq<State>)
    requires c.analyze && IsRun(c, obs, ss) && ss[|obs|].noMoreTests
    ensures ss[|obs|].best.Some? && Answer(ss[|obs|].history, ss[|obs|].best.value)
  {
    var n := |obs|;
    assert n > 0 && StepAt(c, obs, ss, n - 1);
    TableGroupsHistory(c, obs, ss, n);
    AnswerFromTable(c, ss[n], ss[n].best.value);
  }

  lemma AnswerFromTable(c: Config, s: State, r: real)
    requires Grouped(s)
    requires ClusterResult(s.table, c.clusterSize, true, r) || (r != 0.0 && ClusterResult(s.table, c.clusterSize, false, r))
    ensures Answer(s.history, r)
  {
    var t, h := s.table, s.history;
    assert ClusterResult(t, c.clusterSize, true, r);
    BestAvailableIsUnique(t, c.clusterSize, r);
    forall p | Eligible(TimesOf(h, p)) ensures p in t && t[p] == TimesOf(h, p) {
      if !Seen(h, p) {
        UnseenHasNoTimes(h, p);
      }
    }
    if NoneEligible(t) {
      forall p ensures !Eligible(TimesOf(h, p)) {
      }
    } else {
      var q :| q in t && Eligible(t[q]) && Mean(t[q]) == r;
      assert Eligible(TimesOf(h, q));
    }
  }

  /** A loop that goes on has not used up its bounds. */
  lemma StillGoing(c: Config, obs: seq<Obs>, ss: seq<State>)
    requires IsRun(c, obs, ss) && !ss[|obs|].noMoreTests
    ensures CountsTests(c) ==> |obs| < MaxIterations(c)
    ensures forall rate :: HasTimeLimit(c) && Paced(rate, obs) ==> |obs| < MaxTimedIterations(c, rate)
  {
    Counters(c, obs, ss, |obs|);
    forall rate | HasTimeLimit(c) && Paced(rate, obs) ensures |obs| < MaxTimedIterations(c, rate) {
      RunsFitIntoTime(c, rate, obs, ss, |obs|);
    }
  }
}

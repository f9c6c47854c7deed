/** The per-query loop of RunTests in dbt3_benchmark/launcher.pl, for MySQL/MariaDB with RUN set and
    without --dry-run.  One iteration restarts the server, explains the query, runs or skips it and
    decides whether to go on. */
module TestLoop {
  import opened PlanTable
  import opened Wrappers

  /** The settings the loop consults; `explain` stands for EXPLAIN together with EXPLAIN_QUERY. */
  datatype Config = Config(explain: bool, analyze: bool, minMax: bool, simpleAverage: bool, atOnce: bool,
                           warmup: bool, warmupsCount: nat, numTests: nat, maxSkipped: int,
                           maxQueryTime: int, timeout: int, clusterSize: int)
  {
    /** The mode in which execution plans decide what is run. */
    predicate Analyzes() { explain && analyze }

    /** ... and in which a rejected plan is skipped instead of being run under the empty key. */
    predicate Skips() { Analyzes() && !atOnce }
  }

  /** What one iteration observes: the EXPLAIN output, the times of the warm-up runs and of the run, and
      the seconds since the query's test began. */
  datatype Obs = Obs(explanation: seq<ExplainLine>, warmups: seq<Time>, elapsed: Time, clock: nat)

  /** Rows written to the results database. */
  datatype Row = TestStart | WarmupStart(id: int) | WarmupEnd(id: int, time: Time)
               | RunStart(id: int) | RunEnd(id: int, time: Time)

  /** What one iteration did. */
  datatype Outcome = Ran(plan: Plan, warmed: seq<Time>, time: Time) | Skipped(plan: Plan)

  /** The variables of the loop, with the history of what was done. */
  datatype State = State(table: Table, j: int, skipped: int, warmedUp: bool, noMoreTests: bool,
                         best: Option<real>, log: seq<Row>, history: seq<Outcome>)

  const START := State(map[], 0, 0, false, false, None, [], [])

  const NO_EXPLAIN := "no_explain"

  // ----- What one iteration may do

  /** AnalyzeExplain answers with the plan itself when the plan is to be run, otherwise with "". */
  ghost predicate Answers(t: Table, plan: Plan, answer: Plan)
  {
    if plan !in t then answer == plan
    else (answer == plan && (plan == "" || IsBest(t, plan)))
         || (answer == "" && (!IsBest(t, plan) || exists q :: q != plan && IsBest(t, q)))
  }

  function Noted(t: Table, plan: Plan): Table
  {
    if plan in t then t else t[plan := []]
  }

  /** push(@{ $GlobalExplainResults{$key} }, $time), which creates a missing entry. */
  function Pushed(t: Table, key: Plan, time: Time): (r: Table)
  {
    t[key := (if key in t then t[key] else []) + [time]]
  }

  function WarmupRows(times: seq<Time>): seq<Row>
  {
    if times == [] then []
    else WarmupRows(times[..|times| - 1])
         + [WarmupStart(|times| - 1), WarmupEnd(|times| - 1, times[|times| - 1])]
  }

  function TestStartRow(j: int): seq<Row>
  {
    if j == 1 then [TestStart] else []
  }

  ghost predicate SkipStep(c: Config, s: State, o: Obs, u: State)
  {
    var plan := PlanKey(o.explanation);
    && c.Skips()
    && Answers(s.table, plan, "")
    && u.table == Noted(s.table, plan)
    && u.j == s.j && u.skipped == s.skipped + 1 && !u.warmedUp
    && u.log == s.log + TestStartRow(s.j + 1)
    && u.history == s.history + [Skipped(plan)]
    && u.noMoreTests == (u.skipped >= c.maxSkipped)
    && if u.noMoreTests then u.best.Some? && ClusterResult(u.table, c.clusterSize, true, u.best.value)
       else u.best == s.best
  }

  predicate OutOfTests(c: Config, j: int)
  {
    c.numTests != 0 && j >= c.numTests
  }

  predicate OutOfTime(c: Config, clock: nat)
  {
    c.maxQueryTime != 0 && c.maxQueryTime < c.timeout + clock
  }

  /** The decision taken after a run. */
  ghost predicate Decides(c: Config, before: Option<real>, clock: nat, u: State)
  {
    if c.analyze then
      if OutOfTests(c, u.j) || OutOfTime(c, clock) then
        u.noMoreTests && u.best.Some? && ClusterResult(u.table, c.clusterSize, true, u.best.value)
      else if c.numTests == 0 then
        u.best.Some? && ClusterResult(u.table, c.clusterSize, false, u.best.value)
        && (u.noMoreTests <==> u.best.value != 0.0)
      else
        !u.noMoreTests && u.best == before
    else
      (u.noMoreTests <==> (c.minMax || c.simpleAverage) && u.j >= c.numTests) && u.best == before
  }

  ghost predicate RunStep(c: Config, s: State, o: Obs, u: State)
  {
    var plan := PlanKey(o.explanation);
    var warms := c.warmup && (!c.atOnce || !s.warmedUp);
    && |u.history| == |s.history| + 1
    && var did := u.history[|s.history|];
    && did.Ran?
    && (if c.Analyzes() then Answers(s.table, plan, did.plan) && (did.plan == "" ==> c.atOnce)
        else did.plan == NO_EXPLAIN)
    && did.warmed == (if warms then o.warmups else [])
    && did.time == o.elapsed
    && u.history == s.history + [did]
    && u.table == Pushed(if c.Analyzes() then Noted(s.table, plan) else s.table, did.plan, o.elapsed)
    && u.j == s.j + 1 && u.skipped == s.skipped && u.warmedUp == (c.warmup || (c.atOnce && s.warmedUp))
    && u.log == s.log + TestStartRow(u.j) + WarmupRows(did.warmed) + [RunStart(u.j), RunEnd(u.j, o.elapsed)]
    && Decides(c, s.best, o.clock, u)
  }

  ghost predicate Step(c: Config, s: State, o: Obs, u: State)
  {
    !s.noMoreTests && |o.warmups| == c.warmupsCount && (SkipStep(c, s, o, u) || RunStep(c, s, o, u))
  }

  /** Iteration i leads from state i to state i + 1. */
  ghost predicate StepAt(c: Config, obs: seq<Obs>, ss: seq<State>, i: int)
  {
    0 <= i < |obs| && |ss| == |obs| + 1 && Step(c, ss[i], obs[i], ss[i + 1])
  }

  /** ss is what the loop goes through while it observes obs. */
  ghost predicate IsRun(c: Config, obs: seq<Obs>, ss: seq<State>)
  {
    |ss| == |obs| + 1 && ss[0] == START && forall i :: 0 <= i < |obs| ==> StepAt(c, obs, ss, i)
  }

  lemma RunExtended(c: Config, obs: seq<Obs>, ss: seq<State>, o: Obs, u: State)
    requires IsRun(c, obs, ss) && Step(c, ss[|obs|], o, u)
    ensures IsRun(c, obs + [o], ss + [u])
  {
    var obs', ss' := obs + [o], ss + [u];
    forall i | 0 <= i < |obs'| ensures StepAt(c, obs', ss', i) {
      if i < |obs| {
        assert StepAt(c, obs, ss, i);
      }
    }
  }

  // ----- The loop itself

  /** %GlobalExplainResults, which AnalyzeExplain and the loop change through a reference. */
  class PlanStore {
    var results: Table

    constructor ()
      ensures results == map[]
    {
      results := map[];
    }

    /** The plan if it is new or the best so far, otherwise "". */
    method AnalyzeExplain(explanation: seq<ExplainLine>) returns (retVal: Plan)
      modifies this
      ensures results == Noted(old(results), PlanKey(explanation))
      ensures Answers(old(results), PlanKey(explanation), retVal)
      ensures PlanKey(explanation) !in old(results) ==> retVal == PlanKey(explanation)
    {
      var expl := PlanKey(explanation);
      retVal := "";
      if expl !in results {
        results := results[expl := []];
        retVal := expl;
      } else {
        BestExists(results);
        var order := AnyOrder(results.Keys);
        var min, minkey, minCount := ScanPlans(results, order);
        if expl == minkey {
          retVal := expl;
        }
      }
    }

    method Push(key: Plan, time: Time)
      modifies this
      ensures results == Pushed(old(results), key, time)
    {
      results := results[key := (if key in results then results[key] else []) + [time]];
    }

    method GetBest(clusterSize: int, getBestAvailable: bool) returns (r: real)
      ensures ClusterResult(results, clusterSize, getBestAvailable, r)
    {
      var order := AnyOrder(results.Keys);
      r := GetBestExplainCluster(results, order, clusterSize, getBestAvailable);
    }
  }

  class QueryTest {
    const c: Config
    const store: PlanStore
    var j: int
    var skippedTestsCount: int
    var warmedUp: bool
    var noMoreTests: bool
    var best: Option<real>
    var log: seq<Row>
    ghost var history: seq<Outcome>

    constructor (c: Config)
      ensures this.c == c && fresh(store) && Snapshot() == START
    {
      this.c := c;
      store := new PlanStore();
      j, skippedTestsCount, warmedUp, noMoreTests, best := 0, 0, false, false, None;
      log, history := [], [];
    }

    ghost function Snapshot(): State
      reads this, store
    {
      State(store.results, j, skippedTestsCount, warmedUp, noMoreTests, best, log, history)
    }

    method WarmUp(times: seq<Time>)
      requires |times| == c.warmupsCount
      modifies `log
      ensures log == old(log) + WarmupRows(times)
    {
      var w := 0;
      while w < c.warmupsCount
        invariant w <= c.warmupsCount
        invariant log == old(log) + WarmupRows(times[..w])
      {
        assert times[..w + 1][..w] == times[..w];
        log := log + [WarmupStart(w)];
        log := log + [WarmupEnd(w, times[w])];
        w := w + 1;
      }
      assert times[..w] == times;
    }

    /** The body of the "while (!$noMoreTests)" loop. */
    method Iterate(o: Obs)
      requires !noMoreTests && |o.warmups| == c.warmupsCount
      modifies this, store
      ensures Step(c, old(Snapshot()), o, Snapshot())
    {
      var skipCurrentRun, executionPlan := Explain(o);
      if !skipCurrentRun {
        Perform(executionPlan, o);
        assert RunStep(c, old(Snapshot()), o, Snapshot()) by {
          assert Snapshot().history[|old(history)|] == Snapshot().history[|Snapshot().history| - 1];
        }
      }
    }

    /** The first part of the body: log the test, explain the query, decide whether to run it. */
    method Explain(o: Obs) returns (skipCurrentRun: bool, executionPlan: Plan)
      requires !noMoreTests
      modifies this, store
      ensures skipCurrentRun ==> SkipStep(c, old(Snapshot()), o, Snapshot())
      ensures !skipCurrentRun ==>
                && j == old(j) + 1 && log == old(log) + TestStartRow(j) && warmedUp == (c.atOnce && old(warmedUp))
                && unchanged(`skippedTestsCount, `noMoreTests, `best, `history)
                && (if c.Analyzes() then
                      && store.results == Noted(old(store.results), PlanKey(o.explanation))
                      && Answers(old(store.results), PlanKey(o.explanation), executionPlan)
                      && (executionPlan == "" ==> c.atOnce)
                    else unchanged(store) && executionPlan == NO_EXPLAIN)
    {
      j := j + 1;
      skipCurrentRun := false;
      if !c.atOnce {
        warmedUp := false;
      }
      if j == 1 {
        log := log + [TestStart];
      }
      assert log == old(log) + TestStartRow(j);
      executionPlan := NO_EXPLAIN;
      if c.explain && c.analyze {
        executionPlan := store.AnalyzeExplain(o.explanation);
        if executionPlan == "" && !c.atOnce {
          skipCurrentRun := true;
          Skip(PlanKey(o.explanation));
        }
      }
    }

    method Skip(ghost plan: Plan)
      requires !noMoreTests
      modifies `j, `skippedTestsCount, `history, `best, `noMoreTests
      ensures j == old(j) - 1 && skippedTestsCount == old(skippedTestsCount) + 1
      ensures history == old(history) + [Skipped(plan)]
      ensures noMoreTests == (skippedTestsCount >= c.maxSkipped)
      ensures if noMoreTests then best.Some? && ClusterResult(store.results, c.clusterSize, true, best.value)
              else best == old(best)
    {
      skippedTestsCount := skippedTestsCount + 1;
      j := j - 1;
      history := history + [Skipped(plan)];
      if skippedTestsCount >= c.maxSkipped {
        var min := store.GetBest(c.clusterSize, true);
        best, noMoreTests := Some(min), true;
      }
    }

    /** The part of the body that a skipped plan is spared. */
    method Perform(executionPlan: Plan, o: Obs)
      requires !noMoreTests && |o.warmups| == c.warmupsCount
      modifies this, store
      ensures j == old(j) && skippedTestsCount == old(skippedTestsCount)
      ensures warmedUp == (c.warmup || old(warmedUp))
      ensures var warmed := if c.warmup && !old(warmedUp) then o.warmups else [];
              && history == old(history) + [Ran(executionPlan, warmed, o.elapsed)]
              && log == old(log) + WarmupRows(warmed) + [RunStart(j), RunEnd(j, o.elapsed)]
      ensures store.results == Pushed(old(store.results), executionPlan, o.elapsed)
      ensures Decides(c, old(best), o.clock, Snapshot())
    {
      ghost var warmed := [];
      if c.warmup && !warmedUp {
        WarmUp(o.warmups);
        warmedUp, warmed := true, o.warmups;
      }
      ghost var before := log;
      log := log + [RunStart(j)];
      store.Push(executionPlan, o.elapsed);
      history := history + [Ran(executionPlan, warmed, o.elapsed)];
      log := log + [RunEnd(j, o.elapsed)];
      assert log == before + [RunStart(j), RunEnd(j, o.elapsed)];
      Decide(o.clock);
    }

    /** The checks after a run. */
    method Decide(clock: nat)
      requires !noMoreTests
      modifies `best, `noMoreTests
      ensures Decides(c, old(best), clock, Snapshot())
    {
      if c.analyze {
        if (c.numTests != 0 && j >= c.numTests) || (c.maxQueryTime != 0 && c.maxQueryTime < c.timeout + clock) {
          var min := store.GetBest(c.clusterSize, true);
          best, noMoreTests := Some(min), true;
        } else if c.numTests == 0 {
          var min := store.GetBest(c.clusterSize, false);
          best := Some(min);
          if min != 0.0 {
            noMoreTests := true;
          }
        }
      } else if c.minMax {
        if j >= c.numTests {
          noMoreTests := true;
        }
      } else if c.simpleAverage {
        if j >= c.numTests {
          noMoreTests := true;
        }
      }
    }

    /** The loop, for as long as there is something to observe. */
    method Run(obs: seq<Obs>) returns (n: nat, ghost ss: seq<State>)
      requires Snapshot() == START
      requires forall i :: 0 <= i < |obs| ==> |obs[i].warmups| == c.warmupsCount
      modifies this, store
      ensures n <= |obs| && IsRun(c, obs[..n], ss) && ss[n] == Snapshot()
      ensures noMoreTests || n == |obs|
    {
      n := 0;
      ss := [START];
      while n < |obs| && !noMoreTests
        invariant n <= |obs|
        invariant IsRun(c, obs[..n], ss) && ss[n] == Snapshot()
      {
        Iterate(obs[n]);
        RunExtended(c, obs[..n], ss, obs[n], Snapshot());
        assert obs[..n + 1] == obs[..n] + [obs[n]];
        ss := ss + [Snapshot()];
        n := n + 1;
      }
    }
  }
}

/** One query of RunTests in dbt3_benchmark/launcher.pl from start to finish, with the result it reports. */
module MeasuredQuery {
  import opened PlanTable
  import opened TestLoop
  import opened TestLoopProperties
  import opened TestLoopLog
  import opened TestLoopStops
  import opened TestLoopBounds
  import opened RunSummaries
  import opened Wrappers

  /** %$resultHash, where None is "null". */
  datatype Result = Result(min: Option<real>, max: Option<int>, avg: Option<real>)

  /** When one of the two modes without analysis has stopped, the table holds one list: the times of exactly
      NUM_TESTS runs, or of one when it is 0. */
  lemma SummarizedTimes(c: Config, obs: seq<Obs>, ss: seq<State>)
    requires !c.analyze && CountsTests(c) && IsRun(c, obs, ss) && ss[|obs|].noMoreTests
    ensures ss[|obs|].table == map[NO_EXPLAIN := RunTimes(ss[|obs|].history)]
    ensures |RunTimes(ss[|obs|].history)| == Max(1, c.numTests)
  {
    OneListOnly(c, obs, ss, |obs|);
    ExactlyNumTests(c, obs, ss);
    Counters(c, obs, ss, |obs|);
    RunsAreNumberedInOrder(c, obs, ss, |obs|);
  }

  /** How the loop ends: not before its time, not later than both bounds allow, with the best mean as the
      minimum if plans are analysed. */
  ghost predicate EndsInTime(c: Config, obs: seq<Obs>, s: State)
  {
    && StoppedWhenDue(c, obs, s.history, s.noMoreTests)
    && (CountsTests(c) && |obs| >= MaxIterations(c) ==> s.noMoreTests)
    && (forall rate :: HasTimeLimit(c) && Paced(rate, obs) && |obs| >= MaxTimedIterations(c, rate) ==> s.noMoreTests)
    && (c.analyze && s.noMoreTests ==> s.best.Some? && Answer(s.history, s.best.value))
  }

  /** What it did: each plan was run or turned down greedily, and the run rows are numbered 1 to j. */
  ghost predicate RunsGreedily(c: Config, obs: seq<Obs>, s: State)
  {
    && |s.history| <= |obs|
    && var seen := obs[..|s.history|];
    && (c.explain && c.analyze && !c.atOnce ==> AllGreedy(s.history) && Recorded(s.history, seen))
    && (c.explain && c.analyze && c.atOnce ==> AllGreedyAtOnce(s.history, seen))
    && RunRows(s.log) == Numbered(RunTimes(s.history)) && s.j == |RunTimes(s.history)|
  }

  lemma EndIsInTime(c: Config, obs: seq<Obs>, n: nat, ss: seq<State>)
    requires n <= |obs| && IsRun(c, obs[..n], ss) && (ss[n].noMoreTests || n == |obs|)
    ensures EndsInTime(c, obs, ss[n])
  {
    StopsWhenDue(c, obs, n, ss);
    if !ss[n].noMoreTests {
      assert obs[..n] == obs;
      StillGoing(c, obs, ss);
    } else if c.analyze {
      FinalAnswer(c, obs[..n], ss);
    }
  }

  lemma RunIsGreedy(c: Config, obs: seq<Obs>, n: nat, ss: seq<State>)
    requires n <= |obs| && IsRun(c, obs[..n], ss)
    ensures RunsGreedily(c, obs, ss[n])
  {
    var seen := obs[..n];
    assert seen[..n] == seen;
    CountersAgree(c, seen, ss, n);
    RunsAreNumberedInOrder(c, seen, ss, n);
    if c.Skips() {
      EveryChoiceIsGreedy(c, seen, ss, n);
    } else if c.Analyzes() {
      EveryChoiceAtOnceIsGreedy(c, seen, ss, n);
    }
  }

  /** What the loop leaves in its variables, on anything it may observe, and what it reports: the minimum with
      plan analysis, otherwise the summary of exactly NUM_TESTS runs. */
  method MeasureQuery(c: Config, obs: seq<Obs>) returns (test: QueryTest, result: Result)
    requires forall i :: 0 <= i < |obs| ==> |obs[i].warmups| == c.warmupsCount
    ensures EndsInTime(c, obs, test.Snapshot()) && RunsGreedily(c, obs, test.Snapshot())
    ensures c.analyze ==> result == Result(test.best, None, None)
    ensures !c.analyze && test.noMoreTests ==> |RunTimes(test.history)| == Max(1, c.numTests)
    ensures !c.analyze && test.noMoreTests && c.minMax ==>
              exists min, max :: MinMax(RunTimes(test.history), min, max)
                && result == Result(Some(min as real), Some(max), None)
    ensures !c.analyze && test.noMoreTests && !c.minMax ==>
              exists avg, k :: Average(RunTimes(test.history), avg, k) && result == Result(None, None, Some(avg))
  {
    test := new QueryTest(c);
    ghost var n, ss;
    n, ss := test.Run(obs);
    EndIsInTime(c, obs, n, ss);
    RunIsGreedy(c, obs, n, ss);
    result := Result(None, None, None);
    if c.analyze {
      result := Result(test.best, None, None);
    } else if test.noMoreTests {
      StopsOnlyIf(c, obs[..n], ss);
      SummarizedTimes(c, obs[..n], ss);
      result := Summarize(c, test.store.results[NO_EXPLAIN]);
    }
  }

  /** Without analysis only the two modes stop the loop. */
  lemma StopsOnlyIf(c: Config, obs: seq<Obs>, ss: seq<State>)
    requires !c.analyze && IsRun(c, obs, ss) && ss[|obs|].noMoreTests
    ensures CountsTests(c)
  {
    assert |obs| > 0;
    assert StepAt(c, obs, ss, |obs| - 1);
  }

  /** GetMinMax or GetSimpleAverage. */
  method Summarize(c: Config, times: seq<Time>) returns (result: Result)
    ensures c.minMax ==>
              exists min, max :: MinMax(times, min, max) && result == Result(Some(min as real), Some(max), None)
    ensures !c.minMax ==> exists avg, k :: Average(times, avg, k) && result == Result(None, None, Some(avg))
  {
    if c.minMax {
      var min, max := GetMinMax(times);
      result := Result(Some(min as real), Some(max), None);
    } else {
      ghost var k;
      var avg;
      avg, k := GetSimpleAverage(times);
      assert Average(times, avg, k);
      result := Result(None, None, Some(avg));
    }
  }
}

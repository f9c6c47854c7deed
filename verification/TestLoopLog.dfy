/** What a run of the per-query loop of dbt3_benchmark/launcher.pl leaves in the results database. */
module TestLoopLog {
  import opened PlanTable
  import opened TestLoop

  function RunTimes(h: seq<Outcome>): seq<Time>
  {
    if h == [] then []
    else RunTimes(h[..|h| - 1]) + (if h[|h| - 1].Ran? then [h[|h| - 1].time] else [])
  }

  /** The rows of the runs that are not warm-ups, in the order in which they were logged. */
  function RunRows(log: seq<Row>): seq<Row>
  {
    if log == [] then []
    else RunRows(log[..|log| - 1])
         + (var r := log[|log| - 1]; if r.RunStart? || r.RunEnd? then [r] else [])
  }

  /** Runs numbered 1, 2, ... each with its start directly followed by its end. */
  function Numbered(times: seq<Time>): seq<Row>
  {
    if times == [] then []
    else Numbered(times[..|times| - 1]) + [RunStart(|times|), RunEnd(|times|, times[|times| - 1])]
  }

  function TestStarts(log: seq<Row>): nat
  {
    if log == [] then 0
    else TestStarts(log[..|log| - 1]) + if log[|log| - 1].TestStart? then 1 else 0
  }

  lemma {:induction false} Concatenated(a: seq<Row>, b: seq<Row>)
    ensures RunRows(a + b) == RunRows(a) + RunRows(b)
    ensures TestStarts(a + b) == TestStarts(a) + TestStarts(b)
  {
    if b == [] {
      assert a + b == a;
    } else {
      Concatenated(a, b[..|b| - 1]);
      assert (a + b)[..|a + b| - 1] == a + b[..|b| - 1];
    }
  }

  lemma OneRow(x: Row)
    ensures RunRows([x]) == if x.RunStart? || x.RunEnd? then [x] else []
    ensures TestStarts([x]) == if x.TestStart? then 1 else 0
  {
    assert [x][..0] == [];
  }

  lemma TwoRows(x: Row, y: Row)
    ensures RunRows([x, y]) == (if x.RunStart? || x.RunEnd? then [x] else []) + (if y.RunStart? || y.RunEnd? then [y] else [])
    ensures TestStarts([x, y]) == (if x.TestStart? then 1 else 0) + if y.TestStart? then 1 else 0
  {
    OneRow(x);
    OneRow(y);
    Concatenated([x], [y]);
    assert [x] + [y] == [x, y];
  }

  lemma {:induction false} WarmupsAreNoRuns(times: seq<Time>)
    ensures RunRows(WarmupRows(times)) == []
    ensures TestStarts(WarmupRows(times)) == 0
  {
    if times != [] {
      var pair := [WarmupStart(|times| - 1), WarmupEnd(|times| - 1, times[|times| - 1])];
      WarmupsAreNoRuns(times[..|times| - 1]);
      Concatenated(WarmupRows(times[..|times| - 1]), pair);
      TwoRows(pair[0], pair[1]);
    }
  }

  lemma HeadRow(j: int)
    ensures RunRows(TestStartRow(j)) == []
    ensures TestStarts(TestStartRow(j)) == if j == 1 then 1 else 0
  {
    OneRow(TestStart);
  }

  lemma RunOnLog(log: seq<Row>, j: int, warmed: seq<Time>, time: Time)
    ensures var u := log + TestStartRow(j) + WarmupRows(warmed) + [RunStart(j), RunEnd(j, time)];
            && TestStarts(u) == TestStarts(log) + (if j == 1 then 1 else 0)
            && RunRows(u) == RunRows(log) + [RunStart(j), RunEnd(j, time)]
  {
    HeadRow(j);
    WarmupsAreNoRuns(warmed);
    TwoRows(RunStart(j), RunEnd(j, time));
    var a, b := log + TestStartRow(j), WarmupRows(warmed);
    Concatenated(log, TestStartRow(j));
    Concatenated(a, b);
    Concatenated(a + b, [RunStart(j), RunEnd(j, time)]);
  }

  lemma StepOnLog(c: Config, s: State, o: Obs, u: State)
    requires Step(c, s, o, u)
    ensures s.log <= u.log
    ensures u.history == s.history + [u.history[|s.history|]]
    ensures TestStarts(u.log) == TestStarts(s.log) + if s.j == 0 then 1 else 0
    ensures s.j == 0 ==> |s.log| < |u.log| && u.log[|s.log|] == TestStart
    ensures var x := u.history[|s.history|];
            if x.Ran? then u.j == s.j + 1 && RunRows(u.log) == RunRows(s.log) + [RunStart(u.j), RunEnd(u.j, x.time)]
            else u.j == s.j && RunRows(u.log) == RunRows(s.log)
  {
    if RunStep(c, s, o, u) {
      RunOnLog(s.log, u.j, u.history[|s.history|].warmed, o.elapsed);
    } else {
      HeadRow(s.j + 1);
      Concatenated(s.log, TestStartRow(s.j + 1));
    }
  }

  /** The numbering after one more run. */
  lemma RunTimesExtended(h: seq<Outcome>, x: Outcome)
    ensures RunTimes(h + [x]) == if x.Ran? then RunTimes(h) + [x.time] else RunTimes(h)
    ensures x.Ran? ==> var j := |RunTimes(h)| + 1;
              Numbered(RunTimes(h + [x])) == Numbered(RunTimes(h)) + [RunStart(j), RunEnd(j, x.time)]
  {
    assert (h + [x])[..|h|] == h;
    if x.Ran? {
      var times := RunTimes(h + [x]);
      assert times[..|times| - 1] == RunTimes(h);
    }
  }

  /** Despite the j-- of a skipped iteration, the run rows are numbered 1..j without gap or repetition,
      each start is followed by its own end, and the times are those of the runs, in order. */
  lemma {:induction false} RunsAreNumberedInOrder(c: Config, obs: seq<Obs>, ss: seq<State>, n: nat)
    requires IsRun(c, obs, ss) && n <= |obs|
    ensures RunRows(ss[n].log) == Numbered(RunTimes(ss[n].history))
    ensures ss[n].j == |RunTimes(ss[n].history)|
  {
    if n > 0 {
      RunsAreNumberedInOrder(c, obs, ss, n - 1);
      assert StepAt(c, obs, ss, n - 1);
      NumberingStep(c, ss[n - 1], obs[n - 1], ss[n]);
    }
  }

  lemma NumberingStep(c: Config, s: State, o: Obs, u: State)
    requires Step(c, s, o, u)
    requires RunRows(s.log) == Numbered(RunTimes(s.history)) && s.j == |RunTimes(s.history)|
    ensures RunRows(u.log) == Numbered(RunTimes(u.history)) && u.j == |RunTimes(u.history)|
  {
    StepOnLog(c, s, o, u);
    RunTimesExtended(s.history, u.history[|s.history|]);
  }

  lemma {:induction false} FirstRowStays(c: Config, obs: seq<Obs>, ss: seq<State>, n: nat)
    requires IsRun(c, obs, ss) && 1 <= n <= |obs|
    ensures |ss[n].log| > 0 && ss[n].log[0] == TestStart && ss[n].j >= ss[1].j >= 0
  {
    assert StepAt(c, obs, ss, n - 1);
    StepOnLog(c, ss[n - 1], obs[n - 1], ss[n]);
    if n > 1 {
      FirstRowStays(c, obs, ss, n - 1);
    }
  }

  lemma {:induction false} StartsSinceFirst(c: Config, obs: seq<Obs>, ss: seq<State>, n: nat)
    requires IsRun(c, obs, ss) && 1 <= n <= |obs|
    ensures ss[1].j > 0 ==> TestStarts(ss[n].log) == 1
    ensures ss[1].j == 0 ==> TestStarts(ss[n].log) >= if n == 1 then 1 else 2
  {
    assert StepAt(c, obs, ss, n - 1);
    StepOnLog(c, ss[n - 1], obs[n - 1], ss[n]);
    if n > 1 {
      StartsSinceFirst(c, obs, ss, n - 1);
      FirstRowStays(c, obs, ss, n - 1);
    }
  }

  /** The test-start row comes first.  It is logged exactly once unless the very first explanation is
      empty and the loop goes on after it, as MAX_SKIPPED_TESTS above 1 makes it do: then the first
      iteration is skipped and the second one takes itself for the first again. */
  lemma TestStartIsLoggedOnceIff(c: Config, obs: seq<Obs>, ss: seq<State>)
    requires IsRun(c, obs, ss) && |obs| >= 1
    ensures |ss[|obs|].log| > 0 && ss[|obs|].log[0] == TestStart
    ensures TestStarts(ss[|obs|].log) == 1 <==> |obs| == 1 || !c.Skips() || obs[0].explanation != []
    ensures ss[|obs|].noMoreTests ==>
              (TestStarts(ss[|obs|].log) == 1 <==> c.maxSkipped <= 1 || !c.Skips() || obs[0].explanation != [])
  {
    FirstRowStays(c, obs, ss, |obs|);
    StartsSinceFirst(c, obs, ss, |obs|);
    RowEstimatesAreIgnored(obs[0].explanation, obs[0].explanation);
    assert StepAt(c, obs, ss, 0);
    assert |obs| > 1 ==> StepAt(c, obs, ss, 1);
  }

  // ----- Warm-up runs

  lemma {:induction false} WarmupRowsAt(times: seq<Time>, w: nat)
    requires w < |times|
    ensures |WarmupRows(times)| == 2 * |times|
    ensures WarmupRows(times)[2 * w] == WarmupStart(w) && WarmupRows(times)[2 * w + 1] == WarmupEnd(w, times[w])
  {
    var init := times[..|times| - 1];
    if init == [] {
      assert WarmupRows(init) == [];
    } else {
      WarmupRowsAt(init, if w < |init| then w else 0);
    }
  }

  /** The last rows of the log: the start and the end of run j and before them those of its warm-up runs, in
      order and numbered from 0. */
  ghost predicate EndsWithRun(log: seq<Row>, j: int, warmed: seq<Time>, time: Time)
  {
    var n := |log| - 2;
    && n >= 2 * |warmed| && log[n] == RunStart(j) && log[n + 1] == RunEnd(j, time)
    && forall w :: 0 <= w < |warmed| ==> PairAt(log, n - 2 * |warmed| + 2 * w, w, warmed[w])
  }

  predicate PairAt(log: seq<Row>, i: int, w: int, time: Time)
  {
    0 <= i < |log| - 1 && log[i] == WarmupStart(w) && log[i + 1] == WarmupEnd(w, time)
  }

  lemma RunEndsLog(log: seq<Row>, j: int, warmed: seq<Time>, time: Time)
    ensures EndsWithRun(log + WarmupRows(warmed) + [RunStart(j), RunEnd(j, time)], j, warmed, time)
  {
    var rows, all := WarmupRows(warmed), log + WarmupRows(warmed) + [RunStart(j), RunEnd(j, time)];
    if warmed != [] {
      WarmupRowsAt(warmed, 0);
    }
    forall w | 0 <= w < |warmed| ensures PairAt(all, |log| + 2 * w, w, warmed[w]) {
      WarmupRowsAt(warmed, w);
      assert all[|log| + 2 * w] == rows[2 * w] && all[|log| + 2 * w + 1] == rows[2 * w + 1];
    }
  }

  lemma {:induction false} WarmedUpIff(c: Config, obs: seq<Obs>, ss: seq<State>, n: nat)
    requires IsRun(c, obs, ss) && n <= |obs|
    ensures c.atOnce ==> ss[n].warmedUp == (c.warmup && n > 0)
  {
    if n > 0 {
      WarmedUpIff(c, obs, ss, n - 1);
      assert StepAt(c, obs, ss, n - 1);
    }
  }

  /** A run is preceded by the warm-up runs it observed exactly when WARMUP is set, with QUERIES_AT_ONCE only
      before the first; log and history say so in the order in which it happened. */
  lemma WarmupsComeFirst(c: Config, obs: seq<Obs>, ss: seq<State>, n: nat)
    requires IsRun(c, obs, ss) && 1 <= n <= |obs|
    ensures ss[n].history != []
    ensures var x := ss[n].history[|ss[n].history| - 1];
            x.Ran? ==>
              && x.warmed == (if c.warmup && (!c.atOnce || n == 1) then obs[n - 1].warmups else [])
              && EndsWithRun(ss[n].log, ss[n].j, x.warmed, obs[n - 1].elapsed)
  {
    assert StepAt(c, obs, ss, n - 1);
    WarmedUpIff(c, obs, ss, n - 1);
    var s, u := ss[n - 1], ss[n];
    StepOnLog(c, s, obs[n - 1], u);
    var x := u.history[|s.history|];
    if x.Ran? {
      RunEndsLog(s.log + TestStartRow(u.j), u.j, x.warmed, x.time);
    }
  }

  /** Only plan analysis without QUERIES_AT_ONCE skips, and nothing but plan analysis tells plans apart. */
  lemma {:induction false} WhereNothingIsSkipped(c: Config, obs: seq<Obs>, ss: seq<State>, n: nat)
    requires IsRun(c, obs, ss) && n <= |obs|
    ensures !(c.explain && c.analyze && !c.atOnce) ==> forall x :: x in ss[n].history ==> x.Ran?
    ensures !(c.explain && c.analyze) ==> forall x :: x in ss[n].history ==> x.plan == NO_EXPLAIN
  {
    if n > 0 {
      WhereNothingIsSkipped(c, obs, ss, n - 1);
      assert StepAt(c, obs, ss, n - 1);
      var s, u := ss[n - 1], ss[n];
      assert u.history == s.history + [u.history[|s.history|]];
    }
  }
}

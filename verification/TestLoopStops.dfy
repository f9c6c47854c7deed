/** When the per-query loop of dbt3_benchmark/launcher.pl stops and when it goes on, said of the settings, the
    clock and the history alone and in whole numbers. */
module TestLoopStops {
  import opened PlanTable
  import opened TestLoop
  import opened TestLoopProperties
  import opened TestLoopLog

  function SkipCount(h: seq<Outcome>): nat
  {
    if h == [] then 0 else SkipCount(h[..|h| - 1]) + if h[|h| - 1].Skipped? then 1 else 0
  }

  predicate NoTimeout(times: seq<Time>)
  {
    times != [] && forall k :: 0 <= k < |times| ==> times[k] != -1
  }

  /** The runs of a plan that can be best. */
  predicate Qualifies(times: seq<Time>)
  {
    NoTimeout(times) && Sum(times) < 10000000 * |times|
  }

  /** No plan without a timeout has a smaller mean than p. */
  ghost predicate HasLeastMean(h: seq<Outcome>, p: Plan)
  {
    var xs := TimesOf(h, p);
    Qualifies(xs) && forall q :: NoTimeout(TimesOf(h, q)) ==> Sum(xs) * |TimesOf(h, q)| <= Sum(TimesOf(h, q)) * |xs|
  }

  /** With NUM_TESTS 0 and time left, the loop stops at a best plan with enough runs whose mean is not 0.  The
      hash order may choose among several best plans.  Without any the cluster size decides. */
  ghost predicate ClusterLaw(c: Config, h: seq<Outcome>, stopped: bool)
  {
    if forall p :: !Qualifies(TimesOf(h, p)) then stopped <==> c.clusterSize <= 0
    else exists p :: HasLeastMean(h, p) && (stopped <==> |TimesOf(h, p)| >= c.clusterSize && Sum(TimesOf(h, p)) != 0)
  }

  /** What has to hold after an iteration that leaves the history h, its last run ending at `clock`. */
  ghost predicate StopLaw(c: Config, clock: nat, h: seq<Outcome>, stopped: bool)
    requires h != []
  {
    if h[|h| - 1].Skipped? then
      stopped <==> SkipCount(h) >= c.maxSkipped
    else if !c.analyze then
      stopped <==> (c.minMax || c.simpleAverage) && |RunTimes(h)| >= c.numTests
    else if c.numTests >= 1 then
      stopped <==> |RunTimes(h)| >= c.numTests || (c.maxQueryTime != 0 && clock > c.maxQueryTime - c.timeout)
    else if c.maxQueryTime != 0 && clock > c.maxQueryTime - c.timeout then
      stopped
    else
      ClusterLaw(c, h, stopped)
  }

  lemma CountersOfStep(c: Config, s: State, o: Obs, u: State)
    requires Step(c, s, o, u) && s.j == |RunTimes(s.history)| && s.skipped == SkipCount(s.history)
    ensures u.j == |RunTimes(u.history)| && u.skipped == SkipCount(u.history) && |u.history| == |s.history| + 1
    ensures u.history[..|s.history|] == s.history
  {
    var x := u.history[|s.history|];
    assert u.history == s.history + [x];
    RunTimesExtended(s.history, x);
  }

  lemma QualifiesIff(times: seq<Time>)
    ensures Clean(times) <==> NoTimeout(times)
    ensures Eligible(times) <==> Qualifies(times)
  {
    EligibleIff(times);
  }

  lemma BestHasLeastMean(s: State, p: Plan)
    requires Grouped(s) && IsBest(s.table, p)
    ensures HasLeastMean(s.history, p) && s.table[p] == TimesOf(s.history, p)
  {
    var h := s.history;
    QualifiesIff(TimesOf(h, p));
    forall q | NoTimeout(TimesOf(h, q)) ensures Sum(TimesOf(h, p)) * |TimesOf(h, q)| <= Sum(TimesOf(h, q)) * |TimesOf(h, p)| {
      QualifiesIff(TimesOf(h, q));
      if !Seen(h, q) {
        UnseenHasNoTimes(h, q);
      } else {
        assert q in s.table;
        MeansCompare(TimesOf(h, p), TimesOf(h, q));
      }
    }
  }

  lemma ClusterLawHolds(c: Config, s: State, r: real)
    requires Grouped(s) && ClusterResult(s.table, c.clusterSize, false, r)
    ensures ClusterLaw(c, s.history, r != 0.0)
  {
    var t, h := s.table, s.history;
    forall p ensures Qualifies(TimesOf(h, p)) <==> p in t && Eligible(t[p]) {
      QualifiesIff(TimesOf(h, p));
      if !Seen(h, p) {
        UnseenHasNoTimes(h, p);
      }
    }
    if !NoneEligible(t) {
      var p :| IsBest(t, p) && r == if |t[p]| >= c.clusterSize then Mean(t[p]) else 0.0;
      BestHasLeastMean(s, p);
      ZeroMean(t[p]);
    }
  }

  lemma StepStops(c: Config, s: State, o: Obs, u: State)
    requires Step(c, s, o, u) && Grouped(u) && |u.history| == |s.history| + 1
    requires u.j == |RunTimes(u.history)| && u.skipped == SkipCount(u.history)
    ensures StopLaw(c, o.clock, u.history, u.noMoreTests)
  {
    if RunStep(c, s, o, u) && c.analyze && c.numTests == 0 && !OutOfTime(c, o.clock) {
      ClusterLawHolds(c, u, u.best.value);
    }
  }

  lemma {:induction false} CountersAgree(c: Config, obs: seq<Obs>, ss: seq<State>, n: nat)
    requires IsRun(c, obs, ss) && n <= |obs|
    ensures ss[n].j == |RunTimes(ss[n].history)| && ss[n].skipped == SkipCount(ss[n].history) && |ss[n].history| == n
  {
    if n > 0 {
      CountersAgree(c, obs, ss, n - 1);
      assert StepAt(c, obs, ss, n - 1);
      CountersOfStep(c, ss[n - 1], obs[n - 1], ss[n]);
    }
  }

  lemma {:induction false} HistoryGrows(c: Config, obs: seq<Obs>, ss: seq<State>, m: nat, n: nat)
    requires IsRun(c, obs, ss) && m <= n <= |obs|
    ensures |ss[n].history| == n && ss[n].history[..m] == ss[m].history
    decreases n
  {
    CountersAgree(c, obs, ss, n);
    CountersAgree(c, obs, ss, m);
    if m < n {
      HistoryGrows(c, obs, ss, m, n - 1);
      CountersAgree(c, obs, ss, n - 1);
      assert StepAt(c, obs, ss, n - 1);
      CountersOfStep(c, ss[n - 1], obs[n - 1], ss[n]);
      assert ss[n].history[..m] == ss[n].history[..n - 1][..m];
    }
  }

  /** Over every run: after each of its iterations the law says whether it stops. */
  lemma StopsIff(c: Config, obs: seq<Obs>, ss: seq<State>, n: nat)
    requires IsRun(c, obs, ss) && 1 <= n <= |obs|
    ensures |ss[n].history| == n && StopLaw(c, obs[n - 1].clock, ss[n].history, ss[n].noMoreTests)
    ensures n < |obs| ==> !ss[n].noMoreTests
  {
    assert StepAt(c, obs, ss, n - 1);
    CountersAgree(c, obs, ss, n - 1);
    CountersAgree(c, obs, ss, n);
    TableGroupsHistory(c, obs, ss, n);
    StepStops(c, ss[n - 1], obs[n - 1], ss[n]);
    assert n < |obs| ==> StepAt(c, obs, ss, n);
  }

  /** The history h of a loop that observed obs: it went on as long as the law says so, and has stopped or has
      nothing more to observe. */
  ghost predicate StoppedWhenDue(c: Config, obs: seq<Obs>, h: seq<Outcome>, stopped: bool)
  {
    && |h| <= |obs| && (stopped || |h| == |obs|)
    && (forall i :: 1 <= i < |h| ==> StopLaw(c, obs[i - 1].clock, h[..i], false))
    && (if h == [] then !stopped else StopLaw(c, obs[|h| - 1].clock, h, stopped))
  }

  lemma StopsWhenDue(c: Config, obs: seq<Obs>, n: nat, ss: seq<State>)
    requires n <= |obs| && IsRun(c, obs[..n], ss) && (ss[n].noMoreTests || n == |obs|)
    ensures StoppedWhenDue(c, obs, ss[n].history, ss[n].noMoreTests)
  {
    var seen, h := obs[..n], ss[n].history;
    CountersAgree(c, seen, ss, n);
    forall i | 1 <= i < n ensures StopLaw(c, obs[i - 1].clock, h[..i], false) {
      StopsIff(c, seen, ss, i);
      HistoryGrows(c, seen, ss, i, n);
    }
    if n > 0 {
      StopsIff(c, seen, ss, n);
    }
  }
}

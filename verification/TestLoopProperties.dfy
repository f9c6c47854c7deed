/** Properties of every run of the per-query loop of dbt3_benchmark/launcher.pl, stated on the history
    of runs and skips, on the rows logged and on the number of iterations. */
module TestLoopProperties {
  import opened PlanTable
  import opened TestLoop

  // ----- The plan table is the history, grouped by plan

  /** The times of the runs of one plan, oldest first. */
  function TimesOf(h: seq<Outcome>, p: Plan): seq<Time>
  {
    if h == [] then []
    else TimesOf(h[..|h| - 1], p)
         + (var x := h[|h| - 1]; if x.Ran? && x.plan == p then [x.time] else [])
  }

  ghost predicate Seen(h: seq<Outcome>, p: Plan)
  {
    exists k :: 0 <= k < |h| && h[k].plan == p
  }

  ghost predicate Grouped(s: State)
  {
    && (forall p :: p in s.table <==> Seen(s.history, p))
    && (forall p :: p in s.table ==> s.table[p] == TimesOf(s.history, p))
  }

  lemma SeenExtended(h: seq<Outcome>, x: Outcome, p: Plan)
    ensures Seen(h + [x], p) <==> Seen(h, p) || x.plan == p
    ensures TimesOf(h + [x], p) == TimesOf(h, p) + if x.Ran? && x.plan == p then [x.time] else []
  {
    assert (h + [x])[..|h|] == h;
    if Seen(h, p) {
      var k :| 0 <= k < |h| && h[k].plan == p;
      assert (h + [x])[k].plan == p;
    }
    if x.plan == p {
      assert (h + [x])[|h|].plan == p;
    }
  }

  lemma {:induction false} UnseenHasNoTimes(h: seq<Outcome>, p: Plan)
    requires !Seen(h, p)
    ensures TimesOf(h, p) == []
  {
    if h != [] {
      var i := h[..|h| - 1];
      assert h == i + [h[|h| - 1]];
      SeenExtended(i, h[|h| - 1], p);
      UnseenHasNoTimes(i, p);
    }
  }

  /** What a step does to the list of each plan. */
  lemma StepOnTable(c: Config, s: State, o: Obs, u: State)
    requires Step(c, s, o, u)
    ensures |u.history| == |s.history| + 1 && u.history == s.history + [u.history[|s.history|]]
    ensures forall p :: p in u.table <==> p in s.table || p == u.history[|s.history|].plan
    ensures var x := u.history[|s.history|];
            forall p :: p in u.table ==>
              u.table[p] == (if p in s.table then s.table[p] else []) + (if x.Ran? && x.plan == p then [x.time] else [])
  {
    var plan := PlanKey(o.explanation);
    if SkipStep(c, s, o, u) {
      assert u.history[|s.history|] == Skipped(plan);
    } else if c.Analyzes() {
      var did := u.history[|s.history|];
      assert plan in s.table || did.plan == plan;
    }
  }

  lemma StepKeepsGrouped(c: Config, s: State, o: Obs, u: State)
    requires Grouped(s) && Step(c, s, o, u)
    ensures Grouped(u)
  {
    StepOnTable(c, s, o, u);
    var x := u.history[|s.history|];
    forall p
      ensures p in u.table <==> Seen(u.history, p)
      ensures p in u.table ==> u.table[p] == TimesOf(u.history, p)
    {
      SeenExtended(s.history, x, p);
      if !Seen(s.history, p) {
        UnseenHasNoTimes(s.history, p);
      }
    }
  }

  lemma {:induction false} TableGroupsHistory(c: Config, obs: seq<Obs>, ss: seq<State>, i: nat)
    requires IsRun(c, obs, ss) && i <= |obs|
    ensures Grouped(ss[i])
  {
    if i > 0 {
      TableGroupsHistory(c, obs, ss, i - 1);
      assert StepAt(c, obs, ss, i - 1);
      StepKeepsGrouped(c, ss[i - 1], obs[i - 1], ss[i]);
    }
  }

  // ----- Plans are chosen greedily

  /** After the history h, may the plan p be run?  Said without the plan table: when it is new, or when it
      has never timed out and no other such plan has a smaller mean. */
  ghost predicate Accepted(h: seq<Outcome>, p: Plan)
  {
    var xs := TimesOf(h, p);
    !Seen(h, p) || (Eligible(xs) && forall q :: Clean(TimesOf(h, q)) ==> Mean(xs) <= Mean(TimesOf(h, q)))
  }

  /** May it be turned down?  Only when it was seen before and does not beat every other plan. */
  ghost predicate Rejected(h: seq<Outcome>, p: Plan)
  {
    var xs := TimesOf(h, p);
    p == "" || (Seen(h, p) && (!Eligible(xs) || exists q :: q != p && Eligible(TimesOf(h, q)) && Mean(TimesOf(h, q)) <= Mean(xs)))
  }

  ghost predicate Greedy(h: seq<Outcome>, x: Outcome)
  {
    if x.Ran? then Accepted(h, x.plan) else Rejected(h, x.plan)
  }

  lemma AcceptedIsBest(s: State, p: Plan)
    requires Grouped(s) && p != "" && Answers(s.table, p, p)
    ensures Accepted(s.history, p)
  {
    var h := s.history;
    if Seen(h, p) {
      forall q | Clean(TimesOf(h, q)) ensures Mean(TimesOf(h, p)) <= Mean(TimesOf(h, q)) {
        if !Seen(h, q) {
          UnseenHasNoTimes(h, q);
        } else {
          assert q in s.table;
        }
      }
    }
  }

  lemma RejectedIsNotBest(s: State, p: Plan)
    requires Grouped(s) && Answers(s.table, p, "")
    ensures Rejected(s.history, p)
  {
    var h := s.history;
    if p != "" && Eligible(TimesOf(h, p)) {
      assert p in s.table && s.table[p] == TimesOf(h, p);
      if !IsBest(s.table, p) {
        var q :| q in s.table && Clean(s.table[q]) && Mean(s.table[q]) < Mean(s.table[p]);
        assert q != p && Eligible(TimesOf(h, q));
      } else {
        var q :| q != p && IsBest(s.table, q);
        assert Eligible(TimesOf(h, q));
      }
    }
  }

  lemma StepIsGreedy(c: Config, s: State, o: Obs, u: State)
    requires c.Skips() && Grouped(s) && Step(c, s, o, u)
    ensures |u.history| == |s.history| + 1 && u.history[..|s.history|] == s.history
    ensures Greedy(s.history, u.history[|s.history|])
  {
    var x := u.history[|s.history|];
    if x.Ran? {
      AcceptedIsBest(s, x.plan);
    } else {
      RejectedIsNotBest(s, x.plan);
    }
  }

  /** Every entry was a greedy choice at its moment. */
  ghost predicate AllGreedy(h: seq<Outcome>)
  {
    forall i :: 0 <= i < |h| ==> Greedy(h[..i], h[i])
  }

  /** One entry for each iteration, about the plan and the time it observed. */
  predicate Recorded(h: seq<Outcome>, obs: seq<Obs>)
  {
    && |h| == |obs|
    && forall i :: 0 <= i < |h| ==>
         h[i].plan == PlanKey(obs[i].explanation) && (h[i].Ran? ==> h[i].time == obs[i].elapsed)
  }

  lemma AllGreedyExtended(h: seq<Outcome>, x: Outcome)
    requires AllGreedy(h) && Greedy(h, x)
    ensures AllGreedy(h + [x])
  {
    var u := h + [x];
    forall i | 0 <= i < |u| ensures Greedy(u[..i], u[i]) {
      if i < |h| {
        assert u[..i] == h[..i] && u[i] == h[i];
      } else {
        assert u[..i] == h;
      }
    }
  }

  lemma StepIsRecorded(c: Config, s: State, obs: seq<Obs>, o: Obs, u: State)
    requires c.Skips() && Step(c, s, o, u) && Recorded(s.history, obs)
    ensures Recorded(u.history, obs + [o])
  {
    var x := u.history[|s.history|];
    assert u.history == s.history + [x];
  }

  lemma ChoiceStep(c: Config, s: State, obs: seq<Obs>, o: Obs, u: State)
    requires c.Skips() && Grouped(s) && Step(c, s, o, u)
    requires Recorded(s.history, obs) && AllGreedy(s.history)
    ensures Recorded(u.history, obs + [o]) && AllGreedy(u.history)
  {
    StepIsGreedy(c, s, o, u);
    StepIsRecorded(c, s, obs, o, u);
    assert s.history + [u.history[|s.history|]] == u.history;
    AllGreedyExtended(s.history, u.history[|s.history|]);
  }

  /** Over a whole run: the history records every iteration, and every entry was a greedy choice. */
  lemma {:induction false} EveryChoiceIsGreedy(c: Config, obs: seq<Obs>, ss: seq<State>, n: nat)
    requires c.Skips() && IsRun(c, obs, ss) && n <= |obs|
    ensures Recorded(ss[n].history, obs[..n]) && AllGreedy(ss[n].history)
  {
    if n > 0 {
      EveryChoiceIsGreedy(c, obs, ss, n - 1);
      TableGroupsHistory(c, obs, ss, n - 1);
      assert StepAt(c, obs, ss, n - 1);
      ChoiceStep(c, ss[n - 1], obs[..n - 1], obs[n - 1], ss[n]);
      assert obs[..n - 1] + [obs[n - 1]] == obs[..n];
    }
  }

  /** With QUERIES_AT_ONCE nothing is skipped: a plan that is turned down is run under the empty key. */
  ghost predicate GreedyAtOnce(h: seq<Outcome>, o: Obs, x: Outcome)
  {
    && x.Ran? && x.time == o.elapsed
    && var p := PlanKey(o.explanation);
       (x.plan == p && Accepted(h, p)) || (x.plan == "" && Rejected(h, p))
  }

  ghost predicate AllGreedyAtOnce(h: seq<Outcome>, obs: seq<Obs>)
  {
    |h| == |obs| && forall i :: 0 <= i < |h| ==> GreedyAtOnce(h[..i], obs[i], h[i])
  }

  lemma StepIsGreedyAtOnce(c: Config, s: State, o: Obs, u: State)
    requires c.Analyzes() && c.atOnce && Grouped(s) && Step(c, s, o, u)
    ensures |u.history| == |s.history| + 1 && u.history == s.history + [u.history[|s.history|]]
    ensures GreedyAtOnce(s.history, o, u.history[|s.history|])
  {
    var p, x := PlanKey(o.explanation), u.history[|s.history|];
    if x.plan == p && p != "" {
      AcceptedIsBest(s, p);
    } else {
      RejectedIsNotBest(s, p);
    }
  }

  lemma AllGreedyAtOnceExtended(h: seq<Outcome>, obs: seq<Obs>, o: Obs, x: Outcome)
    requires AllGreedyAtOnce(h, obs) && GreedyAtOnce(h, o, x)
    ensures AllGreedyAtOnce(h + [x], obs + [o])
  {
    var u, seen := h + [x], obs + [o];
    forall i | 0 <= i < |u| ensures GreedyAtOnce(u[..i], seen[i], u[i]) {
      if i < |h| {
        assert u[..i] == h[..i] && u[i] == h[i];
      } else {
        assert u[..i] == h;
      }
    }
  }

  lemma {:induction false} EveryChoiceAtOnceIsGreedy(c: Config, obs: seq<Obs>, ss: seq<State>, n: nat)
    requires c.Analyzes() && c.atOnce && IsRun(c, obs, ss) && n <= |obs|
    ensures AllGreedyAtOnce(ss[n].history, obs[..n])
  {
    if n > 0 {
      EveryChoiceAtOnceIsGreedy(c, obs, ss, n - 1);
      TableGroupsHistory(c, obs, ss, n - 1);
      assert StepAt(c, obs, ss, n - 1);
      StepIsGreedyAtOnce(c, ss[n - 1], obs[n - 1], ss[n]);
      AllGreedyAtOnceExtended(ss[n - 1].history, obs[..n - 1], obs[n - 1], ss[n].history[n - 1]);
      assert obs[..n - 1] + [obs[n - 1]] == obs[..n];
    }
  }

  lemma {:induction false} TimesContain(h: seq<Outcome>, i: nat)
    requires i < |h| && h[i].Ran?
    ensures h[i].time in TimesOf(h, h[i].plan)
  {
    if i < |h| - 1 {
      TimesContain(h[..|h| - 1], i);
    }
  }

  /** A plan that has timed out once is never run again. */
  lemma NoRunAfterTimeout(c: Config, obs: seq<Obs>, ss: seq<State>)
    requires c.Skips() && IsRun(c, obs, ss)
    ensures var h := ss[|obs|].history;
            forall i, k :: 0 <= i < k < |h| && h[i].Ran? && h[i].time == TIMED_OUT && h[k].plan == h[i].plan
                           ==> h[k].Skipped?
  {
    var h := ss[|obs|].history;
    EveryChoiceIsGreedy(c, obs, ss, |obs|);
    forall i, k | 0 <= i < k < |h| && h[i].Ran? && h[i].time == TIMED_OUT && h[k].plan == h[i].plan
      ensures h[k].Skipped?
    {
      assert Greedy(h[..k], h[k]);
      assert h[..k][i] == h[i];
      TimesContain(h[..k], i);
    }
  }

  /** At the head of the loop the list of every plan with a nonempty text is nonempty, and a timeout is
      its last entry; skipping a plan already in the table leaves the table alone. */
  ghost predicate TidyTable(t: Table)
  {
    forall p :: p in t && p != "" ==> t[p] != [] && TIMED_OUT !in t[p][..|t[p]| - 1]
  }

  lemma StepKeepsTidy(c: Config, s: State, o: Obs, u: State)
    requires c.Skips() && TidyTable(s.table) && Step(c, s, o, u)
    ensures TidyTable(u.table)
    ensures u.history == s.history + [Skipped(PlanKey(o.explanation))] && PlanKey(o.explanation) in s.table
            ==> u.table == s.table
  {
    forall p | p in u.table && p != "" ensures u.table[p] != [] && TIMED_OUT !in u.table[p][..|u.table[p]| - 1] {
      if p !in s.table || u.table[p] != s.table[p] {
        var before := if p in s.table then s.table[p] else [];
        assert u.table[p] == before + [o.elapsed];
        assert u.table[p][..|u.table[p]| - 1] == before;
      }
    }
  }

  lemma {:induction false} TableStaysTidy(c: Config, obs: seq<Obs>, ss: seq<State>, i: nat)
    requires c.Skips() && IsRun(c, obs, ss) && i <= |obs|
    ensures TidyTable(ss[i].table)
  {
    if i > 0 {
      TableStaysTidy(c, obs, ss, i - 1);
      assert StepAt(c, obs, ss, i - 1);
      StepKeepsTidy(c, ss[i - 1], obs[i - 1], ss[i]);
    }
  }
}

/** The results of the two modes of dbt3_benchmark/launcher.pl that do not look at plans.  There all runs
    are listed under one key, so that GetMinMax and GetSimpleAverage go through a single list. */
module RunSummaries {
  import opened PlanTable
  import opened TestLoop
  import opened TestLoopLog

  /** Without plan analysis the table has no other list than that of all runs, in order. */
  lemma {:induction false} OneListOnly(c: Config, obs: seq<Obs>, ss: seq<State>, n: nat)
    requires !c.Analyzes() && IsRun(c, obs, ss) && n <= |obs|
    ensures ss[n].table == if n == 0 then map[] else map[NO_EXPLAIN := RunTimes(ss[n].history)]
    ensures n > 0 ==> ss[n].history != []
  {
    if n > 0 {
      OneListOnly(c, obs, ss, n - 1);
      assert StepAt(c, obs, ss, n - 1);
      ListGrows(c, ss[n - 1], obs[n - 1], ss[n]);
    }
  }

  lemma ListGrows(c: Config, s: State, o: Obs, u: State)
    requires !c.Analyzes() && Step(c, s, o, u)
    ensures RunTimes(u.history) == RunTimes(s.history) + [o.elapsed] && u.history != []
    ensures u.table == Pushed(s.table, NO_EXPLAIN, o.elapsed)
  {
    var did := u.history[|s.history|];
    assert u.history == s.history + [did];
    RunTimesExtended(s.history, did);
  }

  predicate Greatest(times: seq<Time>, max: int)
  {
    max >= 0 && (max > 0 ==> exists k :: 0 <= k < |times| && times[k] == max)
    && forall k :: 0 <= k < |times| ==> times[k] <= max
  }

  predicate Least(times: seq<Time>, min: int)
  {
    min >= 0 && (exists k :: 0 <= k < |times| && times[k] == min)
    && forall k :: 0 <= k < |times| && times[k] >= 0 ==> min <= times[k]
  }

  predicate AllZero(times: seq<Time>)
  {
    forall k :: 0 <= k < |times| ==> times[k] == 0
  }

  /** A timeout comes before every positive time. */
  predicate TimeoutFirst(times: seq<Time>)
  {
    exists k :: 0 <= k < |times| && TimeoutAfterZeros(times, k)
  }

  predicate TimeoutAfterZeros(times: seq<Time>, k: int)
    requires 0 <= k < |times|
  {
    times[k] == TIMED_OUT && AllZero(times[..k])
  }

  predicate NoTimes(times: seq<Time>)
  {
    forall k :: 0 <= k < |times| ==> times[k] == TIMED_OUT
  }

  /** The value GetMinMax starts from, as if no query could take as long. */
  const UNSET := 10000000

  predicate HasShort(times: seq<Time>)
  {
    exists k :: 0 <= k < |times| && 0 <= times[k] < UNSET
  }

  /** The minimum when every time is as long as the starting value or longer.  A time equal to it makes the
      loop start over; b is where it did so last.  From there long times are passed over up to the first
      timeout, f; then the least time counts, or -1 while there is none. */
  predicate LongMinimum(times: seq<Time>, b: int, f: int, min: int)
  {
    && 0 <= b <= f <= |times|
    && (b > 0 ==> times[b - 1] == UNSET)
    && (forall k :: b <= k < |times| ==> times[k] != UNSET)
    && (forall k :: b <= k < f ==> times[k] != TIMED_OUT)
    && (f < |times| ==> times[f] == TIMED_OUT)
    && if f == |times| then min == UNSET
       else if NoTimes(times[f..]) then min == TIMED_OUT
       else Least(times[f..], min)
  }

  /** The reported minimum of any list: the least time as soon as one is shorter than the starting value. */
  ghost predicate Minimum(times: seq<Time>, min: int)
  {
    if HasShort(times) then Least(times, min) else exists b, f :: LongMinimum(times, b, f, min)
  }

  /** The two values GetMinMax reports: the minimum, and the maximum, which is right exactly when no timeout
      comes before the first positive time, and is -1 for good otherwise. */
  ghost predicate MinMax(times: seq<Time>, min: int, max: int)
  {
    Minimum(times, min) && if TimeoutFirst(times) then max == TIMED_OUT else Greatest(times, max)
  }

  method GetMinMax(times: seq<Time>) returns (min: int, max: int)
    ensures Minimum(times, min)
    ensures if TimeoutFirst(times) then max == TIMED_OUT else Greatest(times, max)
    ensures MinMax(times, min, max)
  {
    min, max := UNSET, 0;
    var n := 0;
    assert LongMinimum(times[..n], 0, 0, min);
    while n < |times|
      invariant 0 <= n <= |times|
      invariant Minimum(times[..n], min)
      invariant if TimeoutFirst(times[..n]) then max == TIMED_OUT else Greatest(times[..n], max)
      invariant max == 0 ==> AllZero(times[..n])
    {
      var tmp := times[n];
      OneMoreTime(times[..n], tmp);
      assert times[..n + 1] == times[..n] + [tmp];
      BoundsSoFar(times[..n], tmp);
      MinimumNext(times[..n], min, tmp);
      if tmp == TIMED_OUT {
        if min == UNSET {
          min := tmp;
        }
        if max == 0 {
          max := tmp;
        }
      } else {
        if tmp < min || min == -1 {
          min := tmp;
        }
        if tmp > max && max != -1 {
          max := tmp;
        }
      }
      n := n + 1;
    }
    assert times[..n] == times;
  }

  /** The least time is reported as soon as one is below 10000000; that time alone is taken for no time. */
  lemma ShortMinimum(times: seq<Time>, min: int)
    requires Minimum(times, min)
    ensures (exists k :: 0 <= k < |times| && 0 <= times[k] < 10000000) ==> Least(times, min)
    ensures times == [10000000, -1] ==> min == -1
  {
    if times == [10000000, -1] {
      assert !HasShort(times);
      var b, f :| LongMinimum(times, b, f, min);
      assert times[0] == UNSET;
      assert times[1] == TIMED_OUT;
    }
  }

  function NextMin(min: int, t: Time): int
  {
    if t == TIMED_OUT then if min == UNSET then t else min
    else if t < min || min == -1 then t else min
  }

  lemma MinimumNext(times: seq<Time>, min: int, t: Time)
    requires Minimum(times, min)
    ensures Minimum(times + [t], NextMin(min, t))
  {
    var all := times + [t];
    assert all[|times|] == t;
    BoundsSoFar(times, t);
    if HasShort(times) {
      var k :| 0 <= k < |times| && 0 <= times[k] < UNSET;
      assert all[k] == times[k];
    } else {
      assert forall k :: 0 <= k < |times| ==> all[k] == times[k];
      var b, f :| LongMinimum(times, b, f, min);
      LongIsLong(times, b, f, min);
      if 0 <= t < UNSET {
        assert Least(all, t);
      } else {
        LongMinimumNext(times, b, f, min, t);
      }
    }
  }

  lemma LongIsLong(times: seq<Time>, b: int, f: int, min: int)
    requires !HasShort(times) && LongMinimum(times, b, f, min)
    ensures if f == |times| then min == UNSET else min == TIMED_OUT || min > UNSET
  {
    if f < |times| && !NoTimes(times[f..]) {
      var k :| 0 <= k < |times| - f && times[f..][k] == min;
      assert times[f + k] == min;
    }
  }

  lemma LongMinimumNext(times: seq<Time>, b: int, f: int, min: int, t: Time)
    requires !HasShort(times) && LongMinimum(times, b, f, min) && (t == TIMED_OUT || t >= UNSET)
    requires if f == |times| then min == UNSET else min == TIMED_OUT || min > UNSET
    ensures exists b', f' :: LongMinimum(times + [t], b', f', NextMin(min, t))
  {
    var all, n := times + [t], |times|;
    if t == UNSET {
      assert LongMinimum(all, n + 1, n + 1, NextMin(min, t));
    } else if f == n {
      if t == TIMED_OUT {
        assert all[n..] == [t];
        assert LongMinimum(all, b, n, NextMin(min, t));
      } else {
        assert LongMinimum(all, b, n + 1, NextMin(min, t));
      }
    } else {
      assert all[f..] == times[f..] + [t];
      BoundsSoFar(times[f..], t);
      OneMoreTime(times[f..], t);
      assert LongMinimum(all, b, f, NextMin(min, t));
    }
  }

  lemma BoundsSoFar(times: seq<Time>, t: Time)
    ensures forall m :: Greatest(times, m) ==> Greatest(times + [t], if t > m then t else m)
    ensures forall m :: Least(times, m) ==> Least(times + [t], if 0 <= t < m then t else m)
    ensures NoTimes(times) && t >= 0 ==> Least(times + [t], t)
  {
    var all := times + [t];
    assert all[|times|] == t;
    forall m | Greatest(times, m) ensures Greatest(all, if t > m then t else m) {
      if m > 0 {
        var k :| 0 <= k < |times| && times[k] == m;
        assert all[k] == m;
      }
    }
    forall m | Least(times, m) ensures Least(all, if 0 <= t < m then t else m) {
      var k :| 0 <= k < |times| && times[k] == m;
      assert all[k] == m;
    }
  }

  lemma OneMoreTime(times: seq<Time>, t: Time)
    ensures NoTimes(times + [t]) <==> NoTimes(times) && t == TIMED_OUT
    ensures AllZero(times + [t]) <==> AllZero(times) && t == 0
    ensures TimeoutFirst(times + [t]) <==> TimeoutFirst(times) || (t == TIMED_OUT && AllZero(times))
  {
    var all, n := times + [t], |times|;
    assert all[..n] == times && all[n] == t;
    assert NoTimes(all) ==> forall k :: 0 <= k < n ==> times[k] == all[k];
    assert AllZero(all) ==> forall k :: 0 <= k < n ==> times[k] == all[k];
    forall k | 0 <= k < n ensures TimeoutAfterZeros(all, k) <==> TimeoutAfterZeros(times, k) {
      assert all[..k] == times[..k];
    }
    assert TimeoutAfterZeros(all, n) <==> t == TIMED_OUT && AllZero(times);
  }

  /** Position k holds the first timeout, or is the end. */
  predicate FirstTimeout(times: seq<Time>, k: int)
  {
    0 <= k <= |times| && TIMED_OUT !in times[..k] && (k < |times| ==> times[k] == TIMED_OUT)
  }

  /** What GetSimpleAverage reports: the mean of the k runs before the first timeout. */
  predicate Average(times: seq<Time>, r: real, k: nat)
  {
    FirstTimeout(times, k) && r == if k == 0 then -1.0 else Mean(times[..k])
  }

  /** A timeout is reported, as -1, only when the very first run timed out; the -1 set at a later one is
      overwritten. */
  method GetSimpleAverage(times: seq<Time>) returns (r: real, ghost k: nat)
    ensures Average(times, r, k)
    ensures r == -1.0 <==> times == [] || times[0] == TIMED_OUT
  {
    r := -1.0;
    var sum, count := 0, 0;
    while count < |times|
      invariant 0 <= count <= |times| && sum == Sum(times[..count]) && TIMED_OUT !in times[..count] && r == -1.0
    {
      var tmp := times[count];
      assert times[..count + 1][..count] == times[..count];
      if tmp == TIMED_OUT {
        break;
      }
      sum := sum + tmp;
      count := count + 1;
    }
    k := count;
    if count > 0 {
      r := sum as real / count as real;
      SumNonNegative(times[..k]);
    }
  }
}

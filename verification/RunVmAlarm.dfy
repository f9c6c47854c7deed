/** The timed loops of buildbot/runvm: waiting for the guest to come up and shutting KVM down, both
    under an alarm whose handler may run at any point.  Time is counted in hundredths of a second; what
    the environment does is a finite schedule, and a loop that reaches its end is left pending. */
module RunVmAlarm {

  const SECOND := 100

  /** The alarm has gone off once `now` hundredths have passed since alarm(seconds); alarm(0) never does. */
  predicate Alarmed(seconds: nat, now: nat)
  {
    seconds > 0 && now >= seconds * SECOND
  }

  /** alarm() together with its handler, which sets $timeout. */
  class AlarmClock {
    const seconds: nat
    var left: nat
    var timeout: bool
    ghost var now: nat

    ghost predicate Valid()
      reads this
    {
      && timeout == Alarmed(seconds, now)
      && (seconds > 0 && !timeout ==> left == seconds * SECOND - now)
    }

    constructor (seconds: nat)
      ensures Valid() && this.seconds == seconds && now == 0
    {
      this.seconds := seconds;
      left, timeout, now := seconds * SECOND, false, 0;
    }

    /** Time passes, in a system call or between two of them. */
    method Pass(hundredths: nat)
      requires Valid()
      modifies this
      ensures Valid() && now == old(now) + hundredths
    {
      now := now + hundredths;
      if seconds > 0 && !timeout {
        if hundredths >= left {
          timeout := true;
        } else {
          left := left - hundredths;
        }
      }
    }
  }

  // ----- wait_for_up

  /** One ssh probe of the guest: how long it took, whether it succeeded, and whether the KVM process
      could still be signalled afterwards. */
  datatype Probe = Probe(pause: nat, ok: bool, alive: bool)

  datatype Wait = Up | TimedOut | Gone | WaitPending

  /** $success_attempts after the first n probes. */
  function Streak(probes: seq<Probe>, n: nat): nat
    requires n <= |probes|
  {
    if n == 0 || !probes[n - 1].ok then 0 else Streak(probes, n - 1) + 1
  }

  /** When the loop tests $timeout for the n-th time. */
  function WaitTime(initialSleep: nat, probes: seq<Probe>, n: nat): nat
    requires n <= |probes|
  {
    if n == 0 then initialSleep * SECOND
    else WaitTime(initialSleep, probes, n - 1) + probes[n - 1].pause + if Streak(probes, n) > 0 then 33 else 200
  }

  /** The loop goes on after probe k. */
  predicate ProbesOn(probes: seq<Probe>, k: nat)
    requires k < |probes|
  {
    Streak(probes, k + 1) < 3 && probes[k].alive
  }

  /** What wait_for_up answers after n probes. */
  ghost predicate WaitSpec(seconds: nat, initialSleep: nat, probes: seq<Probe>, r: Wait, n: nat)
  {
    && n <= |probes|
    && (forall k: nat :: k < n ==> !Alarmed(seconds, WaitTime(initialSleep, probes, k)))
    && (forall k: nat :: k + 1 < n ==> ProbesOn(probes, k))
    && match r
       case Up => n > 0 && Streak(probes, n) >= 3
       case Gone => n > 0 && Streak(probes, n) < 3 && !probes[n - 1].alive
       case TimedOut => Alarmed(seconds, WaitTime(initialSleep, probes, n)) && (n > 0 ==> ProbesOn(probes, n - 1))
       case WaitPending => n == |probes| && !Alarmed(seconds, WaitTime(initialSleep, probes, n))
                           && (n > 0 ==> ProbesOn(probes, n - 1))
  }

  method WaitForUp(seconds: nat, initialSleep: nat, probes: seq<Probe>) returns (r: Wait, n: nat)
    ensures WaitSpec(seconds, initialSleep, probes, r, n)
  {
    var clock := new AlarmClock(seconds);
    clock.Pass(initialSleep * SECOND);
    n := 0;
    var successAttempts := 0;
    while !clock.timeout
      invariant clock.Valid() && clock.seconds == seconds && fresh(clock)
      invariant n <= |probes| && clock.now == WaitTime(initialSleep, probes, n)
      invariant successAttempts == Streak(probes, n)
      invariant forall k: nat :: k < n ==> ProbesOn(probes, k)
      invariant forall k: nat :: k < n ==> !Alarmed(seconds, WaitTime(initialSleep, probes, k))
      decreases |probes| - n
    {
      if n == |probes| {
        return WaitPending, n;
      }
      var probe := probes[n];
      clock.Pass(probe.pause);
      n := n + 1;
      if probe.ok {
        successAttempts := successAttempts + 1;
        if successAttempts >= 3 {
          return Up, n;
        }
      } else {
        successAttempts := 0;
      }
      if !probe.alive {
        return Gone, n;
      }
      clock.Pass(if successAttempts > 0 then 33 else 200);
    }
    r := TimedOut;
  }

  lemma StreakOfThree(probes: seq<Probe>, n: nat)
    requires n <= |probes|
    ensures Streak(probes, n) >= 3 <==> n >= 3 && probes[n - 1].ok && probes[n - 2].ok && probes[n - 3].ok
  {
    if n > 0 && probes[n - 1].ok && n > 1 && probes[n - 2].ok {
      assert Streak(probes, n) == Streak(probes, n - 1) + 1 == Streak(probes, n - 2) + 2;
    }
  }

  /** The last three of the first n probes succeeded. */
  predicate ThreeGood(probes: seq<Probe>, n: nat)
  {
    3 <= n <= |probes| && probes[n - 1].ok && probes[n - 2].ok && probes[n - 3].ok
  }

  /** The probes end in the first three successes in a row, KVM was alive after all but the last, and the
      alarm had not gone off before any. */
  ghost predicate ComesUp(seconds: nat, initialSleep: nat, probes: seq<Probe>, n: nat)
  {
    && ThreeGood(probes, n) && (forall k: nat :: k < n ==> !ThreeGood(probes, k))
    && (forall k: nat :: k + 1 < n ==> probes[k].alive)
    && (seconds > 0 ==> forall k: nat :: k < n ==> WaitTime(initialSleep, probes, k) < 100 * seconds)
  }

  /** That is exactly when the guest is taken to be up. */
  lemma UpIff(seconds: nat, initialSleep: nat, probes: seq<Probe>, n: nat)
    ensures WaitSpec(seconds, initialSleep, probes, Up, n) <==> ComesUp(seconds, initialSleep, probes, n)
  {
    if WaitSpec(seconds, initialSleep, probes, Up, n) {
      StreakOfThree(probes, n);
      forall k: nat | k < n
        ensures !ThreeGood(probes, k) && (seconds > 0 ==> WaitTime(initialSleep, probes, k) < 100 * seconds)
      {
        StreakOfThree(probes, k);
        assert k > 0 ==> ProbesOn(probes, k - 1);
        assert !Alarmed(seconds, WaitTime(initialSleep, probes, k));
      }
      forall k: nat | k + 1 < n ensures probes[k].alive {
        assert ProbesOn(probes, k);
      }
    } else if ComesUp(seconds, initialSleep, probes, n) {
      StreakOfThree(probes, n);
      forall k: nat | k + 1 < n ensures ProbesOn(probes, k) {
        StreakOfThree(probes, k + 1);
        assert !ThreeGood(probes, k + 1);
      }
    }
  }

  function Successes(probes: seq<Probe>, n: nat): nat
    requires n <= |probes|
  {
    if n == 0 then 0 else Successes(probes, n - 1) + if probes[n - 1].ok then 1 else 0
  }

  function Pauses(probes: seq<Probe>, n: nat): nat
    requires n <= |probes|
  {
    if n == 0 then 0 else Pauses(probes, n - 1) + probes[n - 1].pause
  }

  /** The time after n probes: the initial sleep, what the probes took, a third of a second after each that
      succeeded and two seconds after each that failed. */
  lemma {:induction false} WaitTimeIs(initialSleep: nat, probes: seq<Probe>, n: nat)
    requires n <= |probes|
    ensures Successes(probes, n) <= n
    ensures WaitTime(initialSleep, probes, n)
            == 100 * initialSleep + Pauses(probes, n) + 33 * Successes(probes, n) + 200 * (n - Successes(probes, n))
  {
    if n > 0 {
      WaitTimeIs(initialSleep, probes, n - 1);
    }
  }

  /** A guest that runs but never answers is given up after half as many probes as there are seconds from
      the initial sleep to the startup timeout, if the probes take no time of their own. */
  lemma SilentGuestIsGivenUp(seconds: nat, initialSleep: nat, probes: seq<Probe>, r: Wait, n: nat)
    requires seconds > 0 && WaitSpec(seconds, initialSleep, probes, r, n)
    requires forall k :: 0 <= k < |probes| ==> probes[k] == Probe(0, false, true)
    requires 2 * |probes| >= seconds - initialSleep
    ensures r == TimedOut && n == if initialSleep >= seconds then 0 else (seconds - initialSleep + 1) / 2
  {
    WaitTimeOfSilent(initialSleep, probes, n);
    if n > 0 {
      WaitTimeOfSilent(initialSleep, probes, n - 1);
    }
    StreakOfThree(probes, n);
  }

  lemma {:induction false} WaitTimeOfSilent(initialSleep: nat, probes: seq<Probe>, n: nat)
    requires n <= |probes| && forall k :: 0 <= k < n ==> probes[k] == Probe(0, false, true)
    ensures WaitTime(initialSleep, probes, n) == 100 * initialSleep + 200 * n
  {
    if n > 0 {
      WaitTimeOfSilent(initialSleep, probes, n - 1);
    }
  }

  lemma NotLonger(seconds: nat, initialSleep: nat, probes: seq<Probe>, r: Wait, n: nat, r': Wait, n': nat)
    requires WaitSpec(seconds, initialSleep, probes, r, n) && WaitSpec(seconds, initialSleep, probes, r', n')
    ensures n' <= n
  {
    if n < n' && n > 0 {
      var wentOn := ProbesOn(probes, n - 1);
    }
  }

  /** The answer and the number of probes are determined by the schedule. */
  lemma WaitIsDetermined(seconds: nat, initialSleep: nat, probes: seq<Probe>, r: Wait, n: nat, r': Wait, n': nat)
    requires WaitSpec(seconds, initialSleep, probes, r, n) && WaitSpec(seconds, initialSleep, probes, r', n')
    ensures r == r' && n == n'
  {
    if n < n' {
      NotLonger(seconds, initialSleep, probes, r, n, r', n');
    } else if n' < n {
      NotLonger(seconds, initialSleep, probes, r', n', r, n);
    }
  }

  lemma {:induction false} WaitTakesTime(initialSleep: nat, probes: seq<Probe>, n: nat)
    requires n <= |probes|
    ensures WaitTime(initialSleep, probes, n) >= 33 * n
  {
    if n > 0 {
      WaitTakesTime(initialSleep, probes, n - 1);
    }
  }

  /** With a startup timeout the wait is over after at most 100/33 probes for each of its seconds, and one
      more, on every schedule. */
  lemma WaitEnds(seconds: nat, initialSleep: nat, probes: seq<Probe>, r: Wait, n: nat)
    requires seconds > 0 && WaitSpec(seconds, initialSleep, probes, r, n)
    ensures 33 * (n - 1) < seconds * SECOND
    ensures r.WaitPending? ==> 33 * |probes| < seconds * SECOND
  {
    if n > 0 {
      WaitTakesTime(initialSleep, probes, n - 1);
    }
    WaitTakesTime(initialSleep, probes, n);
  }

  /** Without one (alarm(0)) nothing but the probes ends it: a schedule is waited through exactly when no
      three in a row succeed and KVM always lives. */
  lemma NoTimeoutNoAnswer(initialSleep: nat, probes: seq<Probe>, r: Wait, n: nat)
    requires WaitSpec(0, initialSleep, probes, r, n)
    ensures r.WaitPending? <==> forall k: nat :: k < |probes| ==> ProbesOn(probes, k)
  {
    if n > 0 && !r.WaitPending? {
      assert !ProbesOn(probes, n - 1);
    }
  }

  /** No schedule of more probes is waited through. */
  ghost predicate WaitEndsWithin(seconds: nat, initialSleep: nat, bound: nat)
  {
    forall probes, r, n :: WaitSpec(seconds, initialSleep, probes, r, n) && |probes| > bound ==> r != WaitPending
  }

  /** So the number of probes is bounded if and only if a startup timeout is set. */
  lemma WaitEndsIff(seconds: nat, initialSleep: nat)
    ensures (exists bound: nat :: WaitEndsWithin(seconds, initialSleep, bound)) <==> seconds > 0
  {
    if seconds > 0 {
      var bound := seconds * SECOND;
      forall probes, r, n | WaitSpec(seconds, initialSleep, probes, r, n) && |probes| > bound ensures r != WaitPending {
        WaitEnds(seconds, initialSleep, probes, r, n);
      }
      assert WaitEndsWithin(seconds, initialSleep, bound);
    } else if bound: nat :| WaitEndsWithin(seconds, initialSleep, bound) {
      var probes := SilentGuest(initialSleep, bound + 1);
      assert false;
    }
  }

  /** A guest that runs and never answers. */
  lemma SilentGuest(initialSleep: nat, n: nat) returns (probes: seq<Probe>)
    ensures |probes| == n && WaitSpec(0, initialSleep, probes, WaitPending, n)
  {
    probes := seq(n, _ => Probe(0, false, true));
  }

  // ----- shutdown_kvm

  /** One attempt to send the shutdown command: how long ssh took and whether it succeeded, then how long
      the check took and whether KVM or its port was still in use. */
  datatype Send = Send(pause: nat, ok: bool, checkPause: nat, running: bool)

  /** One check while waiting for KVM to go away. */
  datatype Poll = Poll(pause: nat, running: bool)

  datatype Shutdown = Down | Killed | ShutdownPending

  /** When the first loop tests $timeout after k sends. */
  function SendTime(sends: seq<Send>, k: nat): nat
    requires k <= |sends|
  {
    if k == 0 then 0 else SendTime(sends, k - 1) + sends[k - 1].pause + sends[k - 1].checkPause + SECOND
  }

  predicate SendsOn(seconds: nat, sends: seq<Send>, k: nat)
    requires k < |sends|
  {
    !Alarmed(seconds, SendTime(sends, k)) && !sends[k].ok && sends[k].running
  }

  /** The first loop is left after a complete iterations. */
  predicate SendsEnd(seconds: nat, sends: seq<Send>, a: nat)
  {
    && a <= |sends|
    && (forall k: nat :: k < a ==> SendsOn(seconds, sends, k))
    && (Alarmed(seconds, SendTime(sends, a)) || (a < |sends| && (sends[a].ok || !sends[a].running)))
  }

  /** When the second loop begins. */
  function PollStart(seconds: nat, sends: seq<Send>, a: nat): nat
    requires a <= |sends|
    requires Alarmed(seconds, SendTime(sends, a)) || a < |sends|
  {
    if Alarmed(seconds, SendTime(sends, a)) then SendTime(sends, a)
    else SendTime(sends, a) + sends[a].pause + if sends[a].ok then 0 else sends[a].checkPause
  }

  /** When check k of the second loop is done. */
  function PollTime(start: nat, polls: seq<Poll>, k: nat): nat
    requires k < |polls|
  {
    (if k == 0 then start else PollTime(start, polls, k - 1) + SECOND) + polls[k].pause
  }

  predicate PollsOn(seconds: nat, start: nat, polls: seq<Poll>, k: nat)
    requires k < |polls|
  {
    !Alarmed(seconds, PollTime(start, polls, k)) && polls[k].running
  }

  /** What the second loop comes to after b complete iterations. */
  ghost predicate PollsEnd(seconds: nat, start: nat, polls: seq<Poll>, r: Shutdown, b: nat)
  {
    && b <= |polls|
    && (forall k: nat :: k < b ==> PollsOn(seconds, start, polls, k))
    && match r
       case Down => b < |polls| && !polls[b].running
       case Killed => b < |polls| && polls[b].running && Alarmed(seconds, PollTime(start, polls, b))
       case ShutdownPending => b == |polls|
  }

  /** What shutdown_kvm comes to after a complete iterations of the first and b of the second loop. */
  ghost predicate ShutdownSpec(seconds: nat, sends: seq<Send>, polls: seq<Poll>, r: Shutdown, a: nat, b: nat)
  {
    if !SendsEnd(seconds, sends, a) then
      && r == ShutdownPending && a == |sends| && b == 0
      && (forall k: nat :: k < a ==> SendsOn(seconds, sends, k))
      && !Alarmed(seconds, SendTime(sends, a))
    else
      PollsEnd(seconds, PollStart(seconds, sends, a), polls, r, b)
  }

  method ShutdownKvm(seconds: nat, sends: seq<Send>, polls: seq<Poll>)
    returns (r: Shutdown, a: nat, b: nat)
    ensures ShutdownSpec(seconds, sends, polls, r, a, b)
  {
    var clock := new AlarmClock(seconds);
    a, b := 0, 0;
    while !clock.timeout
      invariant clock.Valid() && clock.seconds == seconds && fresh(clock)
      invariant a <= |sends| && clock.now == SendTime(sends, a)
      invariant forall k: nat :: k < a ==> SendsOn(seconds, sends, k)
      decreases |sends| - a
    {
      if a == |sends| {
        return ShutdownPending, a, 0;
      }
      clock.Pass(sends[a].pause);
      if sends[a].ok {
        break;
      }
      clock.Pass(sends[a].checkPause);
      if !sends[a].running {
        break;
      }
      clock.Pass(SECOND);
      a := a + 1;
    }
    assert SendsEnd(seconds, sends, a);
    ghost var start := PollStart(seconds, sends, a);
    r, b := WaitForExit(clock, start, polls);
  }

  /** The second loop, and what is left to do after it. */
  method WaitForExit(clock: AlarmClock, ghost start: nat, polls: seq<Poll>) returns (r: Shutdown, b: nat)
    requires clock.Valid() && clock.now == start
    modifies clock
    ensures PollsEnd(clock.seconds, start, polls, r, b)
  {
    b := 0;
    var stillRunning := true;
    while true
      invariant clock.Valid()
      invariant b <= |polls|
      invariant clock.now == if b == 0 then start else PollTime(start, polls, b - 1) + SECOND
      invariant forall k: nat :: k < b ==> PollsOn(clock.seconds, start, polls, k)
      decreases |polls| - b
    {
      if b == |polls| {
        return ShutdownPending, b;
      }
      clock.Pass(polls[b].pause);
      stillRunning := polls[b].running;
      if clock.timeout || !stillRunning {
        break;
      }
      clock.Pass(SECOND);
      b := b + 1;
    }
    r := if stillRunning then Killed else Down;
  }

  lemma {:induction false} SendsTakeTime(sends: seq<Send>, k: nat)
    requires k <= |sends|
    ensures SendTime(sends, k) >= SECOND * k
  {
    if k > 0 {
      SendsTakeTime(sends, k - 1);
    }
  }

  lemma {:induction false} PollsTakeTime(start: nat, polls: seq<Poll>, k: nat)
    requires k < |polls|
    ensures PollTime(start, polls, k) >= start + SECOND * k
    ensures forall i: nat :: i < k ==> PollTime(start, polls, i) < PollTime(start, polls, k)
  {
    if k > 0 {
      PollsTakeTime(start, polls, k - 1);
    }
  }

  /** With a shutdown timeout both loops together complete at most one iteration for each of its seconds,
      whatever ssh and KVM do and whenever the alarm fires: the schedule is never to blame. */
  lemma ShutdownEnds(seconds: nat, sends: seq<Send>, polls: seq<Poll>, r: Shutdown, a: nat, b: nat)
    requires seconds > 0 && ShutdownSpec(seconds, sends, polls, r, a, b)
    ensures a + b <= seconds
    ensures |sends| > seconds && |polls| > seconds ==> r != ShutdownPending
  {
    SendsTakeTime(sends, a);
    if a > 0 {
      SendsTakeTime(sends, a - 1);
      assert SendsOn(seconds, sends, a - 1);
    }
    if b > 0 {
      var start := PollStart(seconds, sends, a);
      PollsTakeTime(start, polls, b - 1);
      assert PollsOn(seconds, start, polls, b - 1);
    }
  }

  /** A guest that takes the command, which takes p hundredths, and stays, as checks of q each find: it is
      killed after the first check that is done after the alarm. */
  lemma StubbornGuestIsKilled(seconds: nat, sends: seq<Send>, polls: seq<Poll>, r: Shutdown, a: nat, b: nat,
                              p: nat, q: nat)
    requires seconds > 0 && ShutdownSpec(seconds, sends, polls, r, a, b)
    requires sends != [] && sends[0].ok && sends[0].pause == p
    requires |polls| > seconds && forall k :: 0 <= k < |polls| ==> polls[k] == Poll(q, true)
    ensures r == Killed && a == 0 && p + (b + 1) * q + 100 * b >= 100 * seconds
    ensures b > 0 ==> p + b * q + 100 * (b - 1) < 100 * seconds
  {
    assert a > 0 ==> !SendsOn(seconds, sends, 0);
    assert SendsEnd(seconds, sends, a) && PollStart(seconds, sends, a) == p;
    PollTimeOfStubborn(p, polls, seconds, q);
    assert !PollsOn(seconds, p, polls, seconds);
    PollTimeOfStubborn(p, polls, b, q);
    if b > 0 {
      PollTimeOfStubborn(p, polls, b - 1, q);
      assert PollsOn(seconds, p, polls, b - 1);
    }
  }

  /** One that cannot be reached, as attempts that take p hundredths each and checks of q each find: the
      attempts go on up to the alarm, and it is killed after one more check. */
  lemma UnreachableGuestIsKilled(seconds: nat, sends: seq<Send>, polls: seq<Poll>, r: Shutdown, a: nat, b: nat,
                                 p: nat, q: nat)
    requires seconds > 0 && ShutdownSpec(seconds, sends, polls, r, a, b)
    requires |sends| >= seconds && forall k :: 0 <= k < |sends| ==> sends[k] == Send(p, false, q, true)
    requires polls != [] && polls[0].running
    ensures r == Killed && b == 0 && a * (p + q + 100) >= 100 * seconds
    ensures a > 0 && (a - 1) * (p + q + 100) < 100 * seconds
  {
    SendTimeOfUnreachable(sends, a, p, q);
    SendsTakeTime(sends, a);
    if a > 0 {
      SendTimeOfUnreachable(sends, a - 1, p, q);
      assert SendsOn(seconds, sends, a - 1);
    }
    assert SendsEnd(seconds, sends, a);
    PollsTakeTime(PollStart(seconds, sends, a), polls, 0);
    assert !PollsOn(seconds, PollStart(seconds, sends, a), polls, 0);
  }

  lemma {:induction false} PollTimeOfStubborn(start: nat, polls: seq<Poll>, k: nat, q: nat)
    requires k < |polls| && forall i :: 0 <= i <= k ==> polls[i] == Poll(q, true)
    ensures PollTime(start, polls, k) == start + (k + 1) * q + 100 * k && (k + 1) * q >= 0
  {
    if k > 0 {
      PollTimeOfStubborn(start, polls, k - 1, q);
      assert (k + 1) * q == k * q + q;
    }
  }

  lemma {:induction false} SendTimeOfUnreachable(sends: seq<Send>, k: nat, p: nat, q: nat)
    requires k <= |sends| && forall i :: 0 <= i < k ==> sends[i] == Send(p, false, q, true)
    ensures SendTime(sends, k) == k * (p + q + 100)
  {
    if k > 0 {
      SendTimeOfUnreachable(sends, k - 1, p, q);
      assert k * (p + q + 100) == (k - 1) * (p + q + 100) + (p + q + 100);
    }
  }

  /** Check m is the first one of the second loop to be done after the alarm. */
  ghost predicate FirstLateCheck(seconds: nat, start: nat, polls: seq<Poll>, m: nat)
  {
    m < |polls| && Alarmed(seconds, PollTime(start, polls, m))
    && forall k: nat :: k < m ==> !Alarmed(seconds, PollTime(start, polls, k))
  }

  /** SIGKILL is sent exactly when every check of the second loop, up to the first one that is done after
      the alarm, finds KVM running: never before the alarm, never after a check that found it gone. */
  lemma KilledIff(seconds: nat, sends: seq<Send>, polls: seq<Poll>, r: Shutdown, a: nat, b: nat)
    requires ShutdownSpec(seconds, sends, polls, r, a, b) && SendsEnd(seconds, sends, a)
    ensures r == Killed <==> exists m: nat :: FirstLateCheck(seconds, PollStart(seconds, sends, a), polls, m)
                                              && forall k: nat :: k <= m ==> polls[k].running
  {
    var start := PollStart(seconds, sends, a);
    forall k: nat | k < b ensures !Alarmed(seconds, PollTime(start, polls, k)) && polls[k].running {
      assert PollsOn(seconds, start, polls, k);
    }
    if r == Killed {
      assert FirstLateCheck(seconds, start, polls, b);
    } else if m: nat :| FirstLateCheck(seconds, start, polls, m) && forall k: nat :: k <= m ==> polls[k].running {
    }
  }

  /** Without a timeout (alarm(0)) only the guest ends the wait: exactly when the first loop is left and some
      check of the second one finds KVM gone. */
  lemma NoTimeoutNoEnd(sends: seq<Send>, polls: seq<Poll>, r: Shutdown, a: nat, b: nat)
    requires ShutdownSpec(0, sends, polls, r, a, b)
    ensures r != ShutdownPending <==> SendsEnd(0, sends, a) && exists k :: 0 <= k < |polls| && !polls[k].running
  {
    if SendsEnd(0, sends, a) && r == ShutdownPending {
      forall k | 0 <= k < |polls| ensures polls[k].running {
        assert PollsOn(0, PollStart(0, sends, a), polls, k);
      }
    }
  }

  /** No longer schedule is waited through. */
  ghost predicate ShutdownEndsWithin(seconds: nat, bound: nat)
  {
    forall sends, polls, r, a, b ::
      ShutdownSpec(seconds, sends, polls, r, a, b) && |sends| > bound && |polls| > bound ==> r != ShutdownPending
  }

  /** So the wait for the guest is bounded if and only if a shutdown timeout is set. */
  lemma ShutdownEndsIff(seconds: nat)
    ensures (exists bound: nat :: ShutdownEndsWithin(seconds, bound)) <==> seconds > 0
  {
    if seconds > 0 {
      forall sends, polls, r, a, b
        | ShutdownSpec(seconds, sends, polls, r, a, b) && |sends| > seconds && |polls| > seconds
        ensures r != ShutdownPending
      {
        ShutdownEnds(seconds, sends, polls, r, a, b);
      }
      assert ShutdownEndsWithin(seconds, seconds);
    } else if bound: nat :| ShutdownEndsWithin(seconds, bound) {
      var sends, polls := StubbornGuest(bound + 1);
      assert false;
    }
  }

  /** A guest that takes the command and stays. */
  lemma StubbornGuest(n: nat) returns (sends: seq<Send>, polls: seq<Poll>)
    requires n >= 1
    ensures |sends| == |polls| == n && ShutdownSpec(0, sends, polls, ShutdownPending, 0, n)
  {
    sends, polls := seq(n, _ => Send(0, true, 0, true)), seq(n, _ => Poll(0, true));
  }
}

/** The main program of buildbot/runvm: boot the virtual machine, retrying a few times, run the commands,
    shut the machine down.  The log of events says what was done in which order. */
module RunVm {
  import opened RunVmAlarm
  import opened RunVmCommands

  datatype Config = Config(baseImage: bool, maxRetries: int, startupTimeout: nat, initialSleep: nat)

  /** What one attempt to boot meets: whether the image can be cloned, whether the port is in use before
      and after a stray KVM has been told to shut down, and how the probes go. */
  datatype Attempt = Attempt(cloneOk: bool, portUsed: bool, stillUsed: bool, probes: seq<Probe>)

  datatype Event = Cloned | StrayShutdown | PortFree | Launched | Probed(ok: bool, alive: bool) | ShutDown
                 | Did(command: Executed)

  /** How the program ends; the attempts or the probes may run out before it does. */
  datatype End = Exit(code: int) | Die | Pending

  function Launches(log: seq<Event>): nat
  {
    if log == [] then 0
    else Launches(log[..|log| - 1]) + if log[|log| - 1].Launched? then 1 else 0
  }

  /** Between positions m and k KVM is not started. */
  ghost predicate NoLaunch(log: seq<Event>, m: int, k: int)
  {
    forall i :: m <= i < k && 0 <= i < |log| ==> log[i] != Launched
  }

  /** KVM is started only when the port was just found free, and with a base image only from a clone made
      since it was last started. */
  ghost predicate FreshLaunches(c: Config, log: seq<Event>)
  {
    forall k :: 0 <= k < |log| && log[k] == Launched ==>
      && k > 0 && log[k - 1] == PortFree
      && (c.baseImage ==> exists m :: 0 <= m < k && log[m] == Cloned && NoLaunch(log, m, k))
  }

  /** The guest is up: since KVM was last started there were only probes, the last three succeeded, and
      after every one but the last KVM was alive. */
  ghost predicate GuestUp(log: seq<Event>)
  {
    exists b :: 0 <= b && b + 4 <= |log| && log[b] == Launched
      && (forall i :: b < i < |log| ==> log[i].Probed?)
      && (forall i :: |log| - 3 <= i < |log| ==> log[i].ok)
      && (forall i :: b < i < |log| - 1 ==> log[i].alive)
  }

  /** After every start of KVM shutdown_kvm has been called. */
  ghost predicate ShutdownFollows(log: seq<Event>)
  {
    forall k :: 0 <= k < |log| && log[k] == Launched ==> exists m :: k < m < |log| && log[m] == ShutDown
  }

  ghost predicate NoCommands(log: seq<Event>)
  {
    forall k :: 0 <= k < |log| ==> !log[k].Did?
  }

  function ProbeEvents(probes: seq<Probe>): (r: seq<Event>)
    ensures |r| == |probes| && forall i :: 0 <= i < |r| ==> r[i] == Probed(probes[i].ok, probes[i].alive)
  {
    seq(|probes|, i requires 0 <= i < |probes| => Probed(probes[i].ok, probes[i].alive))
  }

  lemma {:induction false} LaunchesAdd(a: seq<Event>, b: seq<Event>)
    ensures Launches(a + b) == Launches(a) + Launches(b)
  {
    if b == [] {
      assert a + b == a;
    } else {
      LaunchesAdd(a, b[..|b| - 1]);
      assert (a + b)[..|a + b| - 1] == a + b[..|b| - 1];
    }
  }

  lemma {:induction false} NoLaunchesIn(log: seq<Event>)
    requires NoLaunch(log, 0, |log|)
    ensures Launches(log) == 0
  {
    if log != [] {
      NoLaunchesIn(log[..|log| - 1]);
    }
  }

  /** Events without a launch change nothing about the launches before them. */
  lemma StillFresh(c: Config, log: seq<Event>, more: seq<Event>)
    requires FreshLaunches(c, log) && NoLaunch(more, 0, |more|)
    ensures FreshLaunches(c, log + more) && Launches(log + more) == Launches(log)
  {
    NoLaunchesIn(more);
    LaunchesAdd(log, more);
    var both := log + more;
    assert forall k :: |log| <= k < |both| ==> both[k] == more[k - |log|] && both[k] != Launched;
    forall k | 0 <= k < |both| && both[k] == Launched
      ensures k > 0 && both[k - 1] == PortFree
      ensures c.baseImage ==> exists m :: 0 <= m < k && both[m] == Cloned && NoLaunch(both, m, k)
    {
      assert log[k] == Launched;
      if c.baseImage {
        var m :| 0 <= m < k && log[m] == Cloned && NoLaunch(log, m, k);
        assert both[m] == Cloned && NoLaunch(both, m, k);
      }
    }
  }

  /** One start of KVM, with what comes before it in the same attempt. */
  lemma LaunchIsFresh(c: Config, log: seq<Event>, head: seq<Event>)
    requires FreshLaunches(c, log) && NoLaunch(head, 0, |head|) && (c.baseImage ==> head != [] && head[0] == Cloned)
    ensures FreshLaunches(c, log + head + [PortFree, Launched])
    ensures Launches(log + head + [PortFree, Launched]) == Launches(log) + 1
  {
    var before := head + [PortFree];
    assert NoLaunch(before, 0, |before|);
    StillFresh(c, log, before);
    var all := log + head + [PortFree, Launched];
    assert all == log + before + [Launched] && all[..|all| - 1] == log + before;
    forall k | 0 <= k < |all| && all[k] == Launched
      ensures k > 0 && all[k - 1] == PortFree
      ensures c.baseImage ==> exists m :: 0 <= m < k && all[m] == Cloned && NoLaunch(all, m, k)
    {
      if k == |all| - 1 {
        if c.baseImage {
          assert all[|log|] == Cloned && NoLaunch(all, |log|, k);
        }
      } else {
        assert (log + before)[k] == Launched;
        if c.baseImage {
          var m :| 0 <= m < k && (log + before)[m] == Cloned && NoLaunch(log + before, m, k);
          assert all[m] == Cloned && NoLaunch(all, m, k);
        }
      }
    }
  }

  datatype Booted = CloneFailed | PortTaken | Waited(answer: Wait)

  /** How an attempt turns out. */
  ghost predicate Comes(c: Config, attempt: Attempt, r: Booted)
  {
    if c.baseImage && !attempt.cloneOk then r == CloneFailed
    else if attempt.stillUsed then r == PortTaken
    else r.Waited? && exists n :: WaitSpec(c.startupTimeout, c.initialSleep, attempt.probes, r.answer, n)
  }

  ghost predicate FailsToBoot(c: Config, attempt: Attempt)
  {
    Comes(c, attempt, Waited(TimedOut)) || Comes(c, attempt, Waited(Gone))
  }

  lemma ComesOneWay(c: Config, attempt: Attempt, r: Booted, r': Booted)
    requires Comes(c, attempt, r) && Comes(c, attempt, r')
    ensures r == r'
  {
    if r.Waited? && r'.Waited? {
      var n :| WaitSpec(c.startupTimeout, c.initialSleep, attempt.probes, r.answer, n);
      var n' :| WaitSpec(c.startupTimeout, c.initialSleep, attempt.probes, r'.answer, n');
      WaitIsDetermined(c.startupTimeout, c.initialSleep, attempt.probes, r.answer, n, r'.answer, n');
    }
  }

  /** How each outcome comes about; the image is cloned first, then the port is looked at. */
  lemma ComesIff(c: Config, attempt: Attempt, r: Booted)
    requires Comes(c, attempt, r)
    ensures r == CloneFailed <==> c.baseImage && !attempt.cloneOk
    ensures r == PortTaken <==> (c.baseImage ==> attempt.cloneOk) && attempt.stillUsed
    ensures r == Waited(Up) <==> (c.baseImage ==> attempt.cloneOk) && !attempt.stillUsed
                                 && exists n: nat :: ComesUp(c.startupTimeout, c.initialSleep, attempt.probes, n)
  {
    forall n: nat
      ensures WaitSpec(c.startupTimeout, c.initialSleep, attempt.probes, Up, n)
              <==> ComesUp(c.startupTimeout, c.initialSleep, attempt.probes, n)
    {
      UpIff(c.startupTimeout, c.initialSleep, attempt.probes, n);
    }
    if r.Waited? && exists n: nat :: WaitSpec(c.startupTimeout, c.initialSleep, attempt.probes, Up, n) {
      ComesOneWay(c, attempt, r, Waited(Up));
    }
  }

  /** The number of times KVM may be started. */
  function MaxBoots(c: Config): nat
  {
    if c.maxRetries > 1 then c.maxRetries else 1
  }

  /** The first n attempts failed and attempt n, still within the limit, got the guest up. */
  ghost predicate ComesUpAt(c: Config, attempts: seq<Attempt>, n: nat)
  {
    && n < |attempts| && n < MaxBoots(c)
    && (forall k: nat :: k < n ==> FailsToBoot(c, attempts[k]))
    && Comes(c, attempts[n], Waited(Up))
  }

  /** How the program ends without running a command: at the first attempt that breaks off or is the last
      one allowed, or because there is nothing more to observe. */
  ghost predicate GivesUp(c: Config, attempts: seq<Attempt>, n: nat, end: End)
  {
    && n <= |attempts| && n <= MaxBoots(c)
    && (forall k: nat :: k < n ==> FailsToBoot(c, attempts[k]))
    && if n == MaxBoots(c) then end == Exit(1)
       else if n == |attempts| then end == Pending
       else (Comes(c, attempts[n], CloneFailed) && end == Exit(1))
            || (Comes(c, attempts[n], PortTaken) && end == Die)
            || (Comes(c, attempts[n], Waited(WaitPending)) && end == Pending)
  }

  /** If no attempt gets the guest up although nothing else goes wrong, the program exits with status 1 after
      --kvm-retries attempts, and after one even if that is 0. */
  lemma RetriesAreUsedUp(c: Config, attempts: seq<Attempt>, n: nat, end: End)
    requires GivesUp(c, attempts, n, end)
    requires forall k: nat :: k < |attempts| ==> FailsToBoot(c, attempts[k])
    ensures if |attempts| >= 1 && |attempts| >= c.maxRetries then end == Exit(1) && (n == c.maxRetries || (n == 1 && c.maxRetries <= 1))
            else end == Pending && n == |attempts|
  {
    if n < |attempts| {
      forall r | Comes(c, attempts[n], r) ensures r == Waited(TimedOut) || r == Waited(Gone) {
        ComesOneWay(c, attempts[n], r, if Comes(c, attempts[n], Waited(TimedOut)) then Waited(TimedOut) else Waited(Gone));
      }
    }
  }

  /** A clone that fails ends the program with status 1, a port that stays taken lets it die. */
  lemma FirstAttemptDecides(c: Config, attempts: seq<Attempt>, n: nat, end: End)
    requires GivesUp(c, attempts, n, end) && attempts != []
    ensures c.baseImage && !attempts[0].cloneOk ==> end == Exit(1) && n == 0
    ensures (c.baseImage ==> attempts[0].cloneOk) && attempts[0].stillUsed ==> end == Die && n == 0
  {
    forall r | Comes(c, attempts[0], r)
      ensures c.baseImage && !attempts[0].cloneOk ==> r == CloneFailed
      ensures (c.baseImage ==> attempts[0].cloneOk) && attempts[0].stillUsed ==> r == PortTaken
    {
      ComesIff(c, attempts[0], r);
    }
    assert n > 0 ==> FailsToBoot(c, attempts[0]);
  }

  lemma NeverUp(c: Config, attempts: seq<Attempt>, n: nat, r: Booted)
    requires n < |attempts| && (forall k: nat :: k < n ==> FailsToBoot(c, attempts[k]))
    requires Comes(c, attempts[n], r) && r != Waited(Up)
    requires r == Waited(TimedOut) || r == Waited(Gone) ==> n + 1 >= MaxBoots(c)
    ensures forall m: nat :: !ComesUpAt(c, attempts, m)
  {
    if FailsToBoot(c, attempts[n]) {
      ComesOneWay(c, attempts[n], r, if Comes(c, attempts[n], Waited(TimedOut)) then Waited(TimedOut) else Waited(Gone));
    }
    forall m: nat ensures !ComesUpAt(c, attempts, m) {
      if ComesUpAt(c, attempts, m) {
        if m < n {
          NotBoth(c, attempts[m]);
        } else if m == n {
          ComesOneWay(c, attempts[n], r, Waited(Up));
        }
      }
    }
  }

  lemma NotBoth(c: Config, attempt: Attempt)
    ensures !(FailsToBoot(c, attempt) && Comes(c, attempt, Waited(Up)))
  {
    if Comes(c, attempt, Waited(Up)) {
      if Comes(c, attempt, Waited(TimedOut)) {
        ComesOneWay(c, attempt, Waited(Up), Waited(TimedOut));
      } else if Comes(c, attempt, Waited(Gone)) {
        ComesOneWay(c, attempt, Waited(Up), Waited(Gone));
      }
    }
  }

  /** The body of the retry loop up to the answer of wait_for_up. */
  method BootOnce(c: Config, attempt: Attempt) returns (r: Booted, head: seq<Event>, probed: nat)
    ensures Comes(c, attempt, r)
    ensures r.Waited? ==> WaitSpec(c.startupTimeout, c.initialSleep, attempt.probes, r.answer, probed)
    ensures r != CloneFailed && c.baseImage ==> head != [] && head[0] == Cloned
    ensures StrayShutdown in head <==> r != CloneFailed && attempt.portUsed
    ensures forall i :: 0 <= i < |head| ==> head[i] == Cloned || head[i] == StrayShutdown
  {
    head, probed := [], 0;
    if c.baseImage {
      if !attempt.cloneOk {
        return CloneFailed, head, probed;
      }
      head := [Cloned];
    }
    if attempt.portUsed {
      head := head + [StrayShutdown];
    }
    if attempt.stillUsed {
      return PortTaken, head, probed;
    }
    var answer;
    answer, probed := WaitForUp(c.startupTimeout, c.initialSleep, attempt.probes);
    r := Waited(answer);
  }

  /** The invariant of the retry loop. */
  ghost predicate Retrying(c: Config, log: seq<Event>, retries: nat)
  {
    && FreshLaunches(c, log) && ShutdownFollows(log) && NoCommands(log)
    && Launches(log) == retries && (retries == 0 || retries < c.maxRetries)
  }

  function AttemptEvents(head: seq<Event>, probes: seq<Probe>): seq<Event>
  {
    head + [PortFree, Launched] + ProbeEvents(probes)
  }

  lemma AttemptAppended(c: Config, log: seq<Event>, head: seq<Event>, probes: seq<Probe>)
    requires FreshLaunches(c, log) && NoCommands(log)
    requires forall i :: 0 <= i < |head| ==> head[i] == Cloned || head[i] == StrayShutdown
    requires c.baseImage ==> head != [] && head[0] == Cloned
    ensures var all := log + AttemptEvents(head, probes);
            FreshLaunches(c, all) && NoCommands(all) && Launches(all) == Launches(log) + 1
  {
    var launched, probed := log + head + [PortFree, Launched], ProbeEvents(probes);
    LaunchIsFresh(c, log, head);
    OnlyProbes(probed);
    StillFresh(c, launched, probed);
    Regroup(log, head, probed);
    NoCommandsIn(log, head + [PortFree, Launched]);
    NoCommandsIn(log + (head + [PortFree, Launched]), probed);
    Associate(log, head, [PortFree, Launched]);
  }

  lemma Associate(a: seq<Event>, b: seq<Event>, c: seq<Event>)
    ensures a + b + c == a + (b + c)
  {
  }

  lemma OnlyProbes(probed: seq<Event>)
    requires forall i :: 0 <= i < |probed| ==> probed[i].Probed?
    ensures NoLaunch(probed, 0, |probed|) && NoCommands(probed)
  {
  }

  lemma Regroup(log: seq<Event>, head: seq<Event>, probed: seq<Event>)
    ensures log + head + [PortFree, Launched] + probed == log + (head + [PortFree, Launched] + probed)
  {
  }

  lemma NoCommandsIn(a: seq<Event>, b: seq<Event>)
    requires NoCommands(a) && NoCommands(b)
    ensures NoCommands(a + b)
  {
  }

  lemma UpAfter(c: Config, log: seq<Event>, head: seq<Event>, probes: seq<Probe>, n: nat)
    requires WaitSpec(c.startupTimeout, c.initialSleep, probes, Up, n)
    ensures GuestUp(log + AttemptEvents(head, probes[..n]))
  {
    StreakOfThree(probes, n);
    var all, b := log + AttemptEvents(head, probes[..n]), |log| + |head| + 1;
    forall i | b < i < |all| - 1 ensures all[i].Probed? && all[i].alive {
      assert ProbesOn(probes, i - b - 1);
      assert all[i] == ProbeEvents(probes[..n])[i - b - 1];
    }
    assert forall i :: b < i < |all| ==> all[i] == ProbeEvents(probes[..n])[i - b - 1];
    assert all[b] == Launched;
  }

  /** The body of the retry loop, with the events it adds. */
  method TryToBoot(c: Config, before: seq<Event>, attempt: Attempt) returns (r: Booted, log: seq<Event>)
    requires FreshLaunches(c, before) && ShutdownFollows(before) && NoCommands(before)
    ensures FreshLaunches(c, log) && NoCommands(log) && Comes(c, attempt, r)
    ensures Launches(log) == Launches(before) + if r.Waited? then 1 else 0
    ensures r == Waited(Up) ==> GuestUp(log)
    ensures r != Waited(Up) && r != Waited(WaitPending) ==> ShutdownFollows(log)
  {
    var head, probed;
    r, head, probed := BootOnce(c, attempt);
    match r {
      case CloneFailed =>
        log := before;
      case PortTaken =>
        StillFresh(c, before, head);
        assert forall m :: 0 <= m < |before| ==> (before + head)[m] == before[m];
        log := before + head;
      case Waited(answer) =>
        AttemptAppended(c, before, head, attempt.probes[..probed]);
        if answer == Up {
          UpAfter(c, before, head, attempt.probes, probed);
        }
        log := before + AttemptEvents(head, attempt.probes[..probed]);
        if answer == TimedOut || answer == Gone {
          StillFresh(c, log, [ShutDown]);
          log := log + [ShutDown];
          assert log[|log| - 1] == ShutDown;
        }
    }
  }

  lemma NoneUp(c: Config, attempts: seq<Attempt>)
    requires forall k: nat :: k < |attempts| ==> FailsToBoot(c, attempts[k])
    ensures forall m: nat :: !ComesUpAt(c, attempts, m)
  {
    forall m: nat ensures !ComesUpAt(c, attempts, m) {
      if m < |attempts| {
        NotBoth(c, attempts[m]);
      }
    }
  }

  /** The retry loop: either the guest comes up, or the program ends. */
  method Boot(c: Config, attempts: seq<Attempt>) returns (ready: bool, end: End, log: seq<Event>)
    ensures FreshLaunches(c, log) && NoCommands(log) && Launches(log) <= MaxBoots(c)
    ensures ready <==> exists n: nat :: ComesUpAt(c, attempts, n)
    ensures ready ==> GuestUp(log)
    ensures !ready ==> exists n: nat :: GivesUp(c, attempts, n, end)
    ensures !ready && end != Pending ==> ShutdownFollows(log)
  {
    log := [];
    var retries := 0;
    for n := 0 to |attempts|
      invariant retries == n && Retrying(c, log, retries) && n < MaxBoots(c)
      invariant forall k: nat :: k < n ==> FailsToBoot(c, attempts[k])
    {
      var r;
      r, log := TryToBoot(c, log, attempts[n]);
      if r == Waited(Up) {
        assert ComesUpAt(c, attempts, n);
        return true, Pending, log;
      }
      if r.Waited? && r.answer != WaitPending {
        retries := retries + 1;
        if !(retries < c.maxRetries) {
          NeverUp(c, attempts, n, r);
          assert GivesUp(c, attempts, n + 1, Exit(1));
          return false, Exit(1), log;
        }
      } else {
        NeverUp(c, attempts, n, r);
        end := if r == CloneFailed then Exit(1) else if r == PortTaken then Die else Pending;
        assert GivesUp(c, attempts, n, end);
        return false, end, log;
      }
    }
    NoneUp(c, attempts);
    assert GivesUp(c, attempts, |attempts|, Pending);
    return false, Pending, log;
  }

  function Commands(trace: seq<Executed>): (r: seq<Event>)
    ensures |r| == |trace| && forall i :: 0 <= i < |r| ==> r[i] == Did(trace[i])
  {
    seq(|trace|, i requires 0 <= i < |trace| => Did(trace[i]))
  }

  /** What the commands leave: they ran on a guest that was up, as their own specification says, then the
      guest was shut down, and the exit status is theirs. */
  ghost predicate CommandsRan(args: seq<string>, results: seq<Status>, end: End, log: seq<Event>, m: nat)
    requires |results| == |args|
  {
    && m < |log| && GuestUp(log[..m]) && NoCommands(log[..m])
    && end.Exit?
    && var trace := Trace(ParseAll(args), results, |args|);
    && log == log[..m] + Commands(trace) + [ShutDown]
    && IsTrace(args, results, trace) && ExitsWith(results, trace, end.code)
    && Reports(ParseAll(args), results, |args|, end.code)
  }

  lemma CommandsAppended(args: seq<string>, results: seq<Status>, ret: int, trace: seq<Executed>, booted: seq<Event>)
    requires |results| == |args| && trace == Trace(ParseAll(args), results, |args|) && IsTrace(args, results, trace)
    requires ExitsWith(results, trace, ret) && Reports(ParseAll(args), results, |args|, ret)
    requires GuestUp(booted) && NoCommands(booted)
    ensures CommandsRan(args, results, Exit(ret), booted + (Commands(trace) + [ShutDown]), |booted|)
  {
    var log := booted + (Commands(trace) + [ShutDown]);
    assert log[..|booted|] == booted;
    Associate(booted, Commands(trace), [ShutDown]);
  }

  lemma EndsInShutdown(log: seq<Event>, trace: seq<Executed>)
    ensures ShutdownFollows(log + (Commands(trace) + [ShutDown]))
    ensures NoLaunch(Commands(trace) + [ShutDown], 0, |trace| + 1)
  {
    var all := log + (Commands(trace) + [ShutDown]);
    assert all[|all| - 1] == ShutDown;
  }

  /** The whole program.  The commands run exactly when some attempt within the limit gets the guest up,
      and only on that guest; KVM is started at most max(1, --kvm-retries) times, from fresh clones; when
      the program ends, shutdown_kvm has been called after every start. */
  method RunVm(c: Config, attempts: seq<Attempt>, args: seq<string>, results: seq<Status>)
    returns (end: End, log: seq<Event>)
    requires |results| == |args|
    ensures FreshLaunches(c, log) && Launches(log) <= MaxBoots(c)
    ensures end != Pending ==> ShutdownFollows(log)
    ensures if exists n: nat :: ComesUpAt(c, attempts, n) then exists m: nat :: CommandsRan(args, results, end, log, m)
            else NoCommands(log) && exists n: nat :: GivesUp(c, attempts, n, end)
  {
    var ready;
    ready, end, log := Boot(c, attempts);
    if !ready {
      return;
    }
    var ret, trace := RunCommands(args, results);
    EndsInShutdown(log, trace);
    CommandsAppended(args, results, ret, trace, log);
    StillFresh(c, log, Commands(trace) + [ShutDown]);
    log, end := log + (Commands(trace) + [ShutDown]), Exit(ret);
  }
}

# A verified model of the MariaDB build and benchmark tools

The repository drives MariaDB's continuous integration. Five of its programs carry real logic, and this
project models them in Dafny 4.11 and proves what they do on every input and over every run.

* **The benchmark driver** (`dbt3_benchmark/launcher.pl`). For each query a loop restarts the server, asks
  for the execution plan, decides with the table of plans seen so far whether the plan is worth running,
  runs or skips it, logs the run and decides whether to go on. `PlanTable.dfy` holds the table and the two
  routines that search it; `TestLoop.dfy` the loop, as a class whose methods change the same variables, and
  the relation `Step` that says what one iteration may do; `TestLoopProperties.dfy`, `TestLoopLog.dfy`,
  `TestLoopStops.dfy` and `TestLoopBounds.dfy` what holds of all runs. `RunSummaries.dfy` has the results of the
  two modes that do not look at plans, `MeasuredQuery.dfy` one query from start to its result.
  `BestCluster.dfy` is `GetBestCluster`.
* **The virtual machine runner** (`buildbot/runvm`). `RunVmAlarm.dfy` has the two loops that run under an
  alarm, `RunVmCommands.dfy` the command language, `RunVm.dfy` the main program with its log of events.
* **Build scheduling** (`buildbot/maria-master.cfg`). `NextBuild.dfy` and `RequestQueue.dfy` are the request
  picker and the queue it serves, `Versions.dfy` (with `Branches.dfy` and `Decimal.dfy`) the version parser,
  the branch lists and the triggers, `BuilderOrder.dfy` the comparator of builders, `BuilderSort.dfy` the sort that
  is given it, `Ports.dfy` the port allocator.
* **Lock-hash addressing** (`gdb-helpers/innodb.gdb`) is `LockHash.dfy`.
* **The newest-build index** (`buildbot/collect_latest_galera.sh`) is `GaleraIndex.dfy`.

`Wrappers.dfy`, `Text.dfy` and `Arithmetic.dfy` hold what several modules share.

What comes from outside (times, probe results, whether KVM lives, the clock, command statuses, directory
listings) is an input: a sequence of observations that the proofs quantify over. Where Perl walks a hash,
the order is arbitrary: a method picks the keys in an unknown order and the specifications allow every
outcome an order can have. Query times are whole seconds or -1 for a timeout, means are real numbers, and
the sentinel 10000000 is kept.

Some statements one would expect are false of the code. For each the exact condition is proved:

* the estimated number of rows is meant to be left out of a plan's key. `AnalyzeExplain` strikes out the
  ninth tab-separated column, but `launcher.pl:624` has the file written by `mysql -t`, as a table drawn
  with bars. Without tabs a line is one column, and two such files are one plan only if they are equal
  (`TablesAreOnePlanIff`); of tab-separated ones some that differ are one plan (`PlanKeysAgreeIff`,
  `KeysCanCollide`);
* the test-start row is logged twice when the first plan text is empty and `MAX_SKIPPED_TESTS` allows a
  second iteration (`TestStartIsLoggedOnceIff`);
* plan analysis with neither `NUM_TESTS` nor `MAX_QUERY_TIME` need not end (`BoundedIffAlwaysStops`);
* the cluster chosen from a query's results may be a single one, exactly when no two neighbours can stand
  together (`ChosenGroupHasTwoIff`);
* without `getBestAvailable` the result, the best plan's mean or 0, can depend on the hash order
  (`SizedResultIsUniqueIff`);
* the extremes and the average of runs with timeouts are not what their names say (`GetMinMax`,
  `GetSimpleAverage`);
* a printed command is not always parsed back (`PrintedCommandParsesIff`);
* with `--startup-timeout=0` the wait for the guest to come up need not end, and with `--shutdown-timeout=0`
  that for it to go away (`WaitEndsIff`, `ShutdownEndsIff`);
* a complete index is not always there while it is replaced (`SafeThroughoutIff`).

The `runvm` documentation says that the prefixes `=` and `!` may be combined; in the code a blank
after a leading `=` hides a `!` behind it (`= !cmd` is the host command `!cmd`), and the model follows the code.

## Model

| member | source | states |
|---|---|---|
| PlanTable.Accumulate | dbt3_benchmark/launcher.pl:791-800 | the inner loop gives the sum and length of a list, and -1 exactly when the list has a timeout |
| PlanTable.ScanPlans | dbt3_benchmark/launcher.pl:787-808 | under any hash order the winner is the first plan of least mean among the timeout-free ones below the sentinel; without one the sentinel and the empty key remain |
| PlanTable.EligibleIff | dbt3_benchmark/launcher.pl:718-735 | a plan can be best exactly when it has been run, never timed out and took less than 10000000 seconds on average |
| PlanTable.MeansCompare | dbt3_benchmark/launcher.pl:803-808 | of two plans one has the smaller mean exactly when its total times the other's number of runs is the smaller product |
| PlanTable.EveryBestPlanWins | dbt3_benchmark/launcher.pl:789-808 | a plan is of least mean if and only if some hash order makes it the winner |
| PlanTable.GetBestExplainCluster | dbt3_benchmark/launcher.pl:712-748 | the result is one the specification allows, whatever the hash order |
| PlanTable.BestAvailableIsUnique | dbt3_benchmark/launcher.pl:740-746 | with getBestAvailable the result is the same for every order: the least mean, or -1 when no plan qualifies |
| PlanTable.SizedResultIsUniqueIff | dbt3_benchmark/launcher.pl:735-746 | without it the result is order-independent exactly when no two tied best plans of nonzero mean disagree about the cluster size |
| PlanTable.PlanKeysAgreeIff | dbt3_benchmark/launcher.pl:773-778 | two explanations, in any number of columns without tabs, are one plan exactly when they agree in columns 1 to 7 of every line, the first id, the last column 9, and each column 9 put together with the id after it |
| PlanTable.TablesAreOnePlanIff | dbt3_benchmark/launcher.pl:773-778 | files written by `mysql -t` (line 624), one column a line, are one plan exactly when they are equal, so the row estimates count |
| PlanTable.RowEstimatesAreIgnored | dbt3_benchmark/launcher.pl:763-778 | in tab-separated output the row estimates are left out of the key; only the empty explanation has the empty key |
| PlanTable.KeysCanCollide | dbt3_benchmark/launcher.pl:775-778 | differing tab-separated explanations get the same key when text moves from one line's id to the previous line's last column |
| TestLoop.PlanStore.AnalyzeExplain | dbt3_benchmark/launcher.pl:757-815 | a new plan is entered and accepted; a known one leaves the table alone, is accepted only if no plan is better and rejected only if it does not beat all others |
| TestLoop.PlanStore.Push | dbt3_benchmark/launcher.pl:1473 | the time is appended to the list of its key, which is created if missing |
| TestLoop.PlanStore.GetBest | dbt3_benchmark/launcher.pl:1398 | the call of GetBestExplainCluster on the shared table |
| TestLoop.QueryTest.constructor | dbt3_benchmark/launcher.pl:1289-1299 | the variables before the first iteration |
| TestLoop.QueryTest.Explain | dbt3_benchmark/launcher.pl:1302-1405 | the first half of an iteration: counters, server restart, test-start row, plan analysis |
| TestLoop.QueryTest.Skip | dbt3_benchmark/launcher.pl:1389-1400 | a skip undoes the increment of j, counts itself, and stops the loop at MAX_SKIPPED_TESTS with the best result available |
| TestLoop.QueryTest.WarmUp | dbt3_benchmark/launcher.pl:1411-1430 | one start row and one end row for each warm-up run |
| TestLoop.QueryTest.Perform | dbt3_benchmark/launcher.pl:1408-1496 | the run: warm-up rows, start row, time pushed under the plan, end row |
| TestLoop.QueryTest.Decide | dbt3_benchmark/launcher.pl:1500-1533 | when the loop stops after a run, and with which result, in each of the three modes (`StopsIff` says it in whole numbers) |
| TestLoop.QueryTest.Iterate | dbt3_benchmark/launcher.pl:1301-1565 | one iteration makes a step the relation allows |
| TestLoop.QueryTest.Run | dbt3_benchmark/launcher.pl:1301-1565 | the loop goes through a run of such steps, until it stops or nothing more is observed |
| TestLoopProperties.TableGroupsHistory | dbt3_benchmark/launcher.pl:781-784 | in every reachable state the table is the history grouped by plan: the keys are the plans seen, each list holds the times of that plan's runs in order |
| TestLoopProperties.EveryChoiceIsGreedy | dbt3_benchmark/launcher.pl:781-812 | over every run without QUERIES_AT_ONCE, a plan seen before is run again only if it never timed out and no timeout-free plan has a smaller mean at that moment, and is skipped only if it does not beat every other plan |
| TestLoopProperties.EveryChoiceAtOnceIsGreedy | dbt3_benchmark/launcher.pl:1387-1473 | with QUERIES_AT_ONCE every iteration runs, under its plan's key on the same condition and otherwise under the empty key |
| TestLoopProperties.NoRunAfterTimeout | dbt3_benchmark/launcher.pl:796-802 | after a timeout a plan is never run again |
| TestLoopProperties.StepKeepsTidy | dbt3_benchmark/launcher.pl:1389-1473 | one step keeps the lists nonempty with a timeout only at the end, and skipping a known plan leaves the table as it was |
| TestLoopProperties.TableStaysTidy | dbt3_benchmark/launcher.pl:781-784 | so do all runs |
| TestLoopLog.RunsAreNumberedInOrder | dbt3_benchmark/launcher.pl:1434-1496 | despite j-- the run rows are numbered 1..j in order, each start directly followed by its end with the time of that run |
| TestLoopLog.TestStartIsLoggedOnceIff | dbt3_benchmark/launcher.pl:1342-1345 | the test-start row is the first row, and the only one unless the first explanation is empty, that iteration is skipped and another one follows; once the loop has stopped this means MAX_SKIPPED_TESTS above 1 |
| TestLoopLog.WarmupsComeFirst | dbt3_benchmark/launcher.pl:1411-1496 | a run's rows come directly after those of its warm-up runs, in order and numbered from 0; there are such exactly with WARMUP, and with QUERIES_AT_ONCE only before the first run |
| TestLoopLog.WhereNothingIsSkipped | dbt3_benchmark/launcher.pl:1379-1405 | nothing is skipped except in plan analysis without QUERIES_AT_ONCE; without plan analysis every run is listed under no_explain |
| TestLoopStops.StopsIff | dbt3_benchmark/launcher.pl:1394-1533 | after every iteration of every run: with NUM_TESTS set, a run stops the loop exactly when NUM_TESTS runs are done or the clock is past MAX_QUERY_TIME - TIMEOUT; with NUM_TESTS 0 also when a best plan with CLUSTER_SIZE runs has a nonzero mean; a skip exactly at MAX_SKIPPED_TESTS; in the other modes after NUM_TESTS runs |
| TestLoopBounds.AtMostMaxIterations | dbt3_benchmark/launcher.pl:1301-1533 | where the settings count the tests, at most NUM_TESTS + MAX_SKIPPED_TESTS - 1 iterations (each taken as at least 1), without skipping at most NUM_TESTS |
| TestLoopBounds.MaxIterationsIsReached | dbt3_benchmark/launcher.pl:1301-1533 | without a time limit no smaller bound holds: some run, one iteration a second, is that long |
| TestLoopBounds.AtMostTimedIterations | dbt3_benchmark/launcher.pl:1500-1513 | with MAX_QUERY_TIME set, on a clock that advances, at most rate * (MAX_QUERY_TIME - TIMEOUT) + 1 runs that do not stop the loop, the one that does, and MAX_SKIPPED_TESTS - 1 skips |
| TestLoopBounds.ExactlyNumTests | dbt3_benchmark/launcher.pl:1523-1533 | in the two other modes the loop stops after exactly NUM_TESTS iterations, or one |
| TestLoopBounds.BoundedIffAlwaysStops | dbt3_benchmark/launcher.pl:1500-1533 | however many iterations a second fits, their number is bounded exactly when plan analysis has NUM_TESTS >= 1 or a MAX_QUERY_TIME, or one of the two other modes is on instead |
| TestLoopBounds.FinalAnswer | dbt3_benchmark/launcher.pl:1502-1521 | whenever the loop has stopped, whatever stopped it, the reported minimum is the least mean of a timeout-free plan in the history, or -1 |
| MeasuredQuery.MeasureQuery | dbt3_benchmark/launcher.pl:1286-1568 | one query from start to finish, on anything it may observe: it goes on exactly as long as the law of `StopsIff` says and stops within both bounds, every choice is greedy, rows are numbered 1..j; reported is the least mean, or the extremes or the average of exactly NUM_TESTS runs (one when it is 0) |
| MeasuredQuery.SummarizedTimes | dbt3_benchmark/launcher.pl:1523-1533 | what GetMinMax and GetSimpleAverage are given when the loop stops is one list, the times of exactly NUM_TESTS runs in order |
| RunSummaries.OneListOnly | dbt3_benchmark/launcher.pl:1379-1473 | without plan analysis the table holds one list, that of all runs in order |
| RunSummaries.GetMinMax | dbt3_benchmark/launcher.pl:818-848 | the minimum of every list: the least time as soon as one is shorter than the starting value 10000000; otherwise long times are passed over up to the first timeout after the last time equal to it, and the least time after that counts, or -1 without one; the greatest time unless a timeout comes before the first positive time, and then -1 |
| RunSummaries.ShortMinimum | dbt3_benchmark/launcher.pl:822-840 | the least time is reported as soon as one is below 10000000; on 10000000 followed by a timeout it is -1 |
| RunSummaries.GetSimpleAverage | dbt3_benchmark/launcher.pl:851-873 | the mean of the runs before the first timeout; -1 exactly when the first run timed out or there is none |
| BestCluster.GetBestCluster | dbt3_benchmark/launcher.pl:647-709 | the mean of the leftmost longest group without a break inside; 0 for too few results or too small a group; fatal on an empty list that is not too short |
| BestCluster.ScoreGroups | dbt3_benchmark/launcher.pl:669-680 | every score is the length of the maximal group that starts there |
| BestCluster.LeftmostMaximum | dbt3_benchmark/launcher.pl:684-692 | the leftmost greatest score |
| BestCluster.GroupIsUnique | dbt3_benchmark/launcher.pl:684-692 | the chosen group is determined by the results |
| BestCluster.ChosenIsFirstLongest | dbt3_benchmark/launcher.pl:669-692 | what is averaged is the first longest stretch that holds timeouts only if it begins with one and no gap above 1.3 times the average |
| BestCluster.GapsTelescope | dbt3_benchmark/launcher.pl:657-664 | the sum of the gaps is the last result minus the first |
| BestCluster.MeanBetween | dbt3_benchmark/launcher.pl:697-705 | the mean lies between any bounds of the group's results |
| BestCluster.ChosenGroupHasTwoIff | dbt3_benchmark/launcher.pl:663-692 | of two or more results, timeouts included, at least two are averaged exactly when two neighbours differ by at most 1.3 times the average gap and are not a timeout followed by a time |
| BestCluster.ChosenGroupHasTwo | dbt3_benchmark/launcher.pl:663-692 | so of two or more results without timeout, the last not below the first, at least two are averaged |
| BestCluster.FallingPairIsSplit | dbt3_benchmark/launcher.pl:674-676 | of two falling results only the first is averaged |
| RunVmAlarm.AlarmClock.Pass | buildbot/runvm:368-373 | the alarm goes off once its seconds have passed, and never for alarm(0) |
| RunVmAlarm.WaitForUp | buildbot/runvm:432-492 | the answer and the number of probes: up after the first third success in a row, gone when KVM is found dead, timed out when the alarm has gone off |
| RunVmAlarm.StreakOfThree | buildbot/runvm:456-476 | the counter reaches three exactly when the last three probes succeeded |
| RunVmAlarm.UpIff | buildbot/runvm:449-491 | the guest is taken to be up exactly after the first three successes in a row, if KVM lived after all but the last probe and the alarm had not gone off before any |
| RunVmAlarm.WaitTimeIs | buildbot/runvm:446-485 | the time after n probes: the initial sleep, what they took, 0.33 seconds for each success, 2 for each failure |
| RunVmAlarm.SilentGuestIsGivenUp | buildbot/runvm:446-485 | a guest that never answers is given up after exactly half as many probes as seconds remain after the initial sleep, rounded up |
| RunVmAlarm.WaitIsDetermined | buildbot/runvm:432-492 | the schedule determines answer and length of the wait |
| RunVmAlarm.WaitEnds | buildbot/runvm:438-488 | with a startup timeout the wait ends on every schedule, within 100/33 probes a second |
| RunVmAlarm.NoTimeoutNoAnswer | buildbot/runvm:438-488 | with alarm(0) a schedule of probes is waited through exactly when no three in a row succeed and KVM always lives |
| RunVmAlarm.WaitEndsIff | buildbot/runvm:438-488 | the number of probes is bounded if and only if a startup timeout is set |
| RunVmAlarm.ShutdownKvm | buildbot/runvm:363-428 | which loop is left when and why, and whether KVM is then killed |
| RunVmAlarm.WaitForExit | buildbot/runvm:399-421 | the second loop: how many checks it makes, and what they come to |
| RunVmAlarm.ShutdownEnds | buildbot/runvm:376-414 | with a shutdown timeout both loops together complete at most one iteration per second, on every schedule |
| RunVmAlarm.KilledIff | buildbot/runvm:407-421 | SIGKILL is sent exactly when all checks up to the first one after the alarm find KVM running |
| RunVmAlarm.StubbornGuestIsKilled | buildbot/runvm:376-421 | a guest that takes the command and stays is killed after the first check that ends past the timeout, for any duration of command and checks |
| RunVmAlarm.UnreachableGuestIsKilled | buildbot/runvm:376-421 | one that cannot be reached is sent the command up to the timeout, for any duration of the attempts, then checked once and killed |
| RunVmAlarm.NoTimeoutNoEnd | buildbot/runvm:374-414 | with alarm(0) the wait ends exactly when the shutdown command is done with and some later check finds the guest gone |
| RunVmAlarm.ShutdownEndsIff | buildbot/runvm:371-414 | the length of the shutdown wait is bounded if and only if a shutdown timeout is set |
| RunVmCommands.PrintedCommandParsesIff | buildbot/runvm:565-570 | for all five prefixes, any blanks and any text, the printed form is read back exactly when it is unambiguous |
| RunVmCommands.CombinedPrefixesCommute | buildbot/runvm:565-570 | =! and != parse alike before any text |
| RunVmCommands.RunCommands | buildbot/runvm:561-600 | the commands executed, in order, each on the side and with the text its argument names: those marked '!' and those before which every executed one returned 0; the exit status is 0 if all returned 0, otherwise the exit byte of the first that did not, 1 for none |
| RunVmCommands.PrintedCommandRunsThere | buildbot/runvm:565-580 | a command printed with =, =! or != is executed on the host, any other in the guest, with its own text |
| RunVmCommands.ExitByteIsKept | buildbot/runvm:581-597 | the exit byte is kept whatever the low byte; a signal or a failure to spawn counts as 1 |
| RunVmCommands.RunsMeans | buildbot/runvm:571-572 | the commands up to the first nonzero status and those marked run, that is, a command runs exactly when it is marked '!' or no command executed before it failed |
| RunVm.BootOnce | buildbot/runvm:538-550 | how one attempt turns out and what it does before KVM is started |
| RunVm.Boot | buildbot/runvm:537-559 | the retry loop gets the guest up exactly when some attempt within the limit does and all before it failed; otherwise it ends as the first attempt that breaks off says, or with status 1 |
| RunVm.RunVm | buildbot/runvm:537-603 | commands run only after three good probes in a row on the KVM last started, seen alive after every earlier one, in the order and on the side their arguments say; at most max(1, retries) starts, each with the port just found free and from a fresh clone; when the program ends shutdown_kvm has been called after every start; the exit status is that of the commands |
| RunVm.ComesOneWay | buildbot/runvm:538-550 | the observations determine how an attempt turns out |
| RunVm.ComesIff | buildbot/runvm:538-550 | an attempt ends in a failed clone, in a taken port or with the guest up exactly when its observations say so, in this order |
| RunVm.RetriesAreUsedUp | buildbot/runvm:550-559 | if every attempt fails to come up the program exits with status 1 after exactly max(1, retries) attempts |
| RunVm.FirstAttemptDecides | buildbot/runvm:538-550 | a failed clone ends the program with status 1, a taken port lets it die |
| NextBuild.MyNextBuild | buildbot/maria-master.cfg:276-298 | the first of the requests of greatest priority; `PriorityIff` says which that is for every branch |
| NextBuild.PriorityIff | buildbot/maria-master.cfg:284-297 | for every branch: 2 for the hottest tree and every bb-...-release and hf-... name, 1 for the main list and three fixed branches, 0 for all others |
| NextBuild.PickIsUrgentIff | buildbot/maria-master.cfg:276-298 | the build taken next is urgent if any request is, and otherwise for a main branch if any request is |
| NextBuild.UrgentBranches | buildbot/maria-master.cfg:287-292 | every release and hotfix branch has priority 2 |
| NextBuild.MainTreePriorities | buildbot/maria-master.cfg:284-293 | among the main trees release branches have priority 2, plain branches and main 1 like the connector branches, the columnstore and all-builders branches 0 |
| RequestQueue.FirstInFirstOut | buildbot/maria-master.cfg:276-298 | over every run, from any state, and for every priority: served, then waiting, is what was served and waited at the start, then what arrived, in this order |
| RequestQueue.CanBeFollowed | buildbot/maria-master.cfg:276-298 | every request can be followed until it is served or the run is over |
| RequestQueue.WaitIsExact | buildbot/maria-master.cfg:276-298 | while a request waits, from any moment of a run on, the picks so far and the requests still ahead are the A ahead at that moment and the H later ones of higher priority |
| RequestQueue.PickedIffNothingAhead | buildbot/maria-master.cfg:295-297 | a request is picked exactly when nothing is ahead of it |
| RequestQueue.ServedAfterExactly | buildbot/maria-master.cfg:276-298 | a request that is followed until it is served was preceded by exactly A + H picks |
| RequestQueue.JustArrived | buildbot/maria-master.cfg:276-298 | for a request that has just arrived, A counts the waiting ones of at least its priority |
| RequestQueue.ArrivalWaitsExactly | buildbot/maria-master.cfg:276-298 | every request that arrives during a run can be followed until it is picked or the run is over; the picks since then and the requests still ahead are the A of at least its priority that waited when it came and the H later ones of higher priority |
| RequestQueue.ArrivalIsServedAfter | buildbot/maria-master.cfg:276-298 | between its arrival and the pick that serves it lie exactly A + H picks |
| Decimal.ParseDec | buildbot/maria-master.cfg:305 | int() reads back what str() printed |
| Versions.FindVersionIff | buildbot/maria-master.cfg:304-305 | the search finds exactly the numbers of the leftmost longest match, and nothing exactly when there is no match |
| Versions.NamedVersionIsFound | buildbot/maria-master.cfg:302-305 | in a name like bb-M.m-release the version found is (M, m), for all numbers |
| Versions.NamedBranchReachesIff | buildbot/maria-master.cfg:302-306 | a branch named after M.m reaches a version exactly when that is at most (M, m), compared as numbers |
| Versions.VersionlessReachesNone | buildbot/maria-master.cfg:302-306 | a branch without digits reaches no version, except main, which reaches all |
| Versions.VerGeIsAntitone | buildbot/maria-master.cfg:302-305 | who reaches a version reaches all lower ones |
| Versions.TreesFromContains | buildbot/maria-master.cfg:308-313 | a list holds exactly the branches that reach its version |
| Versions.TreesAreNested | buildbot/maria-master.cfg:308-313 | the list of a higher version is cut out of that of a lower one |
| Versions.MainTreesByVersion | buildbot/maria-master.cfg:81-84 | every main tree is 10.6 or later, and 10.11+ leaves out exactly the trees of 10.6 and 10.10 |
| Versions.TriggersFormThreshold | buildbot/maria-master.cfg:1440-1471 | the v+ schedulers a branch triggers are those up to a threshold and the not-v+ ones those above it; mainonly-v+ is triggered by the main trees that trigger v+ |
| Versions.TriggersIff | buildbot/maria-master.cfg:307-316 | kvm-sched-mainonly runs exactly main, the main branches and their release, columnstore and all-builders branches; -mainonly-v those that reach v and have it in their name |
| Versions.MainTreesTriggerUpTo10_6 | buildbot/maria-master.cfg:1440-1455 | mainonly-v+ is triggered together with mainonly for every v up to 10.6 |
| Versions.DeadSchedulers | buildbot/maria-master.cfg:1452-1457 | mainonly-10.3 and mainonly-10.2 are never triggered |
| BuilderOrder.AnswersAreSafe | buildbot/maria-master.cfg:1149-1154 | the comparator contradicts itself exactly on two idle entries or two with key 0, yet each answer respects the wanted order |
| BuilderOrder.LinkedIsOrdered | buildbot/maria-master.cfg:1149-1157 | whatever comparisons a sort asks for, galloping or not, an output whose neighbours are linked by chains of answers is in the wanted order, although the answers contradict each other |
| BuilderOrder.LinkedTarballFirstIdleLast | buildbot/maria-master.cfg:1127-1157 | such an output too has the tarball builder first and the idle builders last |
| BuilderSort.SortIsLinked | buildbot/maria-master.cfg:1155-1157 | every two entries of the sort's output are linked by a chain of the answers it was given |
| BuilderSort.SortIsRight | buildbot/maria-master.cfg:1155-1157 | for every list and every way of finding and merging runs, from either end and galloping, the sort yields a permutation in the wanted order, builders of equal time in their own order |
| BuilderSort.TarballFirstIdleLast | buildbot/maria-master.cfg:1127-1136 | the tarball builder comes first and the idle builders come last |
| BuilderSort.OldestRequestFirst | buildbot/maria-master.cfg:1127-1157 | the others come out by the time of their oldest request |
| Ports.Allocator.Getport | buildbot/maria-master.cfg:1216-1219 | the port as a numeral, or an error before the first BuildFactory |
| Ports.Allocator.NewFactory | buildbot/maria-master.cfg:1221-1223 | the next getport is to take a new port |
| Ports.SamePortIff | buildbot/maria-master.cfg:1216-1226 | two getports agree exactly when no BuildFactory is between them; otherwise the later is greater |
| Ports.PortsAreConsecutive | buildbot/maria-master.cfg:1216-1226 | ports are handed out one after the other from 2223 on, a new one to each getport directly after a BuildFactory |
| Ports.PidFilesAreKeyedByFactory | buildbot/runvm:525-528 | pid files of different factories differ, those of one factory agree |
| LockHash.PadIsGroupAndPlace | gdb-helpers/innodb.gdb:37 | the padded index has quotient h / E and remainder L + h % E modulo L + E + S |
| LockHash.SlotHoldsCellIff | gdb-helpers/innodb.gdb:37 | a slot holds a cell exactly when it is neither latch nor filler, and the cell can be computed back |
| LockHash.PadIsIncreasing | gdb-helpers/innodb.gdb:37 | padding is strictly increasing |
| LockHash.FoldsMeetIff | gdb-helpers/innodb.gdb:35 | two pages have the same fold exactly when their tablespace and page numbers make up for each other, so those of one tablespace never do |
| LockHash.CellsDifferAsFoldsDo | gdb-helpers/innodb.gdb:35-36 | with more cells than folds, two cells differ in the bits in which the folds differ, and a page of fold 1653893711 is in cell 0, so the cell has the bits in which the fold differs from that number |
| LockHash.CellIsRemainder | gdb-helpers/innodb.gdb:36 | with any other number of cells the cell is the remainder of that one |
| LockHash.SlotIsOfCell | gdb-helpers/innodb.gdb:36-38 | the walk starts at the slot of that cell, behind the latches of its group |
| LockHash.GetLockRecForPage | gdb-helpers/innodb.gdb:45-57 | the walk prints the locks of the page in its chain, in order |
| LockHash.OnPageAdds | gdb-helpers/innodb.gdb:50-56 | what is printed keeps the order of the chain |
| LockHash.OneChainHasThemAll | gdb-helpers/innodb.gdb:45-57 | in a table whose locks hang where they hash to, that one walk finds all locks of the page |
| GaleraIndex.BuildIndex | buildbot/collect_latest_galera.sh:9-20 | a name is linked exactly when a revision without "latest" in its name has it, to the newest such revision; no link points to a revision with "latest" in its name |
| GaleraIndex.NoLinkIntoLatest | buildbot/collect_latest_galera.sh:12-24 | so nothing is linked into latest or latest.old |
| GaleraIndex.IndexIsUnique | buildbot/collect_latest_galera.sh:11-20 | the revisions determine the index |
| GaleraIndex.SafeThroughoutIff | buildbot/collect_latest_galera.sh:9-26 | a complete index exists at every step of a run exactly when latest or latest.old is complete at its start |
| GaleraIndex.WholeRun | buildbot/collect_latest_galera.sh:9-26 | a run that is not cut short leaves the new index in latest and the one before in latest.old, wherever it began |
| GaleraIndex.RunCanFinish | buildbot/collect_latest_galera.sh:9-26 | there is such a run from wherever the script begins |
| GaleraIndex.OneInterruptionIsHarmless | buildbot/collect_latest_galera.sh:9-26 | a run that begins with a complete latest leaves a complete latest or latest.old wherever it is cut short |
| GaleraIndex.TwoInterruptionsCanLoseTheIndex | buildbot/collect_latest_galera.sh:9-26 | two interruptions in a row can leave no complete index |

## Left out

- launcher.pl with `--dry-run`, with RUN off or with PostgreSQL: the loop never stops, records nothing, or never analyses plans.
- RunSummaries.GetMinMax: one list of times, as these modes keep; with several lists the maximum would depend on the hash order.
- TestLoopBounds.AtMostTimedIterations: how many iterations fit into a second is a parameter; it is 1 where every iteration restarts the server, which takes a second.
- PlanTable.PlanKeysAgreeIff: no column holds a tab, as after `split`; that `mysql -t` writes none is taken for granted.
- Reading the EXPLAIN file and splitting it into lines and tab-separated columns: a plan is given as its columns.
- Perl's floating-point rounding, in the means and in the factor 1.3.
- RunVmAlarm.WaitForUp: a failing fork, and a pid file that does not exist yet when KVM is first checked, which counts as whatever the check says.
- RunVmAlarm.ShutdownKvm: which process is signalled when no pid is known, and the ten checks after SIGKILL, which only decide about a message.
- The management process of runvm and its SIGCHLD handler, which reaps any child; copying the work image back depends on it.
- RunVm.BootOnce: whether the pid file is stale, and thus which process a stray shutdown is aimed at.
- RunVm.RunVm: a shutdown is one event; how it goes is the subject of `ShutdownKvm`, and that KVM is gone afterwards is not guaranteed by the code.
- Opening the KVM log, the command lines of ssh, qemu-img and kvm, and option parsing.
- A request without a branch, on which `fnmatch` fails in `myNextBuild`.
- BuilderSort.SortIsRight: how galloping searches; it may stop wherever an answer allows it to. Nor which runs Python chooses to merge: every choice is covered.
- The other walks of innodb.gdb (by heap number, by cell, transactions, pages, undo logs): the same loop with another filter, or memory layout.
- The contents of directories other than the index, and failures of rm, ln and mv.
- The buildbot builders and steps, the shell scripts embedded in them, runvm-arm64 and runvm-power8, and the reporting scripts.

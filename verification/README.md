# A verified model of ntfc's core algorithms

`ntfc` runs tests on embedded devices: it builds configurations, talks to consoles, watches the
health of devices, collects core dumps, runs several sessions at once and adds up their reports.
This project models the parts of it that are algorithms and protocols, and proves what they promise.

| file | what it models |
|---|---|
| `Common.dfy` | optional values, substring search, stripping, Python's stable `sorted` |
| `Numerals.dfy` | numbers as text: what Python writes for one and what its `int` takes for one |
| `Scheduler.dfy` | the parallel session runner as a step system: one program counter a worker, the lock owners, the fail event, the results in order of completion |
| `MultiRunner.dfy` | the manifest parser, the sequential run and the exit code of its results |
| `MultiRun.dfy` | the build phase with its cache of built configurations, and the whole run on top of it |
| `CommandPattern.dfy` | a small regular-expression language with leftmost backtracking search, and the patterns compiled from expected strings |
| `ProductCore.dfy` | `sendCommand` on top of the compiled pattern and the read loop |
| `Device.dfy` | the health state with its guarded transitions, the capped output tail, `_read_all` and the pattern loop |
| `Heartbeat.dfy` | the heartbeat monitor, as an object and as interleaved steps of several threads |
| `Kconfig.dfy` | rewriting, reading and checking a `.config` file |
| `CoreConfig.dfy` | the typed loader of the same file |
| `Coredump.dfy` | `str.splitlines`, the marker scan and the payload extraction |
| `SyslogHandler.dfy` | the `ZV` block stream, and the collection from console tail to core file |
| `CorefileLedger.dfy` | the corefiles recorded by the GDB reader and handed out by two calls |
| `LogCleanup.dfy` | which session directories are removed |
| `ConfigMerge.dfy` | overlaying nested configuration mappings |
| `Reports.dfy`, `ReportSummary.dfy` | merging, splitting and counting JUnit reports as trees |

Code that changes fields or loops over collections is written as classes and methods, each tied to a
specification function or predicate; what the code promises is then proved about those. Threads are
modelled as steps: a run is a sequence of states, every statement about a run is about all of them,
and everything under one lock is one step. Devices, clocks and other programs are arbitrary traces
or function parameters.

## What was found

Some properties one would expect do not hold of the code. Each is stated here with the lemma that
shows it, and beside it stands what does hold.

- **A heartbeat reset can be lost.** `enable_heartbeat` stores 0 without taking the lock
  (src/ntfc/device/heartbeat.py:151-154), so an increment in progress can write the old count back.
  `EnableCanBeLost` is such a run, in which a busy loop is requested too early. `CounterRightIff`: the
  counter is right throughout a run iff no enable falls between a check reading a positive count and
  writing it back. It never falls short (`CounterAtLeast`).
- **The wired heartbeat reports a busy loop only when the threshold is not above the number of its
  threads**, normally one. Its own send function ends with `mark_command_end`, which zeroes the counter.
  `WiredRequestsIff`: with `n` threads and the threshold `t` some run requests BUSY_LOOP iff `n > 0` and
  `t <= n`. A second thread can be left over from a stop whose join timed out
  (src/ntfc/device/heartbeat.py:187-201); two threads do reach the threshold 2 (`WiredTwoThreads`).
- **CRASHED is not a final state.** `CrashedOverReadIff`: over a read a crashed device stays crashed iff a
  timeout is not followed by a flood and every call that falls silent is followed by another crash.
  `FloodOverwritesCrash` and `SilenceOverwritesCrash` are reads that leave it UNHEALTHY and in BUSY_LOOP.
- **An appended override is lost after an unterminated last line.** `RoundTripIffIntact`: the rewritten
  `.config` reads back as requested iff it is `Intact`, that is, empty or ended by a newline, or its
  last line is itself replaced, or nothing has to be appended. `UnterminatedLosesOverride` is a file that is
  not. For such files a second rewrite still changes something (`IdempotentIffIntact`).
- **Negative integers come back as text** from the typed loader (`IntegersSurviveIff`).
- **match-any can report NOTFOUND for an expected reply** that contains the device's not-found text
  (`ExpectedReplyReportedNotFound`). `NotFoundIsTrueIff`: its NOTFOUND can be trusted iff every expected
  string that holds that text comes after another one that is a prefix of it.
- **`generate_coredump` can hand out a file a second time** although its documentation promises that
  each file is handed out at most once; `GenerateRepeatsIff` says exactly when, `GenerateMayRepeat` is
  a run. `wait_corefile` never does (`NeverHandedOutTwice`).
- **An empty compressed block ends the decoding of a coredump**, because the decompressor takes "nothing
  written" for an error. `EmptyBlockEndsStream` is such a stream, `DecodesToContentsIff` the exact condition.
- **A configuration file that is skipped as invalid may have been applied in part**, since the merge
  updates in place, key by key. `FailedOverlayUndoneIff`: it changes nothing iff every key before the first
  one that clashes is in the base already and its merge changes nothing there, and the clashing key's own
  mapping, in the same way, leaves no trace. So the order of the keys in the file decides:
  `FailedOverlayLeavesTraces` is one file in two orders, and `UndoneInEveryOrderIff` says which files are
  harmless in every order; `FailedFileIsHalfLoaded` is about the loader. An empty mapping laid over a
  scalar is not an error and keeps the scalar.
- **A space at the end of a line hides its coredump data**, which is looked for after the last space
  (`TrailingSpaceHidesData`).
- **A session can be run with another session's configuration.** The build cache hands out the whole
  configuration of the first session with the same key (src/ntfc/multi.py:455-460), although sessions that
  differ in `loops` or `timeout` are documented to share the build only
  (Documentation/multi-session.rst:195-196). `AllRunOwnIff`: every session runs with its own configuration
  iff all sessions with the same key have the same one, apart from the default of `loops` and images that
  are built anyway. `ReuseLosesLoops` is a session whose own `loops` are dropped; `ReadyMadeShareOne`:
  sessions on ready-made images all run on those of the first one.
- **Testcases can be lost on the way to the merged report.** `MergeKeepsCasesIff`: those outside a
  `testsuite` below the root are, `MisplacedCaseIsLost` is one. `MergeDir`: a report reaches the merged
  one whole iff it holds no testcase, or it can be read, was not split before by its session's own summary,
  and is well placed. Every session is summarised at its end (src/ntfc/pytest/runner.py:117-119), which
  removes the report, so that nothing reaches the merge is the normal path. `MergeSplitSummarise` is about
  the sessions' own reports, seen by the merge or not: the final summary never shows more tests than they
  hold, and as many iff every report with testcases is seen and has none of them out of place.
- **Errors are counted as passes** by both summarisers: a report of mere errors is shown as all passes
  (`ErrorsCountAsPasses`). `ReportPassesIff`: the passes shown are those that passed plus the surplus of
  each module, its mere errors less its testcases that both failed and were skipped; `ModulePassesIff` says
  when a module shows no surplus.
- **The two summarisers differ on test suites nested in a testcase** (`NestedSuiteCounts`,
  `SummariesAgreeIff`).

## Model

| member | source | states |
|---|---|---|
| `Scheduler.ReachableInv` | src/ntfc/multi.py:592-609 | in every state of every run the owner map says exactly who holds what, the event is set exactly by failures that were signalled under fail_fast, and each result is collected once |
| `Scheduler.NoDeadlock` | src/ntfc/multi.py:592-609 | in every reachable state with an unfinished session some worker can take a step: locks are taken in one global order |
| `Scheduler.MutualExclusion` | src/ntfc/multi.py:592-609 | two sessions that share a resource are never both running, in any reachable state |
| `Scheduler.FailFastStopsSharers` | src/ntfc/multi.py:514-539 | under fail_fast, once a session has failed, every session sharing a resource with it that had not started never runs; when it ends it was skipped |
| `Scheduler.SkippedHasWitness` | src/ntfc/multi.py:514-539 | every skipped session has another one that really ran and failed, and nothing is skipped without fail_fast |
| `Scheduler.RunsAreBounded` | src/ntfc/multi.py:592-619 | every run has at most as many steps as the initial measure, so no run goes on forever |
| `Scheduler.StuckMeansFinished` | src/ntfc/multi.py:592-619 | a run that can go no further has finished every session and freed every lock, and has all results unless a session raised |
| `Scheduler.EndedIff` | src/ntfc/multi.py:533-545 | in every state of every run a worker has ended with an exit code or an exception iff an earlier step ended its session with just that |
| `Scheduler.EndsOnce` | src/ntfc/multi.py:533-545 | no session ends in two ways |
| `Scheduler.AnySessionMayEnd` | src/ntfc/multi.py:526-545 | whenever a session runs it may end with any exit code or exception, and only then |
| `Scheduler.ParallelRunInManifestOrder` | src/ntfc/multi.py:611-625 | whatever the order of completion, the parallel run returns one result for each session, in manifest order |
| `Scheduler.SortByManifestRestores` | src/ntfc/multi.py:621-623 | sorting results by manifest position restores manifest order, given unique names |
| `MultiRunner.ParseSession` | src/ntfc/multi.py:142-184 | an entry is accepted, or rejected with the first error in the order of the checks; the set of names grows by its name |
| `MultiRunner.ParseSessions` | src/ntfc/multi.py:186-201 | a manifest is accepted iff it is a non-empty list of usable entries with distinct names; the first faulty entry decides the error |
| `MultiRunner.NoErrorsMeansAcceptable` | src/ntfc/multi.py:143-201 | checking entry by entry against the entries before it is the same as all entries being usable with pairwise distinct names |
| `MultiRunner.EntryIsRead` | src/ntfc/multi.py:174-184 | an entry with given fields, missing ones counting as None, is read as the session configuration of those fields |
| `MultiRunner.FaultsInOrder` | src/ntfc/multi.py:151-172 | of several faults of an entry the one reported is about its name, a repeated name, confpath, testpath and resources, in this order |
| `MultiRunner.RunSequential` | src/ntfc/multi.py:547-568 | the loop yields what the sequential run is specified to yield, exceptions included |
| `MultiRunner.SequentialRunIsPrefix` | src/ntfc/multi.py:547-568 | the results are those of a prefix of the manifest, the whole of it unless its last result is the first failure under fail_fast |
| `MultiRunner.SequentialRunRaisesIff` | src/ntfc/multi.py:547-568 | the run raises iff an exception comes before any fail_fast stop |
| `MultiRunner.SequentialPassIff` | src/ntfc/multi.py:280-284 | all exit codes of a sequential run are zero iff every session ran and exited with 0 |
| `MultiRunner.ParallelPassIff` | src/ntfc/multi.py:280-284 | a completed parallel run returns, in manifest order, the exit code that the step ending each session carried, and -1 for a session without such a step; all are zero iff every session was ended with 0 |
| `MultiRunner.AbortedIff` | src/ntfc/multi.py:614-619 | the main thread sees an exception iff some session ended with one |
| `MultiRun.Run` | src/ntfc/multi.py:256-284 | in sequential mode the run returns 0 iff every configuration could be loaded, every build that is needed succeeded, and every session ran and exited with 0; it raises iff a configuration cannot be loaded before a build fails, or all are built and a session raises before a fail_fast stop |
| `MultiRun.RunParallel` | src/ntfc/multi.py:256-284 | in parallel mode, for an accepted manifest and every run of the workers, raising sessions included: it returns 0 iff the build is complete and every session is ended by a step with exit code 0, and raises iff a configuration cannot be loaded or, after a complete build, some session is ended by an exception; the results carry the codes of those steps |
| `MultiRunner.SchedulableNamesAreUnique` | src/ntfc/multi.py:158-160 | the unique names of an accepted manifest are what the ordering of the results rests on |
| `BuildPhase.PhaseBuild` | src/ntfc/multi.py:438-485 | the loop with its cache ends with a configuration for every session, that of the first session with its key, or with the first trouble: a configuration that cannot be loaded or a build that fails |
| `BuildPhase.FirstTroubleIff` | src/ntfc/multi.py:451-483 | the phase fails at the first session that cannot be loaded, or whose build is needed, not done for an earlier session with its key, and raises |
| `BuildPhase.EachKeyBuiltOnce` | src/ntfc/multi.py:455-473 | the builder runs at most once for each key, for the first session that has it |
| `BuildPhase.BuiltImagesAreUsed` | src/ntfc/multi.py:465-485 | after a complete phase a session that needs a build is run with the images built for the first session with its key, any other with the images of that session |
| `BuildPhase.SettingsAreOverlaid` | src/ntfc/multi.py:203-223 | of each of `loops`, `timeout` and `timeout_session` the session's own value comes before that of the file, `loops` is 1 by default, and nothing else is changed |
| `BuildPhase.AllRunOwnIff` | src/ntfc/multi.py:455-460 | every session is run with its own configuration iff all sessions with the same build key have the same one, up to the default of `loops` and the paths of images that are built |
| `BuildPhase.KeyIgnoresTheRest` | src/ntfc/multi.py:407-436 | the key depends on the defconfigs, `build_env` and `kv` only, not on test settings, images or what else a core has |
| `BuildPhase.SameKeyIff` | src/ntfc/multi.py:407-436 | two configurations, with product names of their own, have the same key iff they have the same defconfigs and the same texts of `build_env` and `kv` |
| `BuildPhase.EmptyKeyIff` | src/ntfc/multi.py:407-436 | a configuration has the empty key iff it has no defconfig, no `build_env` and no `kv` |
| `BuildPhase.ReadyMadeShareOne` | src/ntfc/multi.py:455-460 | sessions with the empty key are all run with the configuration of the first one, its images included |
| `BuildPhase.ReuseLosesLoops` | src/ntfc/multi.py:214-221 | a session with its own `loops` on the file of an earlier session is run with the loops of that one |
| `Regex.SearchIsLeftmost` | src/ntfc/command_builder.py:201-206 | the search finds the leftmost start that matches and nothing only when there is none |
| `Regex.DownIsGreedy` | src/ntfc/command_builder.py:205 | `.*` tries the end of the text first and gives back one character at a time |
| `CommandPattern.MatchAllAccepts` | src/ntfc/command_builder.py:184-206 | a match_all pattern is found iff every expected string or the not-found text occurs |
| `CommandPattern.AnchoringChangesNothing` | src/ntfc/command_builder.py:200-205 | the anchored conjunction of lookaheads accepts exactly the buffers the unanchored one accepts |
| `CommandPattern.MatchAllSpan` | src/ntfc/command_builder.py:184-206 | what a match_all search finds: the empty match at 0 if nothing is missing, otherwise the leftmost not-found text |
| `CommandPattern.MatchAnyAccepts` | src/ntfc/command_builder.py:184-206 | a match-any pattern is found iff some expected string or the not-found text occurs |
| `CommandPattern.MatchAnySpan` | src/ntfc/command_builder.py:184-206 | what a match-any search finds: the leftmost alternative, on a tie the one earliest in the list |
| `CommandPattern.FailPatternAccepts` | src/ntfc/command_builder.py:248-264 | a failure pattern is found iff some failure string occurs |
| `ProductCore.NotFoundIsRecognised` | src/ntfc/core.py:121-128 | the compiled not-found text is recognised as such after stripping, the empty match is not |
| `ProductCore.MatchNotFoundIff` | src/ntfc/core.py:121-128 | for any match and any device: a match is taken for a not-found reply iff the device's text occurs in it with something other than blanks at or before its start and at or after its end |
| `ProductCore.InsideIffContained` | src/ntfc/core.py:121-128 | for a text without blanks at its ends, as both shipped ones, that is: iff it occurs |
| `ProductCore.ShippedNoCmdsAreUsable` | src/ntfc/device/nuttx.py:79-85 | the not-found texts of the shipped systems have no blanks at their ends, which is more than this needs |
| `ProductCore.MatchAllVerdict` | src/ntfc/core.py:184-204 | for match_all the status is FAILED iff a failure string occurs in the window, otherwise SUCCESS iff every expected string does, NOTFOUND iff one is missing and the not-found text is there, and TIMEOUT else |
| `ProductCore.MatchAnyVerdict` | src/ntfc/core.py:184-204 | the same for match-any, decided by the leftmost alternative: NOTFOUND iff the not-found text of the device occurs inside it, SUCCESS iff it does not |
| `ProductCore.MatchAnyDecides` | src/ntfc/core.py:184-204 | without a failure string, and with such a text: match-any reports NOTFOUND if the leftmost alternative contains it, and SUCCESS if not |
| `ProductCore.PromptIsSuccess` | src/ntfc/core.py:381-418 | a prompt that is waited for with match-any, as in switching cores, is a success |
| `ProductCore.SendCommand` | src/ntfc/core.py:184-204 | end to end: the status is that of the window of the round that ends the read loop, no earlier round would have ended it, after a timeout the flood phase ends at the first call without data, and state, tail, activity and heartbeat are left as all calls made leave them |
| `ProductCore.PreparedWords` | src/ntfc/command_builder.py:139-182 | the prepared line split at blanks is the command and its arguments in order, and a not-found reply is expected for the command alone |
| `ProductCore.MatchAnyByPosition` | src/ntfc/core.py:184-204 | if the not-found text of the device occurs inside no expected string, match-any reports NOTFOUND iff the compiled not-found text comes before every expected string |
| `ProductCore.NotFoundIsTrueIff` | src/ntfc/core.py:121-128 | NOTFOUND always means that the not-found text came first iff every expected string in which the device's text occurs has an earlier expected string as a prefix |
| `ProductCore.ExpectedReplyReportedNotFound` | src/ntfc/core.py:121-128 | an expected string that contains the not-found text is reported as NOTFOUND although it was found |
| `DeviceHealth.DeviceStateManager.TransitionTo` | src/ntfc/device/state.py:316-339 | the guarded transition changes state and crash type as the step function says |
| `DeviceHealth.DeviceStateManager.DetectCrashType` | src/ntfc/device/state.py:278-292 | the type of the first group, in order of registration, with a signature in the output; none iff no signature occurs |
| `DeviceHealth.DeviceStateManager.CheckCrash` | src/ntfc/device/state.py:294-314 | reports a crash iff a signature occurs, and then makes the guarded transition to CRASHED with that type |
| `DeviceHealth.DeviceStateManager.CheckBusyLoopTimeout` | src/ntfc/device/state.py:257-276 | reports a busy loop iff there was activity and it is longer ago than the threshold |
| `DeviceHealth.FirstCrashTypeSticks` | src/ntfc/device/state.py:294-314 | repeated crash reports keep the type of the first one |
| `DeviceHealth.CrashTypeOfEpisode` | src/ntfc/device/state.py:316-339 | whatever came before, the crash type is the one reported when the present crash began |
| `DeviceHealth.StateIsLastAsked` | src/ntfc/device/state.py:219-228 | after any operations the state is the one asked for last, and a reset leaves nothing of what was before |
| `DeviceHealth.FaultIffNotNormal` | src/ntfc/device/state.py:150-161 | every state but NORMAL counts as unhealthy |
| `DeviceReading.CrashedOverCallIff` | src/ntfc/device/common.py:180-218 | over one call of `_read_all` a crashed device stays crashed iff no empty read without a signature comes later than the last activity plus the busy-loop threshold |
| `DeviceReading.CrashedOverReadIff` | src/ntfc/device/common.py:253-328 | over a whole read it stays crashed iff a timeout is not followed by a flood and every call that falls silent is followed by one that shows a crash |
| `DeviceReading.CrashedLoopIsOneRound` | src/ntfc/device/common.py:305-307 | on a device in any state but NORMAL the matching phase is one round |
| `DeviceReading.SilenceOverwritesCrash` | src/ntfc/device/common.py:199-205 | a read in which a crashed device is taken for a busy loop |
| `DeviceReading.LastNOfLastN` | src/ntfc/device/common.py:96-121 | capping after every append loses nothing: the tail is always the end of the whole log |
| `DeviceReading.LastActivityIs` | src/ntfc/device/common.py:180-218 | the last activity is that of the last read with data |
| `DeviceReading.LimitsAre` | src/ntfc/device/common.py:54 | the tail keeps the last 4 MiB, a search sees the last 100000 characters |
| `DeviceReading.DeviceCommon.OutputTailAppend` | src/ntfc/device/common.py:96-121 | the tail stays the last 4 MiB of everything appended since the last reset |
| `DeviceReading.DeviceCommon.ReadAll` | src/ntfc/device/common.py:180-218 | for every trace: the call ends at the first read after which a signature shows, the device has been silent too long or the time is up; what is returned and what the tail gains is what was read; the state becomes CRASHED with the type found, BUSY_LOOP, or stays, and activity resets the heartbeat |
| `DeviceReading.DeviceCommon.ReadUntilVerdict` | src/ntfc/device/common.py:253-307 | for every trace, with `_read_all` called in every round: the first round whose window (the last 100000 characters of all output so far) matches, or that is late, or that leaves the device unhealthy, ends the loop; its window decides the status, failure winning over success; the state is what the calls made have left |
| `DeviceReading.DeviceCommon.ReadUntilPatternLoop` | src/ntfc/device/common.py:253-328 | the composed read: the final state is what all calls of the rounds and of the flood phase have left, marked UNHEALTHY exactly after TIMEOUT with data in every flood-phase call |
| `DeviceReading.FloodIff` | src/ntfc/device/common.py:310-328 | the phase is a flood if it ends before a call without data, and none if such a call comes first |
| `DeviceReading.DeviceCommon.SendCmdReadUntilPattern` | src/ntfc/device/common.py:330-378 | the same for a command, with the call that drops old output, the first response and the command marks around it; the tail gains exactly what all these calls have read |
| `DeviceReading.PendingIsDropped` | src/ntfc/device/common.py:360-378 | a command's matching starts with what was read after the pending output, which is dropped |
| `DeviceReading.PreliminariesAreCalls` | src/ntfc/device/common.py:360-378 | the two calls before it leave what any two calls in a row leave |
| `DeviceReading.SignatureEndsLoop` | src/ntfc/device/common.py:305-307 | a crash signature in what the call of one round has read ends the loop in that round at the latest, with the device crashed |
| `DeviceReading.FloodOverwritesCrash` | src/ntfc/device/common.py:308-328 | a read in which a crashed device becomes UNHEALTHY |
| `Heartbeat.HeartbeatMonitor.MonitorLoop` | src/ntfc/device/heartbeat.py:203-256 | over any number of turns checks are at least the interval apart, end to start, and never begin in a command or on an unhealthy device; a turn is skipped only for one of these reasons; BUSY_LOOP is requested in exactly the turns whose check fails and brings the count to the threshold |
| `Heartbeat.CountIs` | src/ntfc/device/heartbeat.py:203-336 | that count is the number of checks since the last activity or success, all of which failed; in the wired form it is at most 1 |
| `Heartbeat.HeartbeatMonitor.CheckHeartbeat` | src/ntfc/device/heartbeat.py:258-336 | an undisturbed check is the sequence of protocol steps of one check, and BUSY_LOOP is requested iff it failed and the counter reaches the threshold |
| `HeartbeatProtocol.CounterAtLeast` | src/ntfc/device/heartbeat.py:104-158 | over every interleaving the counter never falls short of the failed checks since the last success or reset |
| `HeartbeatProtocol.CounterRightIff` | src/ntfc/device/heartbeat.py:104-158 | the counter equals that number in every state of a run iff no enable falls between a check reading a positive count and writing it back |
| `HeartbeatProtocol.EnableCanBeLost` | src/ntfc/device/heartbeat.py:151-154 | a run in which an enable is undone and BUSY_LOOP is requested after one failed check under the threshold 2 |
| `HeartbeatProtocol.BusyLoopOnlyAtThreshold` | src/ntfc/device/heartbeat.py:311-336 | BUSY_LOOP is requested only for a failed check of its own, no other check of the same thread lying between, that brought the counter to the threshold or above; where the counter is right that is the number of failed checks since the last success or reset |
| `HeartbeatProtocol.WiredCounterAtMostThreads` | src/ntfc/device/common.py:69-73 | with the device's own send function the counter never exceeds the number of monitor threads |
| `HeartbeatProtocol.WiredNeverRequestsBusyLoop` | src/ntfc/device/common.py:69-73 | so under thresholds above that number it never requests BUSY_LOOP |
| `HeartbeatProtocol.WiredRequestsIff` | src/ntfc/device/common.py:69-73 | with `n` threads and the constant threshold `t` some wired run requests BUSY_LOOP iff `n > 0` and `t <= n` |
| `HeartbeatProtocol.WiredSingleThread` | src/ntfc/device/common.py:69-73 | with one thread the counter is at most 1 and a threshold above 1 is never reached |
| `HeartbeatProtocol.WiredTwoThreads` | src/ntfc/device/heartbeat.py:187-201 | two threads, one left over from a join that timed out, reach the threshold 2 |
| `Lines.ReadGivesLines` | src/ntfc/builder.py:335-337 | reading a file into lines and writing them gives the file back |
| `KconfigLine.FormattedLineSets` | src/ntfc/builder.py:225-247 | a formatted override is one line, and both lexers take the requested value from it |
| `KconfigLine.WrittenAsItStandsIff` | src/ntfc/builder.py:225-247 | a text is written without quotes iff it is "y" or "m", is quoted already, starts with "0x" or consists of digits; "n" is written as a comment |
| `KconfigLine.DisabledKeyIff` | src/ntfc/builder.py:47-49 | the pattern of the "not set" comments accepts exactly the lines of a `#`, blanks, a symbol, blanks, the words and anything after them |
| `KconfigLine.AssignedIff` | src/ntfc/builder.py:50 | the pattern of the assignments accepts exactly a symbol, `=` and the value |
| `KconfigLine.KeyExamples` | src/ntfc/builder.py:47-50 | symbols are case-sensitive, need something after the prefix and hold no other characters |
| `LineRewriting.RewriteThenRead` | src/ntfc/builder.py:350-361 | for any pair of lexers that agree: after the rewrite the reader sees the wanted values and everything else as before |
| `KconfigFile.ReplaceKconfigLine` | src/ntfc/builder.py:366-384 | a line is replaced iff it sets an overridden key, by the line of that key |
| `KconfigFile.ApplyKconfigOverrides` | src/ntfc/builder.py:328-364 | the loops compute the rewritten file |
| `KconfigFile.ReadKconfigValues` | src/ntfc/builder.py:249-267 | the loop computes, for each symbol, the value of the last line that sets it |
| `LineRewriting.ValuesIff` | src/ntfc/builder.py:249-267 | a symbol has a value iff the last line that sets the symbol gives it that value |
| `KconfigFile.RewriteThenReadBack` | src/ntfc/builder.py:249-267 | after rewriting an intact file every override reads back as requested and every other key as before |
| `KconfigFile.RoundTripIffIntact` | src/ntfc/builder.py:359-364 | the round trip holds iff the file is intact |
| `KconfigFile.NotIntactLosesOverride` | src/ntfc/builder.py:359-364 | otherwise the first appended override is not seen by the reader |
| `KconfigFile.UnterminatedLosesOverride` | src/ntfc/builder.py:359-364 | a file of one unterminated line, for which the appended override is not read back |
| `KconfigFile.IdempotentIffIntact` | src/ntfc/builder.py:328-384 | rewriting twice equals rewriting once, also with several lines for one symbol, iff the file is intact |
| `KconfigFile.CheckKconfigOverrides` | src/ntfc/builder.py:285-326 | an override is reported iff it is missing and does not ask for "n", or the file has another text for it and the two are not integer literals of the same number |
| `KconfigFile.AcceptConfiguration` | src/ntfc/builder.py:285-326 | nothing is reported iff every override reads back as the same text or the same number |
| `KconfigFile.IntegerReadsBackIff` | src/ntfc/builder.py:269-283 | an integer override holds iff the file has a literal of that integer, in whatever base |
| `KconfigFile.CheckTwoNumbers` | src/ntfc/builder.py:269-283 | 64 in the file is reported for a requested 128, and 0x10 accepted for 16 |
| `Numerals.LiteralIs` | src/ntfc/builder.py:281 | `int(text, 0)` of a sign, the prefix of a base and digits, with blanks around and single underscores inside, is the signed number with these digits; without a prefix a leading zero is only accepted for zero |
| `Numerals.LiteralParts` | src/ntfc/builder.py:281 | every text it accepts is of that form |
| `Numerals.LiteralOfInt` | src/ntfc/builder.py:281 | what Python writes for an integer is read as that integer |
| `Numerals.NumeralIff` | src/ntfc/coreconfig.py:61-67 | digits denote a number iff single underscores stand only before digits and, without them and without leading zeros, the digits are those of the number in the base, in either case |
| `Numerals.DigitsOfBase` | src/ntfc/coreconfig.py:61-67 | the digits of each base |
| `Text.BlanksAre` | src/ntfc/core.py:125 | the blanks that stripping removes from bytes, and those it removes from text |
| `KconfigFile.RewriteThenCheckAccepts` | src/ntfc/builder.py:285-326 | after rewriting an intact file every override reads back, so the validator finds nothing |
| `CoreConfig.CoreConfig.LoadCoreConfig` | src/ntfc/coreconfig.py:70-84 | the loop loads, for each name, the typed value of its last assignment |
| `CoreConfig.LoadSettingIff` | src/ntfc/coreconfig.py:73-84 | a line sets a name iff it is no comment and the name is what stands before its first `=` |
| `CoreConfig.ParseReads` | src/ntfc/coreconfig.py:51-68 | every text is loaded as what it reads as: a boolean, the contents of quotes, the number whose base-16 digits stand after "0x" or whose decimal digits it is, or itself |
| `CoreConfig.HexValueIff` | src/ntfc/coreconfig.py:61-63 | a text after "0x" has the value `n` iff it has the base-16 digits of `n`, in either case, with leading zeros, single underscores and blanks at the end |
| `CoreConfig.RewriteThenLoad` | src/ntfc/coreconfig.py:70-84 | loading a rewritten file gives each enabled override its written value and leaves out the disabled ones |
| `CoreConfig.TypedRoundTrip` | src/ntfc/coreconfig.py:51-68 | a query after rewrite and load returns the same boolean, the same non-negative integer, the number whose digits a string has in base 16 after "0x" or in base 10, the contents of a quoted string or the plain string; a disabled key is False |
| `CoreConfig.HexSurvives` | src/ntfc/coreconfig.py:51-68 | an override that is a hex text of `n` is answered as the integer `n` |
| `CoreConfig.IntegersSurviveIff` | src/ntfc/coreconfig.py:51-68 | an integer override comes back as that integer iff it is not negative |
| `CoreConfig.OthersUnchanged` | src/ntfc/coreconfig.py:203-214 | a key that is not overridden is answered as before |
| `CoreConfig.RewriteLoadAsk` | src/ntfc/coreconfig.py:203-214 | the three calls in a row |
| `SplitLines.SplitAt` | src/ntfc/debug/coredump/syslog_handler.py:134 | a text can be split into lines at any line start, also around carriage returns |
| `SplitLines.SplitBreak` | src/ntfc/debug/coredump/syslog_handler.py:134 | a line ends at the first of the ten line breaks, where a carriage return takes a newline with it |
| `Extraction.FindLastPair` | src/ntfc/debug/coredump/syslog_handler.py:134-144 | the scan returns the last complete pair of a start and a later finish line with no marker between, whatever unterminated starts follow |
| `Extraction.LastPairUnique` | src/ntfc/debug/coredump/syslog_handler.py:134-144 | there is only one such pair |
| `Extraction.MarkersAre` | src/ntfc/debug/coredump/syslog_handler.py:38-39 | the two marker texts are recognised wherever they stand in a line, and shorter ones are not |
| `Extraction.ExtractPayload` | src/ntfc/debug/coredump/syslog_handler.py:117-152 | the payload is the joined data of the lines of that pair, None iff there is no pair |
| `Extraction.LineDataIs` | src/ntfc/debug/coredump/syslog_handler.py:145-152 | the data of a line is what stands after its last space, or the whole line without one, less other blanks at the ends |
| `Extraction.TrailingSpaceHidesData` | src/ntfc/debug/coredump/syslog_handler.py:145-152 | so a line that ends in a space has no data |
| `Extraction.TailHoldsPayload` | src/ntfc/debug/coredump/syslog_handler.py:117-152 | if the last pair begins inside the last `n` characters of the log, they yield the same payload as the whole log |
| `Extraction.ExtractPrinted` | src/ntfc/debug/coredump/syslog_handler.py:117-152 | extracting a dump printed as prefixed lines gives its data back, whatever stands before it |
| `Extraction.ExtractPrintedFromTail` | src/ntfc/debug/coredump/syslog_handler.py:117-152 | the same from the tail, when the dump and what follows it fit in there, for consoles that end lines with a newline or a carriage return and a newline |
| `BlockStream.Decompress` | src/ntfc/debug/coredump/syslog_handler.py:154-186 | the cursor loop ends and computes the decoding of the stream |
| `BlockStream.DecodeRaw` | src/ntfc/debug/coredump/syslog_handler.py:161-172 | bytes for bytes: a raw block gives its bytes, or those that are left of it, and decoding goes on behind it |
| `BlockStream.DecodePacked` | src/ntfc/debug/coredump/syslog_handler.py:173-210 | a packed block gives what it unpacks to, and ends the stream if that is nothing or not of the announced size |
| `BlockStream.DecodeEnds` | src/ntfc/debug/coredump/syslog_handler.py:161-186 | anything else, and a cut header, ends the stream |
| `BlockStream.DecodeFramed` | src/ntfc/debug/coredump/syslog_handler.py:154-186 | decoding any list of framed blocks, followed by anything that does not look like a block, gives their contents up to the first empty compressed block |
| `BlockStream.DecodesToContentsIff` | src/ntfc/debug/coredump/syslog_handler.py:203-210 | it gives all contents iff no data follows an empty compressed block |
| `BlockStream.EmptyBlockEndsStream` | src/ntfc/debug/coredump/syslog_handler.py:203-210 | a stream of an empty compressed block and a raw one decodes to nothing |
| `BlockStream.DecodeCut` | src/ntfc/debug/coredump/syslog_handler.py:154-186 | decoding the front of any stream gives a front part of its contents, for raw-only streams or a decompressor that does not misread cut blocks |
| `SyslogHandlers.SyslogHandler.Collect` | src/ntfc/debug/coredump/syslog_handler.py:81-115 | the tail is cleared whatever happens; what is saved is the decoding of its payload, nothing if any stage fails |
| `SyslogHandlers.CollectPrinted` | src/ntfc/debug/coredump/syslog_handler.py:81-115 | end to end: a core printed on the console in blocks and base64 is collected byte for byte |
| `CorefileLedger.GdbController.NextUnconsumedCorefile` | src/ntfc/debug/gdb/controller.py:332-342 | the newest recorded file that is not consumed |
| `CorefileLedger.GdbController.TakeNewest` | src/ntfc/debug/gdb/controller.py:357-366 | the critical section of `wait_corefile` |
| `CorefileLedger.GdbController.GenerateEnd` | src/ntfc/debug/gdb/controller.py:314-323 | the critical section at the end of `generate_coredump` |
| `CorefileLedger.WaitReturnsNewestFresh` | src/ntfc/debug/gdb/controller.py:344-366 | over every interleaving, the newest recorded file neither call had handed out before; None iff all had been |
| `CorefileLedger.NeverHandedOutTwice` | src/ntfc/debug/gdb/controller.py:344-366 | `wait_corefile` never hands out a file either call handed out before |
| `CorefileLedger.ReturnedWasRecorded` | src/ntfc/debug/gdb/controller.py:442-448 | everything handed out was recorded by the reader before |
| `CorefileLedger.GenerateReturnsLast` | src/ntfc/debug/gdb/controller.py:291-323 | `generate_coredump` hands out exactly the last file recorded since the last such call began, if it is in time |
| `CorefileLedger.GenerateRepeatsIff` | src/ntfc/debug/gdb/controller.py:291-323 | that file was handed out before iff it had been before it was recorded, or another call took it between its recording and the end |
| `LogCleanup.ComputeRemovals` | src/ntfc/log/manager.py:151-186 | the removed sessions are the oldest ones, and what is kept is the longest part of the newest sessions that meets every rule |
| `LogCleanup.RemovalIsMinimal` | src/ntfc/log/manager.py:151-186 | keeping the newest of the removed sessions would break a rule |
| `LogCleanup.LongestKeptUnique` | src/ntfc/log/manager.py:151-186 | the rules leave no choice in what is kept |
| `LogCleanup.LogManager.CleanupTwice` | src/ntfc/log/manager.py:201-215 | cleaning up again at the same moment removes nothing, in whatever order the directories are listed |
| `LogCleanup.SurvivorsWithinLimits` | src/ntfc/log/manager.py:151-186 | with limits that are not negative the survivors are within every one of them |
| `LogCleanup.SurvivesIff` | src/ntfc/log/manager.py:151-186 | a session survives iff it is at most the days old, counts among the newest ones, and is small enough together with all newer ones |
| `LogCleanup.LogManager.Cleanup` | src/ntfc/log/manager.py:201-215 | from a directory in any order, exactly that part of the sessions sorted by time is left, so no older session outlives a removed newer one |
| `LogCleanup.SortedIsByTime` | src/ntfc/log/manager.py:133 | the sort orders the sessions by time and keeps all of them |
| `ConfigMerge.UpdateNestedDict` | src/ntfc/cli/main.py:202-219 | the recursive update, key by key in the order of the document, fails iff a mapping with keys meets a scalar; it computes the merge otherwise, and when it fails leaves the keys before the first clash merged and the clashing one as its own update leaves it |
| `ConfigMerge.MergeableIff` | src/ntfc/cli/main.py:202-219 | an overlay goes through iff at no path it has a mapping with keys where the base has something else than a mapping |
| `ConfigMerge.MergedAt` | src/ntfc/cli/main.py:202-219 | what the merge has at any path: the override laid over the base where the override has something, nothing below an override's scalar, the base elsewhere |
| `ConfigMerge.OverlayScalarWins` | src/ntfc/cli/main.py:217-218 | a scalar of the override replaces whatever the base has at its path |
| `ConfigMerge.EmptyOverlay` | src/ntfc/cli/main.py:202-219 | the empty mapping is an identity on the right, also over a scalar |
| `ConfigMerge.EmptyBase` | src/ntfc/cli/main.py:202-219 | the empty mapping is an identity on the left |
| `ConfigMerge.MergeAssociative` | src/ntfc/cli/main.py:202-219 | the merge is associative: when the first two merge, one grouping is defined iff the other is, and they agree |
| `ConfigMerge.LastFileWins` | src/ntfc/cli/main.py:233-253 | after folding the files, a scalar stands at a path iff the last file that says anything about the path put it there |
| `ConfigMerge.MergeAllConcat` | src/ntfc/cli/main.py:233-253 | folding all files is folding each part and laying the second result over the first |
| `ConfigMerge.LoadYamlFromDirectory` | src/ntfc/cli/main.py:233-253 | the loader ends with what the files make of the configuration one after the other, failed overlays with what they leave included, or with the IOError iff that is empty |
| `ConfigMerge.LoadingIsFolding` | src/ntfc/cli/main.py:233-253 | when no file clashes with those before it, loading is folding the files that are mappings |
| `ConfigMerge.FailedFileIsHalfLoaded` | src/ntfc/cli/main.py:241-248 | the scalars of a failed file that stand before its first clashing key are in the loaded configuration |
| `ConfigMerge.FailedOverlayLeavesTraces` | src/ntfc/cli/main.py:241-248 | one overlay in two orders of its keys: in one the failed update leaves something behind, in the other nothing |
| `ConfigMerge.FailedOverlayUndoneIff` | src/ntfc/cli/main.py:202-219 | for any order of the keys, a failed overlay leaves the base as it was iff each key before the first clash is in the base and its merge changes nothing, and the clashing key's own overlay leaves no trace |
| `ConfigMerge.UndoneInEveryOrderIff` | src/ntfc/cli/main.py:202-219 | it does so in every order of the keys iff no key, taken by itself, has an effect or leaves a trace |
| `ConfigMerge.ApplyJsonArgs` | src/ntfc/cli/main.py:272-279 | the arguments are merged under `config` and nowhere else; a failed merge leaves there what a failed update leaves |
| `ReportMerge.MergeSessionReports` | src/ntfc/multi.py:662-715 | the loops build the merged report |
| `ReportMerge.CopyKeepsRest` | src/ntfc/multi.py:637-660 | a copied testcase differs only in its classname and in that its children have no children |
| `ReportMerge.ClassnameIsPrefixed` | src/ntfc/multi.py:652-653 | its classname is the old one after the session name and two colons |
| `ReportMerge.SuiteKeepsRest` | src/ntfc/multi.py:683-692 | a copied suite keeps all attributes but its name, which is prefixed by the session's, and its own testcases |
| `ReportMerge.MergeKeepsCasesIff` | src/ntfc/multi.py:683-692 | the merge finds every testcase exactly once iff each stands directly in a test suite below the root |
| `ReportMerge.MisplacedCaseIsLost` | src/ntfc/multi.py:683-692 | a testcase below a root that is itself the test suite is not found |
| `ReportMerge.MergedCases` | src/ntfc/multi.py:637-692 | the merged report holds exactly the copies of the testcases found, session after session |
| `ReportMerge.MergedReportReadsBack` | src/ntfc/multi.py:637-715 | a reader of the merged report finds those copies in that order, each followed by the testcases that stand directly in it |
| `ReportMerge.FoundInMergedIff` | src/ntfc/multi.py:683-692 | so it finds as many testcases as the report holds iff each stands directly in a test suite below the root or directly in a testcase that does, and never more |
| `ReportSplit.SplitXmlByModule` | src/ntfc/log/report.py:86-147 | one file for each module that occurs, sorted by name, with the testcases of the module and how many of them have a failure, an error or were skipped |
| `ReportSplit.ModuleIsFileName` | src/ntfc/log/report.py:88-91 | the module of a testcase of a test file is the name of that file without directory and extension |
| `ReportSplit.NoClassname` | src/ntfc/log/report.py:89 | a testcase without a classname is of the module "unknown" |
| `ReportTree.HasIffFound` | src/ntfc/log/report.py:102-108 | a testcase has a verdict iff one of its children, anywhere among them, has the tag |
| `ReportSplit.SplitKeepsEveryCase` | src/ntfc/log/report.py:86-147 | the split holds a copy of every testcase exactly once |
| `Grouping.TalliesAddUp` | src/ntfc/log/report.py:100-109 | the counts of the modules add up to the counts of all testcases |
| `ReportSummary.GenerateResultSummary` | src/ntfc/log/report.py:347-377 | the counting loop sums the first test suite of each file |
| `ReportSummary.FirstSuiteIs` | src/ntfc/log/report.py:347-377 | the suite it takes from a file is the first child of the root that is one |
| `ReportSummary.ParseSessionCounts` | src/ntfc/multi.py:316-340 | the counting loop sums every test suite of each file |
| `ReportSummary.IterIs` | src/ntfc/multi.py:327 | the suites it takes are those of the whole tree, the root included |
| `ReportSummary.SummariesAgreeIff` | src/ntfc/log/report.py:347-377 | on the split of any report the two summarisers agree iff the counts of test suites nested in testcases add up to nothing; both see each module once |
| `ReportSummary.NestedSuiteCounts` | src/ntfc/multi.py:316-340 | a report for which the two summarisers differ |
| `ReportSummary.SummaryIsDirectCount` | src/ntfc/log/report.py:100-118 | what they show is the number of testcases, of those with a failure, with an error and skipped, and the sum of their times |
| `ReportSummary.FailureIsShown` | src/ntfc/log/report.py:100-118 | a report of one failed testcase is shown as one failure, no pass, no skip and no error |
| `ReportSummary.PassesAreCleanIff` | src/ntfc/log/report.py:364-373 | the passes shown are the testcases that neither failed nor were skipped iff no module mixes such a testcase with one that did both |
| `ReportSummary.ModulePassesIff` | src/ntfc/log/report.py:364-373 | a module shows as many passes as testcases passed iff its mere errors and its testcases that both failed and were skipped are equally many, or nothing passed and the latter are not fewer |
| `ReportSummary.ReportPassesIff` | src/ntfc/log/report.py:364-373 | the passes shown are the testcases that passed plus the surplus of the modules; if no testcase both failed and was skipped, they are right iff none merely has an error |
| `ReportSummary.ErrorsCountAsPasses` | src/ntfc/log/report.py:364-373 | a report of mere errors is shown as all passes |
| `ResultDirs.ResultDir.Summarise` | src/ntfc/log/report.py:290-377 | a summary splits the report, removes it and counts the split files |
| `ResultDirs.MergeDir` | src/ntfc/multi.py:662-692 | the merged report holds a copy of every testcase of a session's report exactly once iff the report has none, or it could be read, was not summarised before the merge, and is well placed |
| `ResultDirs.MergeKeepsReportIff` | src/ntfc/multi.py:673-692 | the same for what the merge sees of a report |
| `ResultDirs.MergedTotals` | src/ntfc/multi.py:637-692 | over any sessions, with reports the merge sees or not: the merged report never counts more tests than the sessions' reports, as many iff each session is kept whole, and then all counts are theirs |
| `ResultDirs.MergeSplitSummarise` | src/ntfc/multi.py:694-718 | end to end from the sessions' own reports: merging, splitting and adding up never shows more tests than they hold, shows as many iff each report with testcases is seen and has them directly in a test suite or in a testcase that is, and if all stand directly in test suites shows how many of them have a failure, an error or were skipped, and their time |
| `ResultDirs.CountsSurviveSplit` | src/ntfc/multi.py:287-340 | a session's counts, read back from the split files, are the direct counts of its report plus those of test suites nested in its testcases |
| `ResultDirs.MergedModuleIsSession` | src/ntfc/multi.py:652-653 | in the merged report all testcases of a session fall into one module, named after what stands before the first two colons of the session name followed by two colons |

## Left out

- Threads and clocks are traces: each critical section is one step, a clock is read once a round, and no fairness is assumed.
- An exception in a parallel session aborts the main thread's collection of results; how the executor then waits is not modelled beyond the workers running on.
- Loading a session's file and building it are given outcomes; a configuration is taken to have the shape the builder expects, and a cached one is a value, not a dictionary shared by sessions. A session's other options are carried as opaque YAML values.
- `max_workers` equals the number of sessions, so every worker has a thread; the pool itself is not modelled.
- Bytes are modelled as characters: UTF-8 decoding, its replacement characters and an output tail cut inside a multi-byte character are not.
- Digits are ASCII, and line breaks inside a `.config` are newlines only.
- Regular expressions are syntax trees: the parsing of the pattern text, `re.escape` and encoding are not modelled, nor are raw-regex expectations and the default prompt pattern, which inserts the command unescaped.
- `sendCommand`'s line-length check and its exceptions are not modelled.
- ANSI stripping and base64 are function parameters; the LZF decompressor is one too, with its inverse law where a round trip needs it, and it is taken never to write past its output size.
- The kconfig-tweak path, CMake and olddefconfig are external tools; the merge of several `kv` sources into one table of overrides is not modelled.
- `DeviceReading.DeviceCommon.ReadAll`: signatures are searched in what one call has read, as in the code, so nothing is said about a signature split over two calls; steps of the heartbeat thread in the middle of a call are not interleaved there.
- `Heartbeat.HeartbeatMonitor.MonitorLoop`: other threads act between its turns only, and an enable there is not modelled; their steps inside a check are those of `HeartbeatProtocol`.
- Heartbeat commands and user commands can overlap, since the flag is tested and set in different critical sections; no exclusion is claimed.
- `ConfigMerge.UpdateNestedDict`: dictionaries are values that are passed in and returned, so the aliasing of one dictionary object from two places is not modelled; keys are strings, and a list is a scalar.
- Report attributes hold converted numbers; XML parsing and writing, decimal notation, HTML, tables and testrun numbers in file names are left out.
- `ResultDirs.ResultDir.Summarise`: a directory that is split twice keeps both sets of files, the overwriting of equal file names is not modelled.
- `ReportSplit.SplitXmlByModule`: the ordering of strings is a parameter.
- Directory sizes are reals measured once, times are reals; a directory that cannot be removed is not modelled.
- GDB, serial, socket, fastboot and pytest input and output, GDB start-up and attach events, configuration getters, forwarding classes, coredump handler selection, recovery back-off and test ordering are left out: they are input and output, or would only add easy members.

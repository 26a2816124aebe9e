/**
 * The heartbeat failure counter. `HeartbeatProtocol` interleaves the steps of any number of checks
 * with the steps of the threads that reset the counter; `Heartbeat` has the monitor object, whose
 * methods are sequences of those steps.
 */
module HeartbeatProtocol {

  /** A check in progress. Between FailRead and FailCapture the check holds the monitor's lock. */
  datatype Check =
    | Idle
    | Sending
    | Answered(ok: bool)
    | Incrementing(read: nat)          // the counter was read, not written back yet
    | Written                          // written back, not read again yet
    | Judged(count: nat, limit: int)   // the values the threshold test uses

  datatype Monitor = Monitor(failures: nat, threshold: int, checks: seq<Check>)
  {
    predicate Locked() {
      exists i | 0 <= i < |checks| :: checks[i].Incrementing? || checks[i].Written?
    }
  }

  datatype Step =
    | Zero                             // activity, end of a command, reset: under the lock
    | EnableThreshold(limit: int)      // `enable_heartbeat` stores without the lock
    | EnableZero
    | Begin(i: nat)
    | Answer(i: nat, ok: bool)
    | Success(i: nat)                  // zeroes the counter under the lock
    | FailRead(i: nat)
    | FailWrite(i: nat)
    | FailCapture(i: nat)
    | Report(i: nat)                   // requests BUSY_LOOP if the count has reached the limit

  /** `wired`: the send function is a device command, which ends with `mark_command_end`. */
  predicate Enabled(wired: bool, m: Monitor, step: Step) {
    match step
    case Zero => !m.Locked()
    case EnableThreshold(_) => true
    case EnableZero => true
    case Begin(i) => i < |m.checks| && m.checks[i].Idle?
    case Answer(i, _) => i < |m.checks| && m.checks[i].Sending? && (wired ==> !m.Locked())
    case Success(i) => i < |m.checks| && m.checks[i] == Answered(true) && !m.Locked()
    case FailRead(i) => i < |m.checks| && m.checks[i] == Answered(false) && !m.Locked()
    case FailWrite(i) => i < |m.checks| && m.checks[i].Incrementing?
    case FailCapture(i) => i < |m.checks| && m.checks[i].Written?
    case Report(i) => i < |m.checks| && m.checks[i].Judged?
  }

  function Apply(wired: bool, m: Monitor, step: Step): Monitor
    requires Enabled(wired, m, step)
  {
    match step
    case Zero => m.(failures := 0)
    case EnableThreshold(limit) => m.(threshold := limit)
    case EnableZero => m.(failures := 0)
    case Begin(i) => m.(checks := m.checks[i := Sending])
    case Answer(i, ok) => m.(checks := m.checks[i := Answered(ok)], failures := if wired then 0 else m.failures)
    case Success(i) => m.(checks := m.checks[i := Idle], failures := 0)
    case FailRead(i) => m.(checks := m.checks[i := Incrementing(m.failures)])
    case FailWrite(i) => m.(checks := m.checks[i := Written], failures := m.checks[i].read + 1)
    case FailCapture(i) => m.(checks := m.checks[i := Judged(m.failures, m.threshold)])
    case Report(i) => m.(checks := m.checks[i := Idle])
  }

  predicate RequestsBusyLoop(m: Monitor, step: Step) {
    step.Report? && step.i < |m.checks| && m.checks[step.i].Judged? && m.checks[step.i].count >= m.checks[step.i].limit
  }

  ghost predicate IsRun(wired: bool, ms: seq<Monitor>, steps: seq<Step>) {
    && |ms| == |steps| + 1
    && ms[0].failures == 0 && (forall i | 0 <= i < |ms[0].checks| :: ms[0].checks[i].Idle?)
    && (forall k | 0 <= k < |steps| :: Enabled(wired, ms[k], steps[k]) && ms[k + 1] == Apply(wired, ms[k], steps[k]))
  }

  // ---------- what the counter should be ----------

  predicate Zeroes(wired: bool, step: Step) {
    step.Zero? || step.EnableZero? || step.Success? || (wired && step.Answer?)
  }

  /** Failed checks since the last success or reset. */
  function FailedSince(wired: bool, steps: seq<Step>): nat {
    if steps == [] then 0
    else
      var last := steps[|steps| - 1];
      if Zeroes(wired, last) then 0
      else FailedSince(wired, steps[..|steps| - 1]) + if last.FailWrite? then 1 else 0
  }

  lemma FailedAfterStep(wired: bool, steps: seq<Step>, k: nat)
    requires 0 < k <= |steps|
    ensures FailedSince(wired, steps[..k]) ==
      if Zeroes(wired, steps[k - 1]) then 0
      else FailedSince(wired, steps[..k - 1]) + if steps[k - 1].FailWrite? then 1 else 0
  {
    assert steps[..k][..k - 1] == steps[..k - 1];
  }

  /** At most one check holds the lock, and meanwhile the counter is what it read, or zeroed. */
  ghost predicate LockInv(m: Monitor) {
    && (forall i, j | 0 <= i < j < |m.checks| ::
          !((m.checks[i].Incrementing? || m.checks[i].Written?) && (m.checks[j].Incrementing? || m.checks[j].Written?)))
    && (forall i | 0 <= i < |m.checks| && m.checks[i].Incrementing? ::
          m.failures == m.checks[i].read || m.failures == 0)
  }

  lemma StepKeepsLockInv(wired: bool, m: Monitor, step: Step)
    requires LockInv(m) && Enabled(wired, m, step)
    ensures LockInv(Apply(wired, m, step))
  {
  }

  lemma {:induction false} ReachableLockInv(wired: bool, ms: seq<Monitor>, steps: seq<Step>, k: nat)
    requires IsRun(wired, ms, steps) && k < |ms|
    ensures LockInv(ms[k]) && |ms[k].checks| == |ms[0].checks|
  {
    if k > 0 {
      ReachableLockInv(wired, ms, steps, k - 1);
      StepKeepsLockInv(wired, ms[k - 1], steps[k - 1]);
    }
  }

  /** Over every interleaving the counter never falls short of the failed checks since the last success or reset. */
  lemma {:induction false} CounterAtLeast(wired: bool, ms: seq<Monitor>, steps: seq<Step>, k: nat)
    requires IsRun(wired, ms, steps) && k < |ms|
    ensures ms[k].failures >= FailedSince(wired, steps[..k])
  {
    if k > 0 {
      CounterAtLeast(wired, ms, steps, k - 1);
      ReachableLockInv(wired, ms, steps, k - 1);
      FailedAfterStep(wired, steps, k);
    }
  }

  /**
   * An enable is lost: step `j` zeroes the counter while check `i` holds a positive count it has
   * read, and step `k` is the check's write-back.
   */
  ghost predicate LosesEnable(ms: seq<Monitor>, steps: seq<Step>, j: nat, k: nat, i: nat)
    requires |ms| == |steps| + 1
  {
    && j < k < |steps| && steps[j].EnableZero? && steps[k] == FailWrite(i)
    && i < |ms[j].checks| && ms[j].checks[i].Incrementing? && ms[j].checks[i].read > 0
    && NotWritten(steps, i, j + 1, k)
  }

  predicate NotWritten(steps: seq<Step>, i: nat, lo: nat, hi: nat)
    requires hi <= |steps|
  {
    forall l | lo <= l < hi :: steps[l] != FailWrite(i)
  }

  /** The counter is right in every state of the run. */
  ghost predicate CounterRight(wired: bool, ms: seq<Monitor>, steps: seq<Step>)
    requires |ms| == |steps| + 1
  {
    forall k | 0 <= k < |ms| :: RightAt(wired, ms, steps, k)
  }

  ghost predicate RightAt(wired: bool, ms: seq<Monitor>, steps: seq<Step>, k: nat)
    requires k < |ms| == |steps| + 1
  {
    ms[k].failures == FailedSince(wired, steps[..k])
  }

  /** A pending count that is out of date was overtaken by an enable. */
  lemma {:induction false} StaleWasOvertaken(wired: bool, ms: seq<Monitor>, steps: seq<Step>, k: nat, i: nat)
    returns (j: nat)
    requires IsRun(wired, ms, steps) && k < |ms| && i < |ms[k].checks|
    requires ms[k].checks[i].Incrementing? && ms[k].checks[i].read != ms[k].failures
    ensures j < k && steps[j].EnableZero? && i < |ms[j].checks| && ms[j].checks[i] == ms[k].checks[i]
    ensures ms[k].checks[i].read > 0 && NotWritten(steps, i, j + 1, k)
  {
    ReachableLockInv(wired, ms, steps, k);
    ReachableLockInv(wired, ms, steps, k - 1);
    StaleStep(wired, ms[k - 1], steps[k - 1], i);
    hide Apply, Enabled;
    if steps[k - 1].EnableZero? {
      j := k - 1;
    } else {
      j := StaleWasOvertaken(wired, ms, steps, k - 1, i);
    }
  }

  /** A pending count gets out of date only by an enable. */
  lemma StaleStep(wired: bool, m: Monitor, step: Step, i: nat)
    requires LockInv(m) && Enabled(wired, m, step) && LockInv(Apply(wired, m, step))
    requires var m' := Apply(wired, m, step);
      i < |m'.checks| && m'.checks[i].Incrementing? && m'.checks[i].read != m'.failures
    ensures var m' := Apply(wired, m, step);
      && i < |m.checks| && m.checks[i] == m'.checks[i] && m'.checks[i].read > 0 && step != FailWrite(i)
      && (step.EnableZero? || m.checks[i].read != m.failures)
  {
    assert m.checks[i].Incrementing? ==> m.Locked();
  }

  /** While a check holds what it has read, only an enable touches the counter. */
  lemma {:induction false} HeldCounter(wired: bool, ms: seq<Monitor>, steps: seq<Step>, j: nat, k: nat, i: nat)
    requires IsRun(wired, ms, steps) && j < k <= |steps| && steps[j].EnableZero?
    requires i < |ms[j].checks| && ms[j].checks[i].Incrementing? && NotWritten(steps, i, j + 1, k)
    ensures i < |ms[k].checks| && ms[k].checks[i] == ms[j].checks[i]
    ensures ms[k].failures == 0 && FailedSince(wired, steps[..k]) == 0
  {
    FailedAfterStep(wired, steps, k);
    hide FailedSince;
    if j < k - 1 {
      assert NotWritten(steps, i, j + 1, k - 1) && steps[k - 1] != FailWrite(i);
      hide NotWritten, LockInv;
      HeldCounter(wired, ms, steps, j, k - 1, i);
      ReachableLockInv(wired, ms, steps, k - 1);
      HeldStep(wired, ms[k - 1], steps[k - 1], i);
      hide Enabled, Apply;
    }
  }

  lemma HeldStep(wired: bool, m: Monitor, step: Step, i: nat)
    requires LockInv(m) && Enabled(wired, m, step) && step != FailWrite(i)
    requires i < |m.checks| && m.checks[i].Incrementing? && m.failures == 0
    ensures var m' := Apply(wired, m, step);
      !step.FailWrite? && i < |m'.checks| && m'.checks[i] == m.checks[i] && m'.failures == 0
  {
    assert m.checks[i].Incrementing? && m.Locked();
  }

  lemma {:induction false} FirstWrong(wired: bool, ms: seq<Monitor>, steps: seq<Step>, k: nat) returns (n: nat)
    requires |ms| == |steps| + 1 && k < |ms| && !RightAt(wired, ms, steps, k)
    ensures n <= k && !RightAt(wired, ms, steps, n) && forall l | 0 <= l < n :: RightAt(wired, ms, steps, l)
  {
    if l: nat :| l < k && !RightAt(wired, ms, steps, l) {
      n := FirstWrong(wired, ms, steps, l);
    } else {
      n := k;
    }
  }

  /** A step keeps the counter right unless it writes back a count that is out of date. */
  lemma StepKeepsRight(wired: bool, ms: seq<Monitor>, steps: seq<Step>, k: nat)
    requires IsRun(wired, ms, steps) && k < |steps| && RightAt(wired, ms, steps, k) && !RightAt(wired, ms, steps, k + 1)
    ensures steps[k].FailWrite? && ms[k].checks[steps[k].i].read != ms[k].failures
  {
    assert steps[..k + 1][..k] == steps[..k];
  }

  lemma WrongLosesEnable(wired: bool, ms: seq<Monitor>, steps: seq<Step>, wrong: nat)
    requires IsRun(wired, ms, steps) && wrong < |ms| && !RightAt(wired, ms, steps, wrong)
    ensures exists j: nat, k: nat, i: nat :: LosesEnable(ms, steps, j, k, i)
  {
    var n := FirstWrong(wired, ms, steps, wrong);
    assert steps[..0] == [];
    assert n > 0 && RightAt(wired, ms, steps, n - 1);
    var k := n - 1;
    StepKeepsRight(wired, ms, steps, k);
    var i := steps[k].i;
    var j := StaleWasOvertaken(wired, ms, steps, k, i);
    hide IsRun, RightAt, Enabled, Apply;
    assert LosesEnable(ms, steps, j, k, i);
  }

  lemma LostEnableIsWrong(wired: bool, ms: seq<Monitor>, steps: seq<Step>, j: nat, k: nat, i: nat)
    requires IsRun(wired, ms, steps) && LosesEnable(ms, steps, j, k, i)
    ensures !RightAt(wired, ms, steps, k + 1)
  {
    HeldCounter(wired, ms, steps, j, k, i);
    assert steps[..k + 1][..k] == steps[..k];
    assert Enabled(wired, ms[k], steps[k]) && ms[k + 1] == Apply(wired, ms[k], steps[k]);
    hide IsRun, NotWritten;
  }

  /** The counter is right throughout a run iff the run loses no enable. */
  lemma CounterRightIff(wired: bool, ms: seq<Monitor>, steps: seq<Step>)
    requires IsRun(wired, ms, steps)
    ensures CounterRight(wired, ms, steps) <==> forall j: nat, k: nat, i: nat :: !LosesEnable(ms, steps, j, k, i)
  {
    assert |ms| == |steps| + 1;
    forall j: nat, k: nat, i: nat | LosesEnable(ms, steps, j, k, i)
      ensures k + 1 < |ms| && !RightAt(wired, ms, steps, k + 1)
    {
      LostEnableIsWrong(wired, ms, steps, j, k, i);
    }
    hide IsRun, LosesEnable, RightAt;
    if !CounterRight(wired, ms, steps) {
      var wrong :| 0 <= wrong < |ms| && !RightAt(wired, ms, steps, wrong);
      WrongLosesEnable(wired, ms, steps, wrong);
    }
  }

  /** A run that has not made a step. */
  lemma StartRun(wired: bool, m: Monitor)
    requires m.failures == 0 && forall i | 0 <= i < |m.checks| :: m.checks[i].Idle?
    ensures IsRun(wired, [m], []) && FailedSince(wired, []) == 0
  {
  }

  /** One more step at the end of a run. */
  lemma ExtendRun(wired: bool, ms: seq<Monitor>, steps: seq<Step>, step: Step)
    returns (ms': seq<Monitor>, steps': seq<Step>)
    requires |ms| == |steps| + 1 && IsRun(wired, ms, steps) && Enabled(wired, ms[|steps|], step)
    ensures |ms'| == |steps'| + 1 && IsRun(wired, ms', steps')
    ensures ms'[|steps'|] == Apply(wired, ms[|steps|], step) && ms'[0] == ms[0]
    ensures FailedSince(wired, steps') ==
      if Zeroes(wired, step) then 0 else FailedSince(wired, steps) + if step.FailWrite? then 1 else 0
  {
    ms', steps' := ms + [Apply(wired, ms[|steps|], step)], steps + [step];
    assert steps'[..|steps'| - 1] == steps;
    assert steps'[|steps|] == step && ms'[|steps|] == ms[|steps|];
  }

  lemma FailedCheck(wired: bool, ms: seq<Monitor>, steps: seq<Step>, i: nat)
    returns (ms': seq<Monitor>, steps': seq<Step>)
    requires |ms| == |steps| + 1 && IsRun(wired, ms, steps)
    requires i < |ms[|steps|].checks| && ms[|steps|].checks[i] == Answered(false) && !ms[|steps|].Locked()
    ensures |ms'| == |steps'| + 1 && IsRun(wired, ms', steps') && ms'[0] == ms[0]
    ensures FailedSince(wired, steps') == FailedSince(wired, steps) + 1
    ensures var m := ms[|steps|];
      ms'[|steps'|] == Monitor(m.failures + 1, m.threshold, m.checks[i := Judged(m.failures + 1, m.threshold)])
  {
    hide IsRun, FailedSince;
    var m := ms[|steps|];
    ms', steps' := ExtendRun(wired, ms, steps, FailRead(i));
    ms', steps' := ExtendRun(wired, ms', steps', FailWrite(i));
    ms', steps' := ExtendRun(wired, ms', steps', FailCapture(i));
    assert ms'[|steps'|].checks == m.checks[i := Judged(m.failures + 1, m.threshold)];
  }

  /**
   * A run that loses an enable: one failed check since the enable, but a counter of 2, and with
   * the threshold 2 a request for BUSY_LOOP.
   */
  lemma EnableCanBeLost() returns (ms: seq<Monitor>, steps: seq<Step>)
    ensures |ms| == |steps| + 1 && IsRun(false, ms, steps) && FailedSince(false, steps) == 1
    ensures ms[|steps|].failures == 2 && RequestsBusyLoop(ms[|steps|], Report(0))
  {
    hide IsRun, FailedSince;
    ms, steps := OneFailedCheck();
    ms, steps := ExtendRun(false, ms, steps, Begin(0));
    ms, steps := ExtendRun(false, ms, steps, Answer(0, false));
    ms, steps := ExtendRun(false, ms, steps, FailRead(0));
    ms, steps := ExtendRun(false, ms, steps, EnableZero);
    ms, steps := ExtendRun(false, ms, steps, FailWrite(0));
    ms, steps := ExtendRun(false, ms, steps, FailCapture(0));
  }

  lemma OneFailedCheck() returns (ms: seq<Monitor>, steps: seq<Step>)
    ensures |ms| == |steps| + 1 && IsRun(false, ms, steps) && ms[|steps|] == Monitor(1, 2, [Idle])
  {
    hide IsRun, FailedSince;
    ms, steps := [Monitor(0, 2, [Idle])], [];
    StartRun(false, ms[0]);
    ms, steps := ExtendRun(false, ms, steps, Begin(0));
    ms, steps := ExtendRun(false, ms, steps, Answer(0, false));
    ms, steps := FailedCheck(false, ms, steps, 0);
    ms, steps := ExtendRun(false, ms, steps, Report(0));
  }

  // ---------- when BUSY_LOOP is requested ----------

  /** Check `i` neither begins, nor writes back, nor reports between `lo` and `hi`. */
  predicate SameCheck(steps: seq<Step>, i: nat, lo: nat, hi: nat)
    requires hi <= |steps|
  {
    forall l | lo <= l < hi :: steps[l] != Begin(i) && steps[l] != FailWrite(i) && steps[l] != Report(i)
  }

  /** A judged check got its count from its own write-back, or from an enable right after it. */
  lemma {:induction false} JudgedCountOrigin(wired: bool, ms: seq<Monitor>, steps: seq<Step>, k: nat, i: nat)
    returns (origin: nat)
    requires IsRun(wired, ms, steps) && k < |ms| && i < |ms[k].checks|
    requires ms[k].checks[i].Judged? || ms[k].checks[i].Written?
    ensures origin < k && steps[origin] == FailWrite(i) && SameCheck(steps, i, origin + 1, k)
    ensures var count := if ms[k].checks[i].Judged? then ms[k].checks[i].count else ms[k].failures;
      count == ms[origin + 1].failures || count == 0
  {
    ReachableLockInv(wired, ms, steps, k);
    ReachableLockInv(wired, ms, steps, k - 1);
    var m, step := ms[k - 1], steps[k - 1];
    assert Enabled(wired, m, step) && ms[k] == Apply(wired, m, step);
    if step == FailWrite(i) {
      origin := k - 1;
    } else {
      BeforeJudged(wired, m, step, i);
      hide IsRun, LockInv, Enabled, Apply;
      origin := JudgedCountOrigin(wired, ms, steps, k - 1, i);
    }
  }

  lemma BeforeJudged(wired: bool, m: Monitor, step: Step, i: nat)
    requires LockInv(m) && Enabled(wired, m, step) && i < |m.checks| && step != FailWrite(i)
    requires var c := Apply(wired, m, step).checks[i]; c.Judged? || c.Written?
    ensures m.checks[i].Judged? || m.checks[i].Written?
    ensures step != Begin(i) && step != Report(i)
    ensures var m' := Apply(wired, m, step);
      var count := if m.checks[i].Judged? then m.checks[i].count else m.failures;
      var count' := if m'.checks[i].Judged? then m'.checks[i].count else m'.failures;
      count' == count || count' == 0
  {
  }

  /**
   * A heartbeat requests BUSY_LOOP only for a failed check of its own that brought the counter to
   * the threshold or above; where the counter is right, that is the number of failed checks since
   * the last success or reset.
   */
  lemma BusyLoopOnlyAtThreshold(wired: bool, ms: seq<Monitor>, steps: seq<Step>, k: nat) returns (origin: nat)
    requires IsRun(wired, ms, steps) && k < |steps|
    requires RequestsBusyLoop(ms[k], steps[k])
    ensures origin < k && steps[origin] == FailWrite(steps[k].i) && SameCheck(steps, steps[k].i, origin + 1, k)
    ensures ms[origin + 1].failures >= ms[k].checks[steps[k].i].limit
    ensures RightAt(wired, ms, steps, origin + 1) ==>
      FailedSince(wired, steps[..origin + 1]) >= ms[k].checks[steps[k].i].limit
  {
    origin := JudgedCountOrigin(wired, ms, steps, k, steps[k].i);
  }

  // ---------- the wired form ----------

  /** The checks that are not between the end of their send and the write-back. */
  function Settled(checks: seq<Check>): nat {
    if checks == [] then 0
    else
      var c := checks[|checks| - 1];
      Settled(checks[..|checks| - 1]) + if c.Answered? || c.Incrementing? then 0 else 1
  }

  lemma {:induction false} SettledUpdate(checks: seq<Check>, i: nat, c: Check)
    requires i < |checks|
    ensures Settled(checks) <= |checks|
    ensures Settled(checks[i := c])
         == Settled(checks) - (if checks[i].Answered? || checks[i].Incrementing? then 0 else 1)
          + (if c.Answered? || c.Incrementing? then 0 else 1)
  {
    var n := |checks| - 1;
    if i == n {
      assert checks[i := c][..n] == checks[..n];
      SettledAtMost(checks);
    } else {
      assert checks[i := c][..n] == checks[..n][i := c];
      SettledUpdate(checks[..n], i, c);
    }
  }

  lemma {:induction false} SettledAtMost(checks: seq<Check>)
    ensures Settled(checks) <= |checks|
  {
    if checks != [] {
      SettledAtMost(checks[..|checks| - 1]);
    }
  }

  /** With the device's own send function, each check's send zeroes the counter before the check can add to it. */
  ghost predicate WiredInv(m: Monitor) {
    && LockInv(m) && m.failures <= Settled(m.checks)
    && (forall i | 0 <= i < |m.checks| && m.checks[i].Incrementing? :: m.checks[i].read <= Settled(m.checks))
    && (forall i | 0 <= i < |m.checks| && m.checks[i].Judged? :: m.checks[i].count <= |m.checks|)
  }

  lemma StepKeepsWiredInv(m: Monitor, step: Step)
    requires WiredInv(m) && Enabled(true, m, step)
    ensures WiredInv(Apply(true, m, step)) && |Apply(true, m, step).checks| == |m.checks|
  {
    StepKeepsLockInv(true, m, step);
    var m' := Apply(true, m, step);
    SettledAtMost(m.checks);
    if !step.Zero? && !step.EnableThreshold? && !step.EnableZero? {
      SettledUpdate(m.checks, step.i, m'.checks[step.i]);
    }
  }

  lemma {:induction false} ReachableWiredInv(ms: seq<Monitor>, steps: seq<Step>, k: nat)
    requires IsRun(true, ms, steps) && k < |ms|
    ensures WiredInv(ms[k]) && |ms[k].checks| == |ms[0].checks|
  {
    if k > 0 {
      ReachableWiredInv(ms, steps, k - 1);
      StepKeepsWiredInv(ms[k - 1], steps[k - 1]);
    }
  }

  /** The counter never exceeds the number of monitor threads: every check's own send zeroes it first. */
  lemma WiredCounterAtMostThreads(ms: seq<Monitor>, steps: seq<Step>, k: nat)
    requires IsRun(true, ms, steps) && k < |ms|
    ensures ms[k].failures <= |ms[0].checks|
  {
    ReachableWiredInv(ms, steps, k);
    SettledAtMost(ms[k].checks);
  }

  lemma {:induction false} JudgedLimit(wired: bool, ms: seq<Monitor>, steps: seq<Step>, k: nat, bound: nat)
    requires IsRun(wired, ms, steps) && k < |ms| && forall j | 0 <= j < |ms| :: ms[j].threshold > bound
    ensures forall i | 0 <= i < |ms[k].checks| && ms[k].checks[i].Judged? :: ms[k].checks[i].limit > bound
  {
    if k > 0 {
      JudgedLimit(wired, ms, steps, k - 1, bound);
      var m := ms[k - 1];
      assert m.threshold > bound;
      assert Enabled(wired, m, steps[k - 1]) && ms[k] == Apply(wired, m, steps[k - 1]);
    }
  }

  /** So the wired monitor never requests BUSY_LOOP under thresholds above the number of its threads. */
  lemma WiredNeverRequestsBusyLoop(ms: seq<Monitor>, steps: seq<Step>, k: nat)
    requires IsRun(true, ms, steps) && k < |steps|
    requires forall j | 0 <= j < |ms| :: ms[j].threshold > |ms[0].checks|
    ensures !RequestsBusyLoop(ms[k], steps[k])
  {
    ReachableWiredInv(ms, steps, k);
    JudgedLimit(true, ms, steps, k, |ms[0].checks|);
  }

  /** With a single thread the counter never exceeds 1, so the default threshold 3 is never reached. */
  lemma WiredSingleThread(ms: seq<Monitor>, steps: seq<Step>, k: nat)
    requires IsRun(true, ms, steps) && k < |steps| && |ms[0].checks| == 1
    requires forall j | 0 <= j < |ms| :: ms[j].threshold > 1
    ensures ms[k].failures <= 1 && !RequestsBusyLoop(ms[k], steps[k])
  {
    WiredCounterAtMostThreads(ms, steps, k);
    WiredNeverRequestsBusyLoop(ms, steps, k);
  }

  /** The bound is met: two threads, the second left over from a join that timed out, reach the threshold 2. */
  lemma WiredTwoThreads() returns (ms: seq<Monitor>, steps: seq<Step>)
    ensures |ms| == |steps| + 1 && IsRun(true, ms, steps) && ms[0] == Monitor(0, 2, [Idle, Idle])
    ensures ms[|steps|].failures == 2 && RequestsBusyLoop(ms[|steps|], Report(1))
  {
    hide IsRun, FailedSince;
    ms, steps := [Monitor(0, 2, [Idle, Idle])], [];
    StartRun(true, ms[0]);
    ms, steps := ExtendRun(true, ms, steps, Begin(0));
    ms, steps := ExtendRun(true, ms, steps, Begin(1));
    ms, steps := ExtendRun(true, ms, steps, Answer(0, false));
    ms, steps := ExtendRun(true, ms, steps, Answer(1, false));
    ms, steps := FailedCheck(true, ms, steps, 0);
    ms, steps := FailedCheck(true, ms, steps, 1);
  }

  /** A wired run of `n` threads, all under the threshold `t`. */
  ghost predicate SteadyRun(ms: seq<Monitor>, steps: seq<Step>, n: nat, t: int) {
    IsRun(true, ms, steps) && |ms[0].checks| == n && forall j | 0 <= j < |ms| :: ms[j].threshold == t
  }

  lemma ExtendSteady(ms: seq<Monitor>, steps: seq<Step>, n: nat, t: int, step: Step)
    returns (ms': seq<Monitor>, steps': seq<Step>)
    requires SteadyRun(ms, steps, n, t) && Enabled(true, ms[|steps|], step) && !step.EnableThreshold?
    ensures SteadyRun(ms', steps', n, t) && ms'[|steps'|] == Apply(true, ms[|steps|], step)
    ensures ms' == ms + [Apply(true, ms[|steps|], step)] && steps' == steps + [step]
  {
    ms', steps' := ms + [Apply(true, ms[|steps|], step)], steps + [step];
  }

  /** `n` checks, the first `i` of them in one state and the others in another. */
  function TwoKinds(n: nat, i: nat, first: Check, rest: Check): (r: seq<Check>)
    requires i <= n
    ensures |r| == n && forall k | 0 <= k < n :: r[k] == if k < i then first else rest
  {
    seq(n, k requires 0 <= k < n => if k < i then first else rest)
  }

  lemma {:induction false} AllSend(n: nat, t: int, i: nat) returns (ms: seq<Monitor>, steps: seq<Step>)
    requires i <= n
    ensures SteadyRun(ms, steps, n, t) && ms[|steps|] == Monitor(0, t, TwoKinds(n, i, Sending, Idle))
  {
    if i == 0 {
      ms, steps := [Monitor(0, t, TwoKinds(n, 0, Sending, Idle))], [];
    } else {
      ms, steps := AllSend(n, t, i - 1);
      var before := ms[|steps|].checks;
      assert before[i - 1 := Sending] == TwoKinds(n, i, Sending, Idle);
      ms, steps := ExtendSteady(ms, steps, n, t, Begin(i - 1));
    }
  }

  lemma {:induction false} AllFail(n: nat, t: int, i: nat) returns (ms: seq<Monitor>, steps: seq<Step>)
    requires i <= n
    ensures SteadyRun(ms, steps, n, t) && ms[|steps|] == Monitor(0, t, TwoKinds(n, i, Answered(false), Sending))
  {
    if i == 0 {
      ms, steps := AllSend(n, t, n);
      assert TwoKinds(n, n, Sending, Idle) == TwoKinds(n, 0, Answered(false), Sending);
    } else {
      ms, steps := AllFail(n, t, i - 1);
      var before := ms[|steps|].checks;
      assert before[i - 1 := Answered(false)] == TwoKinds(n, i, Answered(false), Sending);
      ms, steps := ExtendSteady(ms, steps, n, t, Answer(i - 1, false));
    }
  }

  /** The first `i` checks have added to the counter, the others wait to. */
  ghost predicate Counted(m: Monitor, n: nat, t: int, i: nat) {
    && m.failures == i && m.threshold == t && |m.checks| == n && i <= n
    && forall k | 0 <= k < n :: m.checks[k] == if k < i then Judged(k + 1, t) else Answered(false)
  }

  lemma {:induction false} AllCount(n: nat, t: int, i: nat) returns (ms: seq<Monitor>, steps: seq<Step>)
    requires i <= n
    ensures SteadyRun(ms, steps, n, t) && Counted(ms[|steps|], n, t, i)
  {
    if i == 0 {
      ms, steps := AllFail(n, t, n);
    } else {
      ms, steps := AllCount(n, t, i - 1);
      ms, steps := ExtendSteady(ms, steps, n, t, FailRead(i - 1));
      ms, steps := ExtendSteady(ms, steps, n, t, FailWrite(i - 1));
      ms, steps := ExtendSteady(ms, steps, n, t, FailCapture(i - 1));
    }
  }

  ghost predicate RequestingRun(ms: seq<Monitor>, steps: seq<Step>, n: nat, t: int, k: nat) {
    SteadyRun(ms, steps, n, t) && k < |steps| && RequestsBusyLoop(ms[k], steps[k])
  }

  /**
   * With `n` threads and the threshold `t` some wired run requests BUSY_LOOP iff there is a thread
   * and `t` is not above `n`.
   */
  lemma WiredRequestsIff(n: nat, t: int)
    ensures (exists ms, steps, k: nat :: RequestingRun(ms, steps, n, t, k)) <==> n > 0 && t <= n
  {
    if n > 0 && t <= n {
      var ms, steps := AllCount(n, t, n);
      var k := |steps|;
      assert RequestsBusyLoop(ms[k], Report(n - 1));
      ms, steps := ExtendSteady(ms, steps, n, t, Report(n - 1));
      assert RequestingRun(ms, steps, n, t, k);
    }
    forall ms, steps, k: nat | RequestingRun(ms, steps, n, t, k) ensures n > 0 && t <= n {
      ReachableWiredInv(ms, steps, k);
      if t > n {
        WiredNeverRequestsBusyLoop(ms, steps, k);
      }
    }
  }

  // ---------- a check nobody disturbs ----------

  /** The steps lead from one state to the other. */
  predicate Leads(wired: bool, m: Monitor, steps: seq<Step>, m': Monitor)
    decreases |steps|
  {
    if steps == [] then m == m'
    else Enabled(wired, m, steps[0]) && Leads(wired, Apply(wired, m, steps[0]), steps[1..], m')
  }

  /** The steps of check `i`. */
  function CheckSteps(i: nat, ok: bool): seq<Step> {
    [Begin(i), Answer(i, ok)] + if ok then [Success(i)] else [FailRead(i), FailWrite(i), FailCapture(i), Report(i)]
  }

  function CountAfter(wired: bool, failures: nat, ok: bool): nat {
    if ok then 0 else if wired then 1 else failures + 1
  }

  lemma LeadsOne(wired: bool, m: Monitor, step: Step, rest: seq<Step>, m': Monitor)
    requires Enabled(wired, m, step) && Leads(wired, Apply(wired, m, step), rest, m')
    ensures Leads(wired, m, [step] + rest, m')
  {
    assert ([step] + rest)[1..] == rest;
  }

  lemma UndisturbedCheck(wired: bool, m: Monitor, i: nat, ok: bool)
    requires i < |m.checks| && m.checks[i].Idle? && !m.Locked()
    ensures Leads(wired, m, CheckSteps(i, ok), m.(failures := CountAfter(wired, m.failures, ok)))
  {
    var end := m.(failures := CountAfter(wired, m.failures, ok));
    var m1 := Apply(wired, m, Begin(i));
    var m2 := Apply(wired, m1, Answer(i, ok));
    var rest := if ok then [Success(i)] else [FailRead(i), FailWrite(i), FailCapture(i), Report(i)];
    if ok {
      assert Apply(wired, m2, Success(i)) == end;
      LeadsOne(wired, m2, Success(i), [], end);
    } else {
      UndisturbedFailure(wired, m2, i);
      assert end.checks == m2.checks[i := Idle];
    }
    assert Leads(wired, m2, rest, end);
    hide Leads;
    LeadsOne(wired, m1, Answer(i, ok), rest, end);
    LeadsOne(wired, m, Begin(i), [Answer(i, ok)] + rest, end);
    assert CheckSteps(i, ok) == [Begin(i)] + ([Answer(i, ok)] + rest);
  }

  lemma UndisturbedFailure(wired: bool, m: Monitor, i: nat)
    requires i < |m.checks| && m.checks[i] == Answered(false) && !m.Locked()
    ensures Leads(wired, m, [FailRead(i), FailWrite(i), FailCapture(i), Report(i)],
      Monitor(m.failures + 1, m.threshold, m.checks[i := Idle]))
  {
    var end := Monitor(m.failures + 1, m.threshold, m.checks[i := Idle]);
    var m1 := Apply(wired, m, FailRead(i));
    var m2 := Apply(wired, m1, FailWrite(i));
    var m3 := Apply(wired, m2, FailCapture(i));
    assert Apply(wired, m3, Report(i)).checks == end.checks;
    LeadsOne(wired, m3, Report(i), [], end);
    hide Leads;
    LeadsOne(wired, m2, FailCapture(i), [Report(i)], end);
    LeadsOne(wired, m1, FailWrite(i), [FailCapture(i)] + [Report(i)], end);
    LeadsOne(wired, m, FailRead(i), [FailWrite(i)] + ([FailCapture(i)] + [Report(i)]), end);
    assert [FailRead(i), FailWrite(i), FailCapture(i), Report(i)]
        == [FailRead(i)] + ([FailWrite(i)] + ([FailCapture(i)] + [Report(i)]));
  }
}

module Heartbeat {
  import opened Options
  import opened HeartbeatProtocol

  const MIN_HEARTBEAT_INTERVAL: real := 30.0

  /** What the send function reported: a successful reply, any other status, or an exception. */
  datatype SendResult = Replied | NoReply | Failed

  /**
   * One turn of the monitor loop: the clock, whether the device was active since the turn before,
   * whether a command is running, the device's health, and, should a check be made, what it gets and
   * when it ends.
   */
  datatype Tick = Tick(now: real, active: bool, inCommand: bool, healthy: bool, result: SendResult, doneAt: real)

  /** The clock goes forward. */
  predicate InOrder(ticks: seq<Tick>) {
    && (forall i | 0 <= i < |ticks| :: ticks[i].now <= ticks[i].doneAt)
    && (forall i, j | 0 <= i < j < |ticks| :: ticks[i].doneAt <= ticks[j].now)
  }

  class HeartbeatMonitor {
    var enabled: bool
    var interval: real
    var threshold: int
    var failures: nat
    var lastHeartbeatTime: real
    var inCommand: bool
    ghost const checks: seq<Check>   // the checks in progress while a method runs

    constructor (now: real, ghost checks: seq<Check>)
      ensures !enabled && interval == 60.0 && threshold == 3 && failures == 0
      ensures lastHeartbeatTime == now && !inCommand && this.checks == checks
    {
      enabled, interval, threshold, failures, lastHeartbeatTime, inCommand := false, 60.0, 3, 0, now, false;
      this.checks := checks;
    }

    /** The monitor as the protocol sees it. */
    ghost function Protocol(): Monitor
      reads this
    {
      Monitor(failures, threshold, checks)
    }

    method ResetFailures()
      modifies this`failures
      ensures failures == 0
      ensures !old(Protocol()).Locked() ==> Leads(false, old(Protocol()), [Zero], Protocol())
    {
      failures := 0;
    }

    method UpdateActivity()
      modifies this`failures
      ensures failures == 0
      ensures !old(Protocol()).Locked() ==> Leads(false, old(Protocol()), [Zero], Protocol())
    {
      failures := 0;
    }

    method MarkCommandStart()
      modifies this`inCommand
      ensures inCommand
    {
      inCommand := true;
    }

    method MarkCommandEnd()
      modifies this`inCommand, this`failures
      ensures !inCommand && failures == 0
      ensures !old(Protocol()).Locked() ==> Leads(false, old(Protocol()), [Zero], Protocol())
    {
      inCommand := false;
      failures := 0;
    }

    /** False stands for the ValueError of a too short interval. It takes no lock. */
    method EnableHeartbeat(newInterval: real, newThreshold: int) returns (ok: bool)
      modifies this`enabled, this`interval, this`threshold, this`failures
      ensures ok == (newInterval >= 30.0)
      ensures ok ==> enabled && interval == newInterval && threshold == newThreshold && failures == 0
      ensures ok ==> Leads(false, old(Protocol()), [EnableThreshold(newThreshold), EnableZero], Protocol())
      ensures !ok ==> unchanged(this)
    {
      if newInterval < MIN_HEARTBEAT_INTERVAL { return false; }
      enabled := true;
      interval := newInterval;
      threshold := newThreshold;
      failures := 0;
      ok := true;
    }

    method ShouldCheckHeartbeat(now: real, healthy: bool) returns (due: bool)
      ensures due <==> !inCommand && now - lastHeartbeatTime >= interval && healthy
    {
      if inCommand { return false; }
      var elapsed := now - lastHeartbeatTime;
      if elapsed < interval { return false; }
      if !healthy { return false; }
      due := true;
    }

    /** The result is false when the threshold is reached; then BUSY_LOOP is requested. */
    method HandleHeartbeatFailure() returns (belowThreshold: bool, requestsBusyLoop: bool)
      modifies this`failures
      ensures failures == old(failures) + 1
      ensures requestsBusyLoop <==> failures >= threshold
      ensures belowThreshold == !requestsBusyLoop
    {
      failures := failures + 1;
      requestsBusyLoop := failures >= threshold;
      belowThreshold := !requestsBusyLoop;
    }

    /**
     * A whole undisturbed check is a sequence of steps of the protocol; `wired` sends through a
     * command that ends with `mark_command_end`.
     */
    method CheckHeartbeat(result: SendResult, wired: bool, doneAt: real) returns (ok: bool, requestsBusyLoop: bool)
      modifies this`failures, this`inCommand, this`lastHeartbeatTime
      ensures !inCommand && lastHeartbeatTime == doneAt
      ensures failures == CountAfter(wired, old(failures), result.Replied?)
      ensures forall i: nat | i < |checks| && checks[i].Idle? && !old(Protocol()).Locked() ::
        Leads(wired, old(Protocol()), CheckSteps(i, result.Replied?), Protocol())
      ensures requestsBusyLoop <==> !result.Replied? && failures >= threshold
      ensures ok == !requestsBusyLoop
    {
      ghost var before := Protocol();
      MarkCommandStart();
      if wired { MarkCommandEnd(); }
      if result.Replied? {
        failures := 0;
        ok, requestsBusyLoop := true, false;
      } else {
        ok, requestsBusyLoop := HandleHeartbeatFailure();
      }
      inCommand := false;
      lastHeartbeatTime := doneAt;
      forall i: nat | i < |checks| && checks[i].Idle? && !before.Locked()
        ensures Leads(wired, before, CheckSteps(i, result.Replied?), Protocol())
      {
        UndisturbedCheck(wired, before, i, result.Replied?);
      }
    }

    /**
     * The monitor loop over any number of turns: checks are never closer than the interval, counted
     * from the end of one to the start of the next, and never begin in a command or on an unhealthy
     * device; a turn without a reason of that kind is not skipped. BUSY_LOOP is requested in the turns
     * `asked`: those whose check fails and brings the count to the threshold.
     */
    method MonitorLoop(ticks: seq<Tick>, wired: bool) returns (sent: seq<nat>, asked: set<nat>)
      requires InOrder(ticks) && interval > 0.0
      modifies this`failures, this`inCommand, this`lastHeartbeatTime
      ensures WellSpaced(ticks, |ticks|, sent, old(lastHeartbeatTime), interval)
      ensures SkipsForReason(ticks, |ticks|, sent, old(lastHeartbeatTime), interval)
      ensures failures == CountUpTo(wired, old(failures), ticks, sent, |ticks|)
      ensures AsksAtThreshold(wired, old(failures), ticks, sent, |ticks|, asked, threshold)
    {
      hide *;
      ghost var start, first := lastHeartbeatTime, failures;
      sent, asked := [], {};
      NothingSent(ticks, start, interval);
      NothingCounted(wired, first, ticks, threshold);
      for t := 0 to |ticks|
        invariant interval == old(interval) && threshold == old(threshold) && Turns(ticks, |ticks|, sent)
        invariant WellSpaced(ticks, t, sent, start, interval) && SkipsForReason(ticks, t, sent, start, interval)
        invariant lastHeartbeatTime == LastDone(start, ticks, sent)
        invariant failures == CountUpTo(wired, first, ticks, sent, t)
        invariant AsksAtThreshold(wired, first, ticks, sent, t, asked, threshold)
      {
        if ticks[t].active { UpdateActivity(); }
        inCommand := ticks[t].inCommand;
        var due := ShouldCheckHeartbeat(ticks[t].now, ticks[t].healthy);
        SentBefore(ticks, t, sent, start, interval);
        if due {
          SendOneMore(ticks, t, sent, start, interval);
          CountOneMore(wired, first, ticks, sent, t, asked, threshold);
          var _, requests := CheckHeartbeat(ticks[t].result, wired, ticks[t].doneAt);
          sent := sent + [t];
          if requests { asked := asked + {t}; }
        } else {
          SkipOneMore(ticks, t, sent, start, interval);
          CountNoMore(wired, first, ticks, sent, t, asked, threshold);
        }
      }
    }
  }

  /** The count after the first `t` turns: failed checks since the last success or activity. */
  function CountUpTo(wired: bool, first: nat, ticks: seq<Tick>, sent: seq<nat>, t: nat): nat
    requires t <= |ticks|
  {
    if t == 0 then first
    else
      var before := if ticks[t - 1].active then 0 else CountUpTo(wired, first, ticks, sent, t - 1);
      if t - 1 in sent then CountAfter(wired, before, ticks[t - 1].result.Replied?) else before
  }

  /** BUSY_LOOP is requested in turn `t`. */
  predicate AsksIn(wired: bool, first: nat, ticks: seq<Tick>, sent: seq<nat>, t: nat, threshold: int)
    requires t < |ticks|
  {
    t in sent && !ticks[t].result.Replied? && CountUpTo(wired, first, ticks, sent, t + 1) >= threshold
  }

  predicate AsksAtThreshold(
    wired: bool, first: nat, ticks: seq<Tick>, sent: seq<nat>, n: nat, asked: set<nat>, threshold: int)
    requires n <= |ticks|
  {
    && (forall t | t in asked :: t < n)
    && forall t: nat | t < n :: t in asked <==> AsksIn(wired, first, ticks, sent, t, threshold)
  }

  lemma NothingCounted(wired: bool, first: nat, ticks: seq<Tick>, threshold: int)
    ensures CountUpTo(wired, first, ticks, [], 0) == first
    ensures AsksAtThreshold(wired, first, ticks, [], 0, {}, threshold)
  {
  }

  lemma SentBefore(ticks: seq<Tick>, t: nat, sent: seq<nat>, start: real, interval: real)
    requires WellSpaced(ticks, t, sent, start, interval)
    ensures t !in sent
  {
  }

  lemma {:induction false} CountIgnoresLater(
    wired: bool, first: nat, ticks: seq<Tick>, sent: seq<nat>, more: seq<nat>, t: nat)
    requires t <= |ticks| && forall u: nat | u < t :: u in sent <==> u in more
    ensures CountUpTo(wired, first, ticks, sent, t) == CountUpTo(wired, first, ticks, more, t)
  {
    if t > 0 {
      CountIgnoresLater(wired, first, ticks, sent, more, t - 1);
    }
  }

  lemma CountNoMore(
    wired: bool, first: nat, ticks: seq<Tick>, sent: seq<nat>, t: nat, asked: set<nat>, threshold: int)
    requires t < |ticks| && t !in sent && AsksAtThreshold(wired, first, ticks, sent, t, asked, threshold)
    ensures CountUpTo(wired, first, ticks, sent, t + 1)
         == if ticks[t].active then 0 else CountUpTo(wired, first, ticks, sent, t)
    ensures AsksAtThreshold(wired, first, ticks, sent, t + 1, asked, threshold)
  {
  }

  lemma CountOneMore(
    wired: bool, first: nat, ticks: seq<Tick>, sent: seq<nat>, t: nat, asked: set<nat>, threshold: int)
    requires t < |ticks| && t !in sent && AsksAtThreshold(wired, first, ticks, sent, t, asked, threshold)
    ensures var before := if ticks[t].active then 0 else CountUpTo(wired, first, ticks, sent, t);
      var count := CountAfter(wired, before, ticks[t].result.Replied?);
      && CountUpTo(wired, first, ticks, sent + [t], t + 1) == count
      && AsksAtThreshold(wired, first, ticks, sent + [t], t + 1,
           if !ticks[t].result.Replied? && count >= threshold then asked + {t} else asked, threshold)
  {
    var more := sent + [t];
    assert more[|sent|] == t;
    assert forall u: nat | u < t :: u in sent <==> u in more;
    CountIgnoresLater(wired, first, ticks, sent, more, t);
    forall u: nat | u < t
      ensures AsksIn(wired, first, ticks, sent, u, threshold) == AsksIn(wired, first, ticks, more, u, threshold)
    {
      CountIgnoresLater(wired, first, ticks, sent, more, u + 1);
    }
  }

  /** Nothing zeroes the count between turns `u` and `t`. */
  predicate Unbroken(ticks: seq<Tick>, sent: seq<nat>, u: nat, t: nat)
    requires t <= |ticks|
  {
    && (forall v | u < v < t :: !ticks[v].active)
    && (forall v | u <= v < t && v in sent :: !ticks[v].result.Replied?)
  }

  /** The checks made in the turns from `u` up to `t`. */
  function ChecksIn(sent: seq<nat>, u: nat, t: nat): set<nat> {
    set v: nat | u <= v < t && v in sent
  }

  lemma ChecksOneMore(sent: seq<nat>, u: nat, t: nat)
    requires u <= t
    ensures |ChecksIn(sent, u, u)| == 0
    ensures |ChecksIn(sent, u, t + 1)| == |ChecksIn(sent, u, t)| + if t in sent then 1 else 0
  {
    assert ChecksIn(sent, u, u) == {};
    assert ChecksIn(sent, u, t + 1) == ChecksIn(sent, u, t) + if t in sent then {t} else {};
  }

  /**
   * The count is the number of checks since the last activity or the last success, all of which
   * failed; in the wired form every check begins at zero.
   */
  lemma {:induction false} CountIs(wired: bool, first: nat, ticks: seq<Tick>, sent: seq<nat>, u: nat, t: nat)
    requires u < t <= |ticks| && Unbroken(ticks, sent, u, t)
    requires ticks[u].active || (if u == 0 then first == 0 else u - 1 in sent && ticks[u - 1].result.Replied?)
    ensures CountUpTo(wired, first, ticks, sent, t)
         == var failed := |ChecksIn(sent, u, t)|; if wired && failed > 1 then 1 else failed
    decreases t
  {
    ChecksOneMore(sent, u, t - 1);
    hide ChecksIn;
    if u < t - 1 {
      CountIs(wired, first, ticks, sent, u, t - 1);
    }
  }

  lemma NothingSent(ticks: seq<Tick>, start: real, interval: real)
    ensures Turns(ticks, |ticks|, []) && LastDone(start, ticks, []) == start
    ensures WellSpaced(ticks, 0, [], start, interval) && SkipsForReason(ticks, 0, [], start, interval)
  {
  }

  /** The turns that may be counted from, and the checks made in them. */
  predicate Turns(ticks: seq<Tick>, n: nat, sent: seq<nat>) {
    n <= |ticks| && forall k | 0 <= k < |sent| :: sent[k] < n
  }

  /** When the last check ended. */
  function LastDone(start: real, ticks: seq<Tick>, sent: seq<nat>): real
    requires Turns(ticks, |ticks|, sent)
  {
    if sent == [] then start else ticks[sent[|sent| - 1]].doneAt
  }

  /**
   * Every check of the first `n` turns is at least the interval after the start and after the end
   * of any earlier one.
   */
  predicate WellSpaced(ticks: seq<Tick>, n: nat, sent: seq<nat>, start: real, interval: real) {
    && Turns(ticks, n, sent)
    && (forall k | 0 <= k < |sent| ::
          !ticks[sent[k]].inCommand && ticks[sent[k]].healthy && ticks[sent[k]].now - start >= interval)
    && (forall k, l | 0 <= k < l < |sent| ::
          sent[k] < sent[l] && ticks[sent[l]].now - ticks[sent[k]].doneAt >= interval)
  }

  /** Turn `t` comes too soon after the start or after the end of an earlier check. */
  predicate TooSoon(ticks: seq<Tick>, sent: seq<nat>, start: real, interval: real, t: nat)
    requires Turns(ticks, |ticks|, sent) && t < |ticks|
  {
    || ticks[t].now - start < interval
    || exists k | 0 <= k < |sent| :: sent[k] < t && ticks[t].now - ticks[sent[k]].doneAt < interval
  }

  /** A turn without a check is in a command, finds an unhealthy device or comes too soon. */
  predicate SkipsForReason(ticks: seq<Tick>, n: nat, sent: seq<nat>, start: real, interval: real) {
    && Turns(ticks, n, sent)
    && forall t | 0 <= t < n && t !in sent ::
         ticks[t].inCommand || !ticks[t].healthy || TooSoon(ticks, sent, start, interval, t)
  }

  lemma SendOneMore(ticks: seq<Tick>, t: nat, sent: seq<nat>, start: real, interval: real)
    requires InOrder(ticks) && t < |ticks| && interval > 0.0
    requires WellSpaced(ticks, t, sent, start, interval) && SkipsForReason(ticks, t, sent, start, interval)
    requires Turns(ticks, |ticks|, sent)
    requires !ticks[t].inCommand && ticks[t].healthy && ticks[t].now - LastDone(start, ticks, sent) >= interval
    ensures Turns(ticks, |ticks|, sent + [t]) && LastDone(start, ticks, sent + [t]) == ticks[t].doneAt
    ensures WellSpaced(ticks, t + 1, sent + [t], start, interval)
    ensures SkipsForReason(ticks, t + 1, sent + [t], start, interval)
  {
    hide *;
    SpacedFromAll(ticks, t, sent, start, interval);
    SkipsKept(ticks, t, sent, start, interval);
    SpacedOneMore(ticks, t, sent, start, interval);
  }

  lemma SpacedOneMore(ticks: seq<Tick>, t: nat, sent: seq<nat>, start: real, interval: real)
    requires t < |ticks| && WellSpaced(ticks, t, sent, start, interval)
    requires !ticks[t].inCommand && ticks[t].healthy && ticks[t].now - start >= interval
    requires forall k | 0 <= k < |sent| :: sent[k] < t && ticks[t].now - ticks[sent[k]].doneAt >= interval
    ensures Turns(ticks, |ticks|, sent + [t]) && LastDone(start, ticks, sent + [t]) == ticks[t].doneAt
    ensures WellSpaced(ticks, t + 1, sent + [t], start, interval)
  {
    var more := sent + [t];
    assert forall k | 0 <= k < |sent| :: more[k] == sent[k];
    assert more[|sent|] == t;
  }

  /** Being far enough from the last check is being far enough from all of them. */
  lemma SpacedFromAll(ticks: seq<Tick>, t: nat, sent: seq<nat>, start: real, interval: real)
    requires InOrder(ticks) && t < |ticks| && interval > 0.0 && Turns(ticks, |ticks|, sent)
    requires WellSpaced(ticks, t, sent, start, interval) && ticks[t].now - LastDone(start, ticks, sent) >= interval
    ensures ticks[t].now - start >= interval
    ensures forall k | 0 <= k < |sent| :: sent[k] < t && ticks[t].now - ticks[sent[k]].doneAt >= interval
  {
    if sent != [] {
      var last := sent[|sent| - 1];
      forall k | 0 <= k < |sent| ensures ticks[t].now - ticks[sent[k]].doneAt >= interval {
        assert sent[k] < last || k == |sent| - 1;
      }
    }
  }

  lemma SkipsKept(ticks: seq<Tick>, t: nat, sent: seq<nat>, start: real, interval: real)
    requires t < |ticks| && SkipsForReason(ticks, t, sent, start, interval)
    ensures SkipsForReason(ticks, t + 1, sent + [t], start, interval)
  {
    var more := sent + [t];
    forall u | 0 <= u < t + 1 && u !in more
      ensures ticks[u].inCommand || !ticks[u].healthy || TooSoon(ticks, more, start, interval, u)
    {
      assert more[|sent|] == t && u != t;
      assert forall k | 0 <= k < |sent| :: more[k] == sent[k];
      assert u !in sent;
      assert TooSoon(ticks, sent, start, interval, u) ==> TooSoon(ticks, more, start, interval, u);
    }
  }

  lemma SkipOneMore(ticks: seq<Tick>, t: nat, sent: seq<nat>, start: real, interval: real)
    requires t < |ticks| && WellSpaced(ticks, t, sent, start, interval)
    requires SkipsForReason(ticks, t, sent, start, interval)
    requires Turns(ticks, |ticks|, sent)
    requires ticks[t].inCommand || !ticks[t].healthy || ticks[t].now - LastDone(start, ticks, sent) < interval
    ensures WellSpaced(ticks, t + 1, sent, start, interval) && SkipsForReason(ticks, t + 1, sent, start, interval)
  {
    if ticks[t].now - LastDone(start, ticks, sent) < interval {
      assert sent != [] ==> sent[|sent| - 1] < t;
      assert TooSoon(ticks, sent, start, interval, t);
    }
  }
}

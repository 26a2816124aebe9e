/** The device's health state and its guarded transitions. */
module DeviceHealth {
  import opened Options
  import opened Text
  import opened Heartbeat

  datatype CrashType = Unknown | Assertion | Segfault | Panic

  datatype DeviceState = Normal | BusyLoop | Crashed | Unhealthy

  /** The fields a transition works on. */
  datatype Health = Health(state: DeviceState, crashType: CrashType)

  datatype Op =
    | TransitionTo(to: DeviceState, crash: Option<CrashType>)
    | ResetAll

  function Step(h: Health, op: Op): Health {
    match op
    case ResetAll => Health(Normal, Unknown)
    case TransitionTo(to, crash) =>
      if h.state == to && to != Normal then h
      else Health(to, if crash.Some? then crash.value else h.crashType)
  }

  function Run(h: Health, ops: seq<Op>): Health {
    if ops == [] then h else Step(Run(h, ops[..|ops| - 1]), ops[|ops| - 1])
  }

  predicate IsFault(state: DeviceState) {
    state.Crashed? || state.BusyLoop? || state.Unhealthy?
  }

  /** Every state but the normal one is a fault. */
  lemma FaultIffNotNormal(state: DeviceState)
    ensures IsFault(state) <==> state != Normal
  {
  }

  /** The state is what the last operation asked for, and a reset leaves nothing of what was before. */
  lemma StateIsLastAsked(h: Health, ops: seq<Op>, last: Op)
    ensures last.TransitionTo? ==> Run(h, ops + [last]).state == last.to
    ensures last.ResetAll? ==> Run(h, ops + [last]) == Health(Normal, Unknown)
    ensures last.TransitionTo? && last.crash.None? ==> Run(h, ops + [last]).crashType == Run(h, ops).crashType
    ensures last.TransitionTo? && last.crash.Some? && (last.to == Normal || Run(h, ops).state != last.to) ==>
      Run(h, ops + [last]).crashType == last.crash.value
  {
    assert (ops + [last])[..|ops|] == ops;
  }

  /** The operation leaves a crashed device crashed. */
  predicate StaysCrashed(op: Op) {
    op.TransitionTo? && op.to.Crashed?
  }

  /** As long as a crashed device is only reported crashed again, the type of the first crash is kept. */
  lemma {:induction false} FirstCrashTypeSticks(h: Health, ops: seq<Op>)
    requires h.state.Crashed? && forall i | 0 <= i < |ops| :: StaysCrashed(ops[i])
    ensures Run(h, ops) == h
  {
    if ops != [] {
      FirstCrashTypeSticks(h, ops[..|ops| - 1]);
    }
  }

  lemma {:induction false} RunConcat(h: Health, first: seq<Op>, second: seq<Op>)
    ensures Run(h, first + second) == Run(Run(h, first), second)
  {
    if second == [] {
      assert first + second == first;
    } else {
      var n := |second| - 1;
      RunConcat(h, first, second[..n]);
      assert (first + second)[..|first| + n] == first + second[..n];
    }
  }

  /**
   * The crash type is the one reported when the current crash began: whatever happened before
   * and however often the crash is reported again with other types.
   */
  lemma CrashTypeOfEpisode(h: Health, before: seq<Op>, kind: CrashType, repeats: seq<Op>)
    requires !Run(h, before).state.Crashed? && forall i | 0 <= i < |repeats| :: StaysCrashed(repeats[i])
    ensures Run(h, before + [TransitionTo(Crashed, Some(kind))] + repeats) == Health(Crashed, kind)
  {
    var entry := [TransitionTo(Crashed, Some(kind))];
    RunConcat(h, before, entry);
    RunConcat(h, before + entry, repeats);
    assert Run(Run(h, before), entry) == Step(Run(h, before), entry[0]) by {
      assert entry[..0] == [];
    }
    FirstCrashTypeSticks(Health(Crashed, kind), repeats);
  }

  predicate SomeOccurs(signatures: seq<string>, output: string) {
    exists j | 0 <= j < |signatures| :: Contains(output, signatures[j])
  }

  /** Group `i` is the first, in registration order, with a signature in the output. */
  predicate FirstGroup(groups: seq<(CrashType, seq<string>)>, output: string, i: nat) {
    && i < |groups| && SomeOccurs(groups[i].1, output)
    && forall k | 0 <= k < i :: !SomeOccurs(groups[k].1, output)
  }

  predicate HasSignature(groups: seq<(CrashType, seq<string>)>, output: string) {
    exists i | 0 <= i < |groups| :: SomeOccurs(groups[i].1, output)
  }

  /** The type of the first group, in registration order, with a signature in the output. */
  function CrashTypeOf(groups: seq<(CrashType, seq<string>)>, output: string): (r: Option<CrashType>)
    ensures r.None? <==> !HasSignature(groups, output)
    ensures r.Some? ==> exists i: nat :: FirstGroup(groups, output, i) && r.value == groups[i].0
  {
    if groups == [] then None
    else if SomeOccurs(groups[0].1, output) then
      assert FirstGroup(groups, output, 0);
      Some(groups[0].0)
    else
      var rest := CrashTypeOf(groups[1..], output);
      assert forall i | 1 <= i < |groups| :: groups[i] == groups[1..][i - 1];
      assert forall i: nat | FirstGroup(groups[1..], output, i) :: FirstGroup(groups, output, i + 1);
      rest
  }

  lemma CrashTypeOfFirst(groups: seq<(CrashType, seq<string>)>, output: string)
    ensures CrashTypeOf(groups, output) ==
      if groups == [] then None
      else if SomeOccurs(groups[0].1, output) then Some(groups[0].0) else CrashTypeOf(groups[1..], output)
  {
    hide SomeOccurs;
  }

  class DeviceStateManager {
    const busyloopThreshold: real
    const signatures: seq<(CrashType, seq<string>)>
    const heartbeat: HeartbeatMonitor
    var currentState: DeviceState
    var lastActivityTime: Option<real>
    var crashType: CrashType

    constructor (threshold: real, signatures: seq<(CrashType, seq<string>)>, heartbeat: HeartbeatMonitor)
      ensures busyloopThreshold == threshold && this.signatures == signatures && this.heartbeat == heartbeat
      ensures View() == Health(Normal, Unknown) && lastActivityTime == None
    {
      busyloopThreshold, this.signatures, this.heartbeat := threshold, signatures, heartbeat;
      currentState, lastActivityTime, crashType := Normal, None, Unknown;
    }

    function View(): Health
      reads this
    {
      Health(currentState, crashType)
    }

    predicate IsUnhealthy()
      reads this
    {
      IsFault(currentState)
    }

    method TransitionTo(newState: DeviceState, crash: Option<CrashType>)
      modifies this`currentState, this`crashType
      ensures View() == Step(old(View()), Op.TransitionTo(newState, crash))
    {
      var oldState := currentState;
      if oldState == newState && newState != Normal { return; }
      currentState := newState;
      if crash.Some? { crashType := crash.value; }
    }

    method ResetAllStates()
      modifies this, heartbeat`failures
      ensures View() == Step(old(View()), ResetAll)
      ensures lastActivityTime == None && heartbeat.failures == 0
    {
      currentState, lastActivityTime, crashType := Normal, None, Unknown;
      heartbeat.ResetFailures();
    }

    method UpdateActivity(now: real)
      modifies this`lastActivityTime, heartbeat`failures
      ensures lastActivityTime == Some(now) && heartbeat.failures == 0
    {
      lastActivityTime := Some(now);
      heartbeat.UpdateActivity();
    }

    method MarkCommandEnd(now: real)
      modifies this`lastActivityTime, heartbeat`failures, heartbeat`inCommand
      ensures lastActivityTime == Some(now) && heartbeat.failures == 0 && !heartbeat.inCommand
    {
      heartbeat.MarkCommandEnd();
      lastActivityTime := Some(now);
    }

    method CheckBusyLoopTimeout(now: real) returns (busy: bool)
      modifies this`currentState, this`crashType
      ensures busy <==> lastActivityTime.Some? && now - lastActivityTime.value > busyloopThreshold
      ensures View() == if busy then Step(old(View()), Op.TransitionTo(BusyLoop, None)) else old(View())
    {
      if lastActivityTime.None? { return false; }
      var idleTime := now - lastActivityTime.value;
      if idleTime > busyloopThreshold {
        TransitionTo(BusyLoop, None);
        return true;
      }
      return false;
    }

    method DetectCrashType(output: string) returns (r: Option<CrashType>)
      ensures r == CrashTypeOf(signatures, output)
      ensures r.None? <==> !HasSignature(signatures, output)
      ensures r.Some? ==> exists i: nat :: FirstGroup(signatures, output, i) && r.value == signatures[i].0
    {
      hide CrashTypeOf, Contains, HasSignature;
      assert signatures[0..] == signatures && signatures[|signatures|..] == [];
      CrashTypeOfFirst(signatures[|signatures|..], output);
      for i := 0 to |signatures|
        invariant CrashTypeOf(signatures, output) == CrashTypeOf(signatures[i..], output)
      {
        var sigs := signatures[i].1;
        CrashTypeOfFirst(signatures[i..], output);
        assert signatures[i..][0] == signatures[i] && signatures[i..][1..] == signatures[i + 1..];
        for j := 0 to |sigs|
          invariant forall k | 0 <= k < j :: !Contains(output, sigs[k])
        {
          if Contains(output, sigs[j]) {
            return Some(signatures[i].0);
          }
        }
      }
      r := None;
    }

    /** A device that is already crashed keeps its crash type. */
    method CheckCrash(output: string) returns (found: bool)
      modifies this`currentState, this`crashType
      ensures found <==> HasSignature(signatures, output)
      ensures View() ==
        if found then Step(old(View()), Op.TransitionTo(Crashed, CrashTypeOf(signatures, output))) else old(View())
    {
      var kind := DetectCrashType(output);
      if kind.None? { return false; }
      TransitionTo(Crashed, kind);
      found := true;
    }
  }
}

/** Reading from the device: the capped output tail, `_read_all` and the pattern loop. */
module DeviceReading {
  import opened Options
  import opened Text
  import opened Regex
  import opened DeviceHealth

  const OUTPUT_TAIL_MAX: nat := 4 * 1024 * 1024
  const OUTPUT_MAX: nat := 100000
  const FLOOD_DETECT_TIME: real := 10.0

  datatype CmdStatus = Success | NotFound | Timeout | Failed

  datatype CmdReturn = CmdReturn(status: CmdStatus, rematch: Option<Span>, output: string)

  /** The last `n` characters. */
  function LastN(text: string, n: nat): string {
    if |text| <= n then text else text[|text| - n..]
  }

  /** Capping early loses nothing: what is dropped would be dropped later anyway. */
  lemma LastNOfLastN(text: string, more: string, n: nat)
    ensures LastN(LastN(text, n) + more, n) == LastN(text + more, n)
  {
  }

  // ---------- one call of `_read_all` ----------

  /** One `_read`, with the clock after it and at the busy-loop check. */
  datatype Read = Read(chunk: string, now: real, later: real)

  /** What a call may read, one read after the other, and when its time is up. */
  datatype Reads = Reads(trace: seq<Read>, until: real)

  predicate TimeRunsOut(c: Reads) {
    c.trace != [] && c.trace[|c.trace| - 1].now > c.until
  }

  /** The clock goes on, so every call has a read after its deadline. */
  type Call = c: Reads | TimeRunsOut(c) witness Reads([Read("", 1.0, 1.0)], 0.0)

  /** What the state manager watches for. */
  datatype Watch = Watch(signatures: seq<(CrashType, seq<string>)>, threshold: real)

  /** The state a call works on: health, time of the last activity, heartbeat failures. */
  datatype Device = Device(health: Health, last: Option<real>, failures: nat)

  function Received(trace: seq<Read>): string {
    if trace == [] then "" else Received(trace[..|trace| - 1]) + trace[|trace| - 1].chunk
  }

  /** When the device was last active, after these reads. */
  function LastActivity(last: Option<real>, trace: seq<Read>): Option<real> {
    if trace == [] then last
    else if trace[|trace| - 1].chunk != "" then Some(trace[|trace| - 1].later)
    else LastActivity(last, trace[..|trace| - 1])
  }

  predicate Active(trace: seq<Read>) {
    exists i | 0 <= i < |trace| :: trace[i].chunk != ""
  }

  /** After `m` reads a crash signature shows in what the call has read. */
  predicate Crashes(w: Watch, c: Reads, m: nat)
    requires m <= |c.trace|
  {
    HasSignature(w.signatures, Received(c.trace[..m]))
  }

  /** Read `m` is empty and comes too long after the last activity, with no signature so far. */
  predicate Silent(w: Watch, last: Option<real>, c: Reads, m: nat)
    requires 1 <= m <= |c.trace|
  {
    && !Crashes(w, c, m) && c.trace[m - 1].chunk == ""
    && var active := LastActivity(last, c.trace[..m - 1]);
    active.Some? && c.trace[m - 1].later - active.value > w.threshold
  }

  /** The reasons for which a call ends after read `m`; a busy device is not checked for silence. */
  predicate EndsCall(w: Watch, d: Device, c: Reads, m: nat)
    requires 1 <= m <= |c.trace|
  {
    Crashes(w, c, m) || (!d.health.state.BusyLoop? && Silent(w, d.last, c, m)) || c.trace[m - 1].now > c.until
  }

  function FirstEnd(w: Watch, d: Device, c: Call, m: nat): (n: nat)
    requires 1 <= m <= |c.trace|
    ensures m <= n <= |c.trace| && EndsCall(w, d, c, n)
    ensures forall k | m <= k < n :: !EndsCall(w, d, c, k)
    decreases |c.trace| - m
  {
    if EndsCall(w, d, c, m) then m else FirstEnd(w, d, c, m + 1)
  }

  /** The number of reads the call makes. */
  function Length(w: Watch, d: Device, c: Call): (n: nat)
    ensures 1 <= n <= |c.trace| && EndsCall(w, d, c, n)
    ensures forall k | 1 <= k < n :: !EndsCall(w, d, c, k)
  {
    FirstEnd(w, d, c, 1)
  }

  function Raw(w: Watch, d: Device, c: Call): string {
    Received(c.trace[..Length(w, d, c)])
  }

  /** A crash ends the call before its last read counts as activity. */
  function Counted(w: Watch, d: Device, c: Call): seq<Read> {
    var n := Length(w, d, c);
    c.trace[..if Crashes(w, c, n) then n - 1 else n]
  }

  function HealthAfter(w: Watch, d: Device, c: Call): Health {
    var n := Length(w, d, c);
    if Crashes(w, c, n) then Step(d.health, Op.TransitionTo(Crashed, CrashTypeOf(w.signatures, Raw(w, d, c))))
    else if !d.health.state.BusyLoop? && Silent(w, d.last, c, n) then Step(d.health, Op.TransitionTo(BusyLoop, None))
    else d.health
  }

  function AfterCall(w: Watch, d: Device, c: Call): Device {
    var counted := Counted(w, d, c);
    Device(HealthAfter(w, d, c), LastActivity(d.last, counted), if Active(counted) then 0 else d.failures)
  }

  function AfterCalls(w: Watch, d: Device, calls: seq<Call>): Device {
    if calls == [] then d else AfterCall(w, AfterCalls(w, d, calls[..|calls| - 1]), calls[|calls| - 1])
  }

  /** What call `k` returns; `clean` strips the ANSI escapes. */
  function ChunkAt(w: Watch, clean: string -> string, d: Device, calls: seq<Call>, k: nat): string
    requires k < |calls|
  {
    clean(Raw(w, AfterCalls(w, d, calls[..k]), calls[k]))
  }

  /** Everything the calls read, as it is kept in the tail. */
  function RawOfCalls(w: Watch, d: Device, calls: seq<Call>): string {
    if calls == [] then ""
    else
      var front := calls[..|calls| - 1];
      RawOfCalls(w, d, front) + Raw(w, AfterCalls(w, d, front), calls[|calls| - 1])
  }

  /** The state after `n` reads that have not ended the call. */
  function AfterReads(d: Device, c: Reads, n: nat): Device
    requires n <= |c.trace|
  {
    Device(d.health, LastActivity(d.last, c.trace[..n]), if Active(c.trace[..n]) then 0 else d.failures)
  }

  /** The last read with data is the last activity. */
  lemma {:induction false} LastActivityIs(last: Option<real>, trace: seq<Read>, k: nat)
    requires k <= |trace| && forall j | k <= j < |trace| :: trace[j].chunk == ""
    requires k == 0 || trace[k - 1].chunk != ""
    ensures LastActivity(last, trace) == if k == 0 then last else Some(trace[k - 1].later)
    ensures Active(trace) <==> k > 0
    decreases |trace|
  {
    if k < |trace| {
      LastActivityIs(last, trace[..|trace| - 1], k);
    }
  }

  /** The tail keeps 4 MiB and a search sees 100000 characters, always the last ones. */
  lemma LimitsAre(text: string)
    ensures LastN(text, OUTPUT_TAIL_MAX) == if |text| <= 4194304 then text else text[|text| - 4194304..]
    ensures LastN(text, OUTPUT_MAX) == if |text| <= 100000 then text else text[|text| - 100000..]
  {
  }

  lemma NothingRead(last: Option<real>)
    ensures Received([]) == "" && LastActivity(last, []) == last && !Active([])
  {
  }

  /** None of the first `n` reads ends the call. */
  predicate Lasts(w: Watch, d: Device, c: Reads, n: nat)
    requires n <= |c.trace|
  {
    forall k | 1 <= k <= n :: !EndsCall(w, d, c, k)
  }

  /** Read `n` is the one that ends the call. */
  predicate IsLength(w: Watch, d: Device, c: Reads, n: nat) {
    1 <= n <= |c.trace| && EndsCall(w, d, c, n) && Lasts(w, d, c, n - 1)
  }

  lemma OneMoreRead(w: Watch, d: Device, c: Reads, n: nat)
    requires n < |c.trace|
    ensures var read, before, after := c.trace[n], c.trace[..n], c.trace[..n + 1];
      var active := LastActivity(d.last, before);
      && Received(after) == Received(before) + read.chunk
      && LastActivity(d.last, after) == (if read.chunk != "" then Some(read.later) else active)
      && (Active(after) <==> Active(before) || read.chunk != "")
      && (Crashes(w, c, n + 1) <==> HasSignature(w.signatures, Received(after)))
      && (Silent(w, d.last, c, n + 1) <==>
            !Crashes(w, c, n + 1) && read.chunk == "" && active.Some? && read.later - active.value > w.threshold)
      && (EndsCall(w, d, c, n + 1) <==>
            Crashes(w, c, n + 1) || (!d.health.state.BusyLoop? && Silent(w, d.last, c, n + 1)) || read.now > c.until)
      && (Lasts(w, d, c, n) ==> if EndsCall(w, d, c, n + 1) then IsLength(w, d, c, n + 1) else Lasts(w, d, c, n + 1))
  {
    hide HasSignature;
    var before, after := c.trace[..n], c.trace[..n + 1];
    assert after[..n] == before && after[n] == c.trace[n];
    if i :| 0 <= i < n && before[i].chunk != "" {
      assert after[i].chunk != "";
    }
    if i :| 0 <= i < |after| && after[i].chunk != "" {
      assert i < n ==> before[i] == after[i];
    }
  }

  lemma LengthIs(w: Watch, d: Device, c: Call, n: nat)
    requires IsLength(w, d, c, n)
    ensures Length(w, d, c) == n && Raw(w, d, c) == Received(c.trace[..n])
  {
    hide EndsCall, Received;
    var l := Length(w, d, c);
    assert l <= n && n <= l;
  }

  lemma EndsByCrash(w: Watch, d: Device, c: Call, n: nat)
    requires IsLength(w, d, c, n) && Crashes(w, c, n)
    ensures Raw(w, d, c) == Received(c.trace[..n])
    ensures AfterCall(w, d, c) == AfterReads(d, c, n - 1).(
      health := Step(d.health, Op.TransitionTo(Crashed, CrashTypeOf(w.signatures, Received(c.trace[..n])))))
  {
    LengthIs(w, d, c, n);
    hide Length, EndsCall, Crashes, Received, CrashTypeOf, Active, LastActivity, Step, IsLength;
  }

  lemma EndsBySilence(w: Watch, d: Device, c: Call, n: nat)
    requires IsLength(w, d, c, n) && !d.health.state.BusyLoop? && Silent(w, d.last, c, n)
    ensures Raw(w, d, c) == Received(c.trace[..n])
    ensures AfterCall(w, d, c) == AfterReads(d, c, n).(health := Step(d.health, Op.TransitionTo(BusyLoop, None)))
  {
    LengthIs(w, d, c, n);
    assert !Crashes(w, c, n);
    hide Length, EndsCall, Crashes, Silent, Received, CrashTypeOf, Active, LastActivity, Step, IsLength;
  }

  lemma EndsByTime(w: Watch, d: Device, c: Call, n: nat)
    requires IsLength(w, d, c, n) && !Crashes(w, c, n) && !(!d.health.state.BusyLoop? && Silent(w, d.last, c, n))
    ensures Raw(w, d, c) == Received(c.trace[..n]) && AfterCall(w, d, c) == AfterReads(d, c, n)
  {
    LengthIs(w, d, c, n);
    hide Length, EndsCall, Crashes, Silent, Received, CrashTypeOf, Active, LastActivity, Step, IsLength;
  }

  lemma OneMoreCall(w: Watch, d: Device, calls: seq<Call>, c: Call)
    ensures AfterCalls(w, d, calls + [c]) == AfterCall(w, AfterCalls(w, d, calls), c)
    ensures RawOfCalls(w, d, calls + [c]) == RawOfCalls(w, d, calls) + Raw(w, AfterCalls(w, d, calls), c)
  {
    assert (calls + [c])[..|calls|] == calls;
    hide AfterCall, Raw;
  }

  lemma NoCalls(w: Watch, d: Device)
    ensures AfterCalls(w, d, []) == d && RawOfCalls(w, d, []) == ""
  {
  }

  lemma {:induction false} CallsConcat(w: Watch, d: Device, a: seq<Call>, b: seq<Call>)
    ensures AfterCalls(w, d, a + b) == AfterCalls(w, AfterCalls(w, d, a), b)
    ensures RawOfCalls(w, d, a + b) == RawOfCalls(w, d, a) + RawOfCalls(w, AfterCalls(w, d, a), b)
  {
    hide *;
    if b == [] {
      assert a + b == a;
      NoCalls(w, AfterCalls(w, d, a));
    } else {
      var front, last := b[..|b| - 1], b[|b| - 1];
      assert b == front + [last] && a + b == a + front + [last];
      CallsConcat(w, d, a, front);
      OneMoreCall(w, d, a + front, last);
      OneMoreCall(w, AfterCalls(w, d, a), front, last);
    }
  }

  // ---------- the pattern loop ----------

  /** One round: its call, the clock after it, and whether the device itself is still there. */
  datatype Round = Round(call: Call, now: real, alive: bool)

  /** What the loop sees of a round. */
  datatype Seen = Seen(chunk: string, now: real, healthy: bool)

  function RoundCalls(rounds: seq<Round>): (r: seq<Call>)
    ensures |r| == |rounds| && forall k | 0 <= k < |rounds| :: r[k] == rounds[k].call
  {
    seq(|rounds|, k requires 0 <= k < |rounds| => rounds[k].call)
  }

  /** The health check of a round looks at the state the round's own call has left. */
  function Observed(w: Watch, clean: string -> string, d: Device, rounds: seq<Round>): (r: seq<Seen>)
    ensures |r| == |rounds|
    ensures forall k | 0 <= k < |rounds| ::
      r[k] == Seen(ChunkAt(w, clean, d, RoundCalls(rounds), k), rounds[k].now,
        rounds[k].alive && !IsFault(AfterCalls(w, d, RoundCalls(rounds)[..k + 1]).health.state))
  {
    hide AfterCalls, ChunkAt;
    var calls := RoundCalls(rounds);
    seq(|rounds|, k requires 0 <= k < |rounds| =>
      Seen(ChunkAt(w, clean, d, calls, k), rounds[k].now,
        rounds[k].alive && !IsFault(AfterCalls(w, d, calls[..k + 1]).health.state)))
  }

  function Printed(seen: seq<Seen>): string {
    if seen == [] then "" else Printed(seen[..|seen| - 1]) + seen[|seen| - 1].chunk
  }

  /** What round `n` searches: the last 100000 characters of everything printed so far. */
  function Window(initial: string, seen: seq<Seen>, n: nat): string
    requires n <= |seen|
  {
    LastN(initial + Printed(seen[..n]), OUTPUT_MAX)
  }

  /** Appending a chunk and cutting off the front moves the window on by one round. */
  lemma WindowGrows(initial: string, seen: seq<Seen>, n: nat)
    requires n < |seen|
    ensures LastN((if n == 0 then initial else Window(initial, seen, n)) + seen[n].chunk, OUTPUT_MAX)
         == Window(initial, seen, n + 1)
  {
    assert seen[..n + 1][..n] == seen[..n];
    assert initial + Printed(seen[..n]) + seen[n].chunk == initial + Printed(seen[..n + 1]);
    LastNOfLastN(initial + Printed(seen[..n]), seen[n].chunk, OUTPUT_MAX);
    assert n == 0 ==> initial + Printed(seen[..n]) == initial;
  }

  predicate FailHit(failPattern: Option<Re>, window: string) {
    failPattern.Some? && Search(failPattern.value, window).Some?
  }

  predicate Hit(pattern: Re, failPattern: Option<Re>, window: string) {
    FailHit(failPattern, window) || Search(pattern, window).Some?
  }

  /** A window decides the status by itself; failure wins over success. */
  function Verdict(pattern: Re, failPattern: Option<Re>, window: string): CmdReturn {
    if FailHit(failPattern, window) then CmdReturn(Failed, None, window)
    else
      var m := Search(pattern, window);
      CmdReturn(if m.Some? then Success else Timeout, m, window)
  }

  /** Round `n` ends the loop. */
  predicate StopsAt(initial: string, pattern: Re, failPattern: Option<Re>, seen: seq<Seen>, endTime: real, n: nat) {
    && 1 <= n <= |seen|
    && (Hit(pattern, failPattern, Window(initial, seen, n)) || seen[n - 1].now > endTime || !seen[n - 1].healthy)
  }

  /** Round `n` is the first to end the loop. */
  predicate StopsFirstAt(initial: string, pattern: Re, failPattern: Option<Re>, seen: seq<Seen>, endTime: real, n: nat)
  {
    && StopsAt(initial, pattern, failPattern, seen, endTime, n)
    && forall k | 1 <= k < n :: !StopsAt(initial, pattern, failPattern, seen, endTime, k)
  }

  /** None of the first `n` rounds ends the loop. */
  predicate GoesOn(initial: string, pattern: Re, failPattern: Option<Re>, seen: seq<Seen>, endTime: real, n: nat) {
    forall k | 1 <= k <= n :: !StopsAt(initial, pattern, failPattern, seen, endTime, k)
  }

  /** What the tests of round `n` decide, in their order. */
  lemma RoundDecides(initial: string, pattern: Re, failPattern: Option<Re>, seen: seq<Seen>, endTime: real, n: nat)
    requires n < |seen| && GoesOn(initial, pattern, failPattern, seen, endTime, n)
    ensures var window := Window(initial, seen, n + 1);
      var late := seen[n].now > endTime || !seen[n].healthy;
      var stops := StopsFirstAt(initial, pattern, failPattern, seen, endTime, n + 1);
      && (FailHit(failPattern, window) ==>
            stops && Verdict(pattern, failPattern, window) == CmdReturn(Failed, None, window))
      && (!FailHit(failPattern, window) && Search(pattern, window).Some? ==>
            stops && Verdict(pattern, failPattern, window) == CmdReturn(Success, Search(pattern, window), window))
      && (!FailHit(failPattern, window) && Search(pattern, window).None? && late ==>
            stops && Verdict(pattern, failPattern, window) == CmdReturn(Timeout, None, window))
      && (!FailHit(failPattern, window) && Search(pattern, window).None? && !late ==>
            GoesOn(initial, pattern, failPattern, seen, endTime, n + 1))
  {
    hide Search, Window;
  }

  // ---------- the flood phase ----------

  /** One call of the flood phase, with the clock before it. */
  datatype FloodRead = FloodRead(now: real, call: Call)

  datatype FloodSeen = FloodSeen(now: real, chunk: string)

  function FloodCalls(floods: seq<FloodRead>): (r: seq<Call>)
    ensures |r| == |floods| && forall k | 0 <= k < |floods| :: r[k] == floods[k].call
  {
    seq(|floods|, k requires 0 <= k < |floods| => floods[k].call)
  }

  function FloodObserved(w: Watch, clean: string -> string, d: Device, floods: seq<FloodRead>): (r: seq<FloodSeen>)
    ensures |r| == |floods|
    ensures forall k | 0 <= k < |floods| ::
      r[k] == FloodSeen(floods[k].now, ChunkAt(w, clean, d, FloodCalls(floods), k))
  {
    var calls := FloodCalls(floods);
    seq(|floods|, k requires 0 <= k < |floods| => FloodSeen(floods[k].now, ChunkAt(w, clean, d, calls, k)))
  }

  /** Every call up to the end of the flood phase had data. */
  predicate Floods(trace: seq<FloodSeen>, floodEnd: real) {
    exists k | 0 <= k < |trace| :: trace[k].now >= floodEnd && DataUntil(trace, floodEnd, k)
  }

  predicate DataUntil(trace: seq<FloodSeen>, floodEnd: real, k: nat)
    requires k <= |trace|
  {
    forall j | 0 <= j < k :: trace[j].now < floodEnd && trace[j].chunk != ""
  }

  /** A flood is a phase that ends before any call without data. */
  lemma FloodIff(trace: seq<FloodSeen>, floodEnd: real, k: nat)
    requires k < |trace| && forall j | 0 <= j < k :: trace[j].now < floodEnd && trace[j].chunk != ""
    ensures trace[k].now >= floodEnd ==> Floods(trace, floodEnd)
    ensures trace[k].now < floodEnd && trace[k].chunk == "" ==> !Floods(trace, floodEnd)
  {
    if trace[k].now >= floodEnd {
      assert DataUntil(trace, floodEnd, k);
    }
    if trace[k].now < floodEnd && trace[k].chunk == "" {
      forall i | 0 <= i < |trace| && trace[i].now >= floodEnd ensures !DataUntil(trace, floodEnd, i) {
        assert i > k;
      }
    }
  }

  /** The flood phase makes `m` calls: up to its end, or up to the first one without data. */
  predicate FloodStopsAt(trace: seq<FloodSeen>, floodEnd: real, m: nat) {
    || (m < |trace| && DataUntil(trace, floodEnd, m) && trace[m].now >= floodEnd)
    || (
      && 1 <= m <= |trace| && DataUntil(trace, floodEnd, m - 1)
      && trace[m - 1].now < floodEnd && trace[m - 1].chunk == "")
  }

  /** All calls of a whole read: `n` rounds, then `m` calls of the flood phase. */
  function CallsMade(rounds: seq<Round>, n: nat, floods: seq<FloodRead>, m: nat): seq<Call>
    requires n <= |rounds| && m <= |floods|
  {
    RoundCalls(rounds)[..n] + FloodCalls(floods)[..m]
  }

  lemma AllCalls(w: Watch, d: Device, rounds: seq<Round>, n: nat, floods: seq<FloodRead>, m: nat)
    requires n <= |rounds| && m <= |floods|
    ensures var first, rest, all := RoundCalls(rounds)[..n], FloodCalls(floods)[..m], CallsMade(rounds, n, floods, m);
      && AfterCalls(w, d, all) == AfterCalls(w, AfterCalls(w, d, first), rest)
      && RawOfCalls(w, d, all) == RawOfCalls(w, d, first) + RawOfCalls(w, AfterCalls(w, d, first), rest)
      && (m == 0 ==> all == first)
  {
    CallsConcat(w, d, RoundCalls(rounds)[..n], FloodCalls(floods)[..m]);
  }

  function Marked(d: Device, flood: bool): Device {
    if flood then d.(health := Step(d.health, Op.TransitionTo(Unhealthy, None))) else d
  }

  /** What the flood phase sees after `n` rounds. */
  function SeenAfter(w: Watch, clean: string -> string, d: Device, rounds: seq<Round>, n: nat, floods: seq<FloodRead>)
    : seq<FloodSeen>
    requires n <= |rounds|
  {
    FloodObserved(w, clean, AfterCalls(w, d, RoundCalls(rounds)[..n]), floods)
  }

  /**
   * How a read ends: the first round that ends the loop, with the verdict on its window, and after a
   * timeout the calls of the flood phase.
   */
  predicate Outcome(
    w: Watch, clean: string -> string, d: Device, initial: string, pattern: Re, failPattern: Option<Re>,
    rounds: seq<Round>, endTime: real, floods: seq<FloodRead>, floodEnd: real, ret: CmdReturn, n: nat, m: nat)
  {
    && n <= |rounds| && m <= |floods|
    && var seen := Observed(w, clean, d, rounds);
    && StopsFirstAt(initial, pattern, failPattern, seen, endTime, n)
    && ret == Verdict(pattern, failPattern, Window(initial, seen, n))
    && if ret.status.Timeout? then FloodStopsAt(SeenAfter(w, clean, d, rounds, n, floods), floodEnd, m) else m == 0
  }

  /** What all calls of a read have left, marked UNHEALTHY after a timeout with a flood. */
  function FinalState(
    w: Watch, clean: string -> string, d: Device, rounds: seq<Round>, n: nat, floods: seq<FloodRead>, m: nat,
    floodEnd: real, status: CmdStatus): Device
    requires n <= |rounds| && m <= |floods|
  {
    Marked(AfterCalls(w, d, CallsMade(rounds, n, floods, m)),
      status.Timeout? && Floods(SeenAfter(w, clean, d, rounds, n, floods), floodEnd))
  }

  class DeviceCommon {
    const stateMgr: DeviceStateManager
    var outputTail: string
    ghost var log: string   // everything appended since the last reset

    constructor (stateMgr: DeviceStateManager)
      ensures this.stateMgr == stateMgr && outputTail == "" && log == "" && Valid()
    {
      this.stateMgr, outputTail, log := stateMgr, "", "";
    }

    ghost predicate Valid()
      reads this
    {
      outputTail == LastN(log, OUTPUT_TAIL_MAX)
    }

    function Watched(): Watch {
      Watch(stateMgr.signatures, stateMgr.busyloopThreshold)
    }

    function State(): Device
      reads stateMgr, stateMgr.heartbeat
    {
      Device(stateMgr.View(), stateMgr.lastActivityTime, stateMgr.heartbeat.failures)
    }

    method OutputTailAppend(data: string)
      requires Valid()
      modifies this`outputTail, this`log
      ensures Valid() && log == old(log) + data
    {
      LastNOfLastN(log, data, OUTPUT_TAIL_MAX);
      outputTail := outputTail + data;
      log := log + data;
      if |outputTail| > OUTPUT_TAIL_MAX {
        outputTail := outputTail[|outputTail| - OUTPUT_TAIL_MAX..];
      }
    }

    method ResetOutputTail()
      modifies this`outputTail, this`log
      ensures Valid() && log == ""
    {
      outputTail, log := "", "";
    }

    /**
     * `_read_all`: reads until a crash signature shows in what this call has read, the device has
     * been silent for too long, or the time is up.
     */
    method ReadAll(c: Call, clean: string -> string) returns (output: string, n: nat)
      requires Valid()
      modifies this`outputTail, this`log, stateMgr`currentState, stateMgr`crashType, stateMgr`lastActivityTime,
        stateMgr.heartbeat`failures
      ensures Valid() && log == old(log) + Raw(Watched(), old(State()), c)
      ensures output == clean(Raw(Watched(), old(State()), c))
      ensures State() == AfterCall(Watched(), old(State()), c)
      ensures IsLength(Watched(), old(State()), c, n)
    {
      hide HasSignature, Received, LastActivity, Active, EndsCall, Crashes, Silent, AfterCall, Raw, Length;
      hide CrashTypeOf, LastN;
      ghost var w, d := Watched(), State();
      var raw := "";
      n := 0;
      NothingRead(d.last);
      assert Lasts(w, d, c, 0);
      hide Lasts, IsLength, Step;
      while true
        invariant n < |c.trace| && Valid() && State() == AfterReads(d, c, n)
        invariant raw == Received(c.trace[..n]) && log == old(log) + raw
        invariant Lasts(w, d, c, n)
        decreases |c.trace| - n
      {
        var read := c.trace[n];
        OneMoreRead(w, d, c, n);
        raw := raw + read.chunk;
        OutputTailAppend(read.chunk);
        n := n + 1;
        var crashed := stateMgr.CheckCrash(raw);
        if crashed {
          EndsByCrash(w, d, c, n);
          break;
        }
        if read.chunk == "" {
          if !stateMgr.currentState.BusyLoop? {
            var busy := stateMgr.CheckBusyLoopTimeout(read.later);
            if busy {
              EndsBySilence(w, d, c, n);
              break;
            }
          }
        } else {
          stateMgr.UpdateActivity(read.later);
        }
        if read.now > c.until {
          EndsByTime(w, d, c, n);
          break;
        }
      }
      output := clean(raw);
    }

    /** The flood phase after a timeout: a flood is data in every call until the phase is over. */
    method WatchForFlood(floods: seq<FloodRead>, floodEnd: real, clean: string -> string) returns (flood: bool, m: nat)
      requires Valid() && |floods| > 0 && floods[|floods| - 1].now >= floodEnd
      modifies this`outputTail, this`log, stateMgr`currentState, stateMgr`crashType, stateMgr`lastActivityTime,
        stateMgr.heartbeat`failures
      ensures Valid() && m <= |floods|
      ensures var seen := FloodObserved(Watched(), clean, old(State()), floods);
        flood == Floods(seen, floodEnd) && FloodStopsAt(seen, floodEnd, m)
      ensures State() == AfterCalls(Watched(), old(State()), FloodCalls(floods)[..m])
      ensures log == old(log) + RawOfCalls(Watched(), old(State()), FloodCalls(floods)[..m])
    {
      hide AfterCall, Raw, AfterCalls, RawOfCalls, FloodObserved, ChunkAt;
      ghost var w, d := Watched(), State();
      ghost var calls, seen := FloodCalls(floods), FloodObserved(w, clean, d, floods);
      m := 0;
      NoCalls(w, d);
      while floods[m].now < floodEnd
        invariant m < |floods| && Valid() && DataUntil(seen, floodEnd, m)
        invariant State() == AfterCalls(w, d, calls[..m]) && log == old(log) + RawOfCalls(w, d, calls[..m])
        decreases |floods| - m
      {
        FloodChunk(w, clean, d, floods, m);
        OneMoreCall(w, d, calls[..m], calls[m]);
        assert calls[..m + 1] == calls[..m] + [calls[m]];
        var chunk, _ := ReadAll(floods[m].call, clean);
        m := m + 1;
        if chunk == "" {
          assert forall k | 0 <= k < m :: seen[k].now < floodEnd;
          assert forall k | m <= k <= |seen| :: !DataUntil(seen, floodEnd, k);
          return false, m;
        }
      }
      flood := true;
    }

    /** The matching phase of `_read_until_pattern_loop`; `n` is the round that ends it. */
    method ReadUntilVerdict(
      initial: string, pattern: Re, failPattern: Option<Re>, rounds: seq<Round>, endTime: real, clean: string -> string)
      returns (ret: CmdReturn, n: nat)
      requires Valid() && |rounds| > 0 && rounds[|rounds| - 1].now > endTime
      modifies this`outputTail, this`log, stateMgr`currentState, stateMgr`crashType, stateMgr`lastActivityTime,
        stateMgr.heartbeat`failures
      ensures Valid() && n <= |rounds|
      ensures var seen := Observed(Watched(), clean, old(State()), rounds);
        && StopsFirstAt(initial, pattern, failPattern, seen, endTime, n)
        && ret == Verdict(pattern, failPattern, Window(initial, seen, n))
      ensures State() == AfterCalls(Watched(), old(State()), RoundCalls(rounds)[..n])
      ensures log == old(log) + RawOfCalls(Watched(), old(State()), RoundCalls(rounds)[..n])
    {
      hide Search, Window, AfterCall, Raw, AfterCalls, RawOfCalls, Observed, ChunkAt, RoundCalls, StopsAt, StopsFirstAt,
        Verdict, GoesOn, IsFault;
      ghost var w, d := Watched(), State();
      ghost var calls, seen := RoundCalls(rounds), Observed(w, clean, d, rounds);
      var output := initial;
      n := 0;
      NoCalls(w, d);
      NothingSeen(initial, pattern, failPattern, seen, endTime);
      while true
        invariant n < |rounds| && Valid()
        invariant if n == 0 then output == initial else output == Window(initial, seen, n)
        invariant GoesOn(initial, pattern, failPattern, seen, endTime, n)
        invariant State() == AfterCalls(w, d, calls[..n]) && log == old(log) + RawOfCalls(w, d, calls[..n])
        decreases |rounds| - n
      {
        WindowGrows(initial, seen, n);
        RoundChunk(w, clean, d, rounds, n);
        RoundDecides(initial, pattern, failPattern, seen, endTime, n);
        OneMoreCall(w, d, calls[..n], calls[n]);
        assert calls[..n + 1] == calls[..n] + [calls[n]];
        var chunk, _ := ReadAll(rounds[n].call, clean);
        output := Trimmed(output + chunk);
        n := n + 1;
        if failPattern.Some? && Search(failPattern.value, output).Some? {
          return CmdReturn(Failed, None, output), n;
        }
        var m := Search(pattern, output);
        if m.Some? {
          return CmdReturn(Success, m, output), n;
        }
        if rounds[n - 1].now > endTime || !DevIsHealth(rounds[n - 1].alive) {
          return CmdReturn(Timeout, None, output), n;
        }
      }
    }

    /** The output is limited to the last 100000 characters. */
    static method Trimmed(output: string) returns (r: string)
      ensures r == LastN(output, OUTPUT_MAX)
    {
      r := output;
      if |r| > OUTPUT_MAX {
        r := r[|r| - OUTPUT_MAX..];
      }
    }

    /** `dev_is_health`. */
    predicate DevIsHealth(alive: bool)
      reads stateMgr
    {
      alive && !stateMgr.IsUnhealthy()
    }

    /** `_read_until_pattern_loop`: after a timeout, a device that never goes quiet is flooding. */
    method ReadUntilPatternLoop(
      initial: string, pattern: Re, failPattern: Option<Re>, rounds: seq<Round>, endTime: real,
      floods: seq<FloodRead>, floodEnd: real, clean: string -> string)
      returns (ret: CmdReturn, n: nat, m: nat)
      requires Valid() && |rounds| > 0 && rounds[|rounds| - 1].now > endTime
      requires |floods| > 0 && floods[|floods| - 1].now >= floodEnd
      modifies this`outputTail, this`log, stateMgr`currentState, stateMgr`crashType, stateMgr`lastActivityTime,
        stateMgr.heartbeat`failures
      ensures Valid() && n <= |rounds| && m <= |floods|
      ensures Outcome(
        Watched(), clean, old(State()), initial, pattern, failPattern, rounds, endTime, floods, floodEnd, ret, n, m)
      ensures State() == FinalState(Watched(), clean, old(State()), rounds, n, floods, m, floodEnd, ret.status)
      ensures log == old(log) + RawOfCalls(Watched(), old(State()), CallsMade(rounds, n, floods, m))
    {
      hide AfterCalls, RawOfCalls, Observed, FloodObserved, StopsFirstAt, FloodStopsAt, Floods, Window, Verdict, LastN;
      hide RoundCalls, FloodCalls, CallsMade, Step;
      ghost var w, d := Watched(), State();
      ret, n := ReadUntilVerdict(initial, pattern, failPattern, rounds, endTime, clean);
      m := 0;
      var flood := false;
      if ret.status.Timeout? {
        flood, m := WatchForFlood(floods, floodEnd, clean);
      }
      AllCalls(w, d, rounds, n, floods, m);
      assert Outcome(w, clean, d, initial, pattern, failPattern, rounds, endTime, floods, floodEnd, ret, n, m);
      hide Outcome;
      if flood {
        stateMgr.TransitionTo(Unhealthy, None);
      }
    }

    /** `send_cmd_read_until_pattern`, with the marks put around it; `doneAt` is the clock at its end. */
    method SendCmdReadUntilPattern(
      flush: Call, first: Call, pattern: Re, failPattern: Option<Re>, rounds: seq<Round>, endTime: real,
      floods: seq<FloodRead>, floodEnd: real, clean: string -> string, doneAt: real)
      returns (ret: CmdReturn, n: nat, m: nat)
      requires Valid() && |rounds| > 0 && rounds[|rounds| - 1].now > endTime
      requires |floods| > 0 && floods[|floods| - 1].now >= floodEnd
      modifies this`outputTail, this`log, stateMgr`currentState, stateMgr`crashType, stateMgr`lastActivityTime,
        stateMgr.heartbeat`failures, stateMgr.heartbeat`inCommand
      ensures Valid() && n <= |rounds| && m <= |floods|
      ensures var d := Prepared(Watched(), old(State()), flush, first);
        && Outcome(Watched(), clean, d, Response(Watched(), clean, old(State()), flush, first), pattern, failPattern,
             rounds, endTime, floods, floodEnd, ret, n, m)
        && stateMgr.View() == FinalState(Watched(), clean, d, rounds, n, floods, m, floodEnd, ret.status).health
      ensures stateMgr.lastActivityTime == Some(doneAt)
      ensures stateMgr.heartbeat.failures == 0 && !stateMgr.heartbeat.inCommand
      ensures log == old(log) + Preliminary(Watched(), old(State()), flush, first)
        + RawOfCalls(Watched(), Prepared(Watched(), old(State()), flush, first), CallsMade(rounds, n, floods, m))
    {
      hide AfterCall, Raw, RawOfCalls, CallsMade, Outcome, FinalState, LastN, EndsCall;
      stateMgr.heartbeat.MarkCommandStart();
      var _, _ := ReadAll(flush, clean);
      var initial, _ := ReadAll(first, clean);
      ret, n, m := ReadUntilPatternLoop(initial, pattern, failPattern, rounds, endTime, floods, floodEnd, clean);
      stateMgr.MarkCommandEnd(doneAt);
    }
  }

  /** What a command's read starts from: the state after the call that drops old output and the first response. */
  function Prepared(w: Watch, d: Device, flush: Call, first: Call): Device {
    AfterCall(w, AfterCall(w, d, flush), first)
  }

  /** What the two calls before the read have got. */
  function Preliminary(w: Watch, d: Device, flush: Call, first: Call): string {
    Raw(w, d, flush) + Raw(w, AfterCall(w, d, flush), first)
  }

  /** The output a command's read starts with. */
  function Response(w: Watch, clean: string -> string, d: Device, flush: Call, first: Call): string {
    clean(Raw(w, AfterCall(w, d, flush), first))
  }

  /** The two calls before a command's read are calls like any others. */
  lemma PreliminariesAreCalls(w: Watch, d: Device, flush: Call, first: Call)
    ensures Prepared(w, d, flush, first) == AfterCalls(w, d, [flush, first])
    ensures Preliminary(w, d, flush, first) == RawOfCalls(w, d, [flush, first])
  {
    NoCalls(w, d);
    OneMoreCall(w, d, [], flush);
    OneMoreCall(w, d, [flush], first);
    assert [] + [flush] == [flush] && [flush] + [first] == [flush, first];
    assert "" + Raw(w, d, flush) == Raw(w, d, flush);
    hide AfterCall, Raw;
  }

  /** What was pending before the command is read and dropped: only what comes after it is searched. */
  lemma PendingIsDropped(w: Watch, clean: string -> string, d: Device, flush: Call, first: Call, rest: string)
    requires Preliminary(w, d, flush, first) == Raw(w, d, flush) + rest
    ensures Response(w, clean, d, flush, first) == clean(rest)
  {
    hide Raw, AfterCall;
    var pending, own := Raw(w, d, flush), Raw(w, AfterCall(w, d, flush), first);
    assert (pending + own)[|pending|..] == own && (pending + rest)[|pending|..] == rest;
  }

  lemma NothingSeen(initial: string, pattern: Re, failPattern: Option<Re>, seen: seq<Seen>, endTime: real)
    ensures GoesOn(initial, pattern, failPattern, seen, endTime, 0)
  {
  }

  lemma RoundChunk(w: Watch, clean: string -> string, d: Device, rounds: seq<Round>, k: nat)
    requires k < |rounds|
    ensures var calls, seen := RoundCalls(rounds), Observed(w, clean, d, rounds)[k];
      && seen.chunk == clean(Raw(w, AfterCalls(w, d, calls[..k]), calls[k])) && seen.now == rounds[k].now
      && seen.healthy == (rounds[k].alive && !IsFault(AfterCalls(w, d, calls[..k + 1]).health.state))
  {
  }

  lemma FloodChunk(w: Watch, clean: string -> string, d: Device, floods: seq<FloodRead>, k: nat)
    requires k < |floods|
    ensures var calls, seen := FloodCalls(floods), FloodObserved(w, clean, d, floods)[k];
      seen.chunk == clean(Raw(w, AfterCalls(w, d, calls[..k]), calls[k])) && seen.now == floods[k].now
  {
  }

  // ---------- what the composed read promises ----------

  /** A signature in what one round's call has read ends the loop in that round at the latest. */
  lemma SignatureEndsLoop(
    w: Watch, clean: string -> string, d: Device, rounds: seq<Round>, k: nat,
    initial: string, pattern: Re, failPattern: Option<Re>, endTime: real)
    requires k < |rounds|
    requires HasSignature(w.signatures, Raw(w, AfterCalls(w, d, RoundCalls(rounds)[..k]), rounds[k].call))
    ensures AfterCalls(w, d, RoundCalls(rounds)[..k + 1]).health.state.Crashed?
    ensures StopsAt(initial, pattern, failPattern, Observed(w, clean, d, rounds), endTime, k + 1)
  {
    var calls := RoundCalls(rounds);
    var before := AfterCalls(w, d, calls[..k]);
    assert calls[..k + 1] == calls[..k] + [calls[k]];
    CrashIsLast(w, before, calls[k]);
    hide HasSignature, Received, CrashTypeOf, Search, Window, Observed, Length, Raw, AfterCall, AfterCalls, ChunkAt;
    OneMoreCall(w, d, calls[..k], calls[k]);
    RoundChunk(w, clean, d, rounds, k);
  }

  lemma CrashIsLast(w: Watch, d: Device, c: Call)
    requires HasSignature(w.signatures, Raw(w, d, c))
    ensures AfterCall(w, d, c).health.state.Crashed?
  {
    hide HasSignature, Received, CrashTypeOf, LastActivity, Active, Silent, Length;
  }

  /** The call shows a crash signature. */
  predicate ShowsCrash(w: Watch, d: Device, c: Call) {
    HasSignature(w.signatures, Raw(w, d, c))
  }

  /** An empty read of the call, with no signature so far, comes too long after the last activity. */
  predicate FallsSilent(w: Watch, d: Device, c: Call) {
    exists m | 1 <= m <= Length(w, d, c) :: Silent(w, d.last, c, m)
  }

  lemma SilenceIsLast(w: Watch, d: Device, c: Call)
    requires !d.health.state.BusyLoop?
    ensures FallsSilent(w, d, c) <==> Silent(w, d.last, c, Length(w, d, c))
  {
    hide Silent, Crashes;
    var n := Length(w, d, c);
    assert forall m | 1 <= m < n :: !EndsCall(w, d, c, m);
    if m :| 1 <= m <= n && Silent(w, d.last, c, m) {
      assert m < n ==> EndsCall(w, d, c, m);
    }
  }

  /** The health a call leaves: its crash, else a busy loop, else what it was. */
  lemma CallHealth(w: Watch, d: Device, c: Call)
    ensures var state := AfterCall(w, d, c).health.state;
      state == (
        if ShowsCrash(w, d, c) then Crashed
        else if !d.health.state.BusyLoop? && FallsSilent(w, d, c) then BusyLoop
        else d.health.state)
  {
    if !d.health.state.BusyLoop? {
      SilenceIsLast(w, d, c);
    }
    hide Silent, FallsSilent, HasSignature, CrashTypeOf, Length;
  }

  /**
   * A crashed device stays crashed over one call iff no empty read without a signature comes later
   * than the last activity plus the busy-loop threshold.
   */
  lemma CrashedOverCallIff(w: Watch, d: Device, c: Call)
    requires d.health.state.Crashed?
    ensures AfterCall(w, d, c).health.state.Crashed? <==> !FallsSilent(w, d, c)
  {
    CallHealth(w, d, c);
    SilenceIsLast(w, d, c);
    hide AfterCall, Length, FallsSilent;
  }

  /** Call `j` falls silent. */
  predicate SilentCall(w: Watch, d: Device, calls: seq<Call>, j: nat)
    requires j < |calls|
  {
    FallsSilent(w, AfterCalls(w, d, calls[..j]), calls[j])
  }

  predicate CrashCall(w: Watch, d: Device, calls: seq<Call>, j: nat)
    requires j < |calls|
  {
    ShowsCrash(w, AfterCalls(w, d, calls[..j]), calls[j])
  }

  /** Every silence is followed by another crash. */
  predicate SilencesFollowed(w: Watch, d: Device, calls: seq<Call>) {
    forall j | 0 <= j < |calls| && SilentCall(w, d, calls, j) && !CrashCall(w, d, calls, j) ::
      exists i | j < i < |calls| :: CrashCall(w, d, calls, i)
  }

  lemma CallsInPrefix(w: Watch, d: Device, calls: seq<Call>, n: nat, j: nat)
    requires j < n <= |calls|
    ensures SilentCall(w, d, calls[..n], j) <==> SilentCall(w, d, calls, j)
    ensures CrashCall(w, d, calls[..n], j) <==> CrashCall(w, d, calls, j)
  {
    assert calls[..n][..j] == calls[..j];
    hide FallsSilent, ShowsCrash, AfterCalls;
  }

  lemma {:induction false} CrashedOverCallsIff(w: Watch, d: Device, calls: seq<Call>)
    requires d.health.state.Crashed?
    ensures AfterCalls(w, d, calls).health.state.Crashed? <==> SilencesFollowed(w, d, calls)
    ensures AfterCalls(w, d, calls).health.state.Crashed? || AfterCalls(w, d, calls).health.state.BusyLoop?
  {
    if calls != [] {
      var n := |calls| - 1;
      var before := AfterCalls(w, d, calls[..n]);
      CrashedOverCallsIff(w, d, calls[..n]);
      CallHealth(w, before, calls[n]);
      assert AfterCalls(w, d, calls) == AfterCall(w, before, calls[n]);
      assert CrashCall(w, d, calls, n) == ShowsCrash(w, before, calls[n]);
      assert SilentCall(w, d, calls, n) == FallsSilent(w, before, calls[n]);
      hide AfterCalls, AfterCall, FallsSilent, ShowsCrash, CrashCall, SilentCall, Length;
      forall j | 0 <= j < n
        ensures SilentCall(w, d, calls[..n], j) <==> SilentCall(w, d, calls, j)
        ensures CrashCall(w, d, calls[..n], j) <==> CrashCall(w, d, calls, j)
      {
        CallsInPrefix(w, d, calls, n, j);
      }
      FollowedOneMore(w, d, calls, n);
    }
  }

  lemma FollowedOneMore(w: Watch, d: Device, calls: seq<Call>, n: nat)
    requires |calls| == n + 1
    requires forall j | 0 <= j < n :: SilentCall(w, d, calls[..n], j) == SilentCall(w, d, calls, j)
    requires forall j | 0 <= j < n :: CrashCall(w, d, calls[..n], j) == CrashCall(w, d, calls, j)
    ensures SilencesFollowed(w, d, calls) <==>
      CrashCall(w, d, calls, n) || (!SilentCall(w, d, calls, n) && SilencesFollowed(w, d, calls[..n]))
  {
    hide SilentCall, CrashCall;
    if SilencesFollowed(w, d, calls) && !CrashCall(w, d, calls, n) {
      forall j | 0 <= j < n && SilentCall(w, d, calls[..n], j) && !CrashCall(w, d, calls[..n], j)
        ensures exists i | j < i < n :: CrashCall(w, d, calls[..n], i)
      {
        var i :| j < i <= n && CrashCall(w, d, calls, i);
        assert CrashCall(w, d, calls[..n], i);
      }
    }
    if !SilentCall(w, d, calls, n) && SilencesFollowed(w, d, calls[..n]) {
      forall j | 0 <= j < n && SilentCall(w, d, calls, j) && !CrashCall(w, d, calls, j)
        ensures exists i | j < i <= n :: CrashCall(w, d, calls, i)
      {
        var i :| j < i < n && CrashCall(w, d, calls[..n], i);
        assert CrashCall(w, d, calls, i);
      }
    }
  }

  /**
   * CRASHED is not a final state: over a whole read a crashed device stays crashed iff a timeout
   * is not followed by a flood and every call that falls silent is followed by another crash.
   */
  lemma CrashedOverReadIff(
    w: Watch, d: Device, rounds: seq<Round>, n: nat, floods: seq<FloodRead>, m: nat, flood: bool)
    requires d.health.state.Crashed? && n <= |rounds| && m <= |floods|
    ensures Marked(AfterCalls(w, d, CallsMade(rounds, n, floods, m)), flood).health.state.Crashed?
       <==> !flood && SilencesFollowed(w, d, CallsMade(rounds, n, floods, m))
  {
    CrashedOverCallsIff(w, d, CallsMade(rounds, n, floods, m));
    hide AfterCalls, SilencesFollowed, CallsMade;
  }

  lemma FaultStays(w: Watch, d: Device, c: Call)
    requires d.health.state != Normal
    ensures AfterCall(w, d, c).health.state != Normal
  {
    CallHealth(w, d, c);
    hide AfterCall, ShowsCrash, FallsSilent;
  }

  /** The matching phase of a read on a device in any fault state is one round. */
  lemma CrashedLoopIsOneRound(
    w: Watch, clean: string -> string, d: Device, rounds: seq<Round>, initial: string, pattern: Re,
    failPattern: Option<Re>, endTime: real, n: nat)
    requires d.health.state != Normal
    requires StopsFirstAt(initial, pattern, failPattern, Observed(w, clean, d, rounds), endTime, n)
    ensures n == 1
  {
    var calls := RoundCalls(rounds);
    RoundChunk(w, clean, d, rounds, 0);
    assert calls[..1] == [] + [calls[0]];
    OneMoreCall(w, d, [], calls[0]);
    NoCalls(w, d);
    FaultStays(w, d, calls[0]);
    hide AfterCalls, AfterCall, Observed, Search, Window;
    assert StopsAt(initial, pattern, failPattern, Observed(w, clean, d, rounds), endTime, 1);
  }

  // ---------- two reads that overwrite a crash ----------

  /** One read of `chunk` at time `t` that is over at once. */
  function OneRead(chunk: string, t: real): Call {
    Reads([Read(chunk, t, t)], t - 1.0)
  }

  lemma OneReadIsOver(w: Watch, d: Device, chunk: string, t: real)
    ensures Length(w, d, OneRead(chunk, t)) == 1 && Raw(w, d, OneRead(chunk, t)) == chunk
  {
    var c := OneRead(chunk, t);
    assert c.trace[..1] == c.trace && c.trace[..0] == [];
    assert Received(c.trace) == "" + chunk;
  }

  /** A crashed device that has been silent for too long is taken for a busy loop by the next read. */
  method SilenceOverwritesCrash(dev: DeviceCommon) returns (output: string, n: nat)
    requires dev.Valid() && dev.stateMgr.currentState.Crashed? && dev.stateMgr.lastActivityTime == Some(0.0)
    requires dev.stateMgr.busyloopThreshold == 180.0 && !HasSignature(dev.stateMgr.signatures, "")
    modifies dev`outputTail, dev`log, dev.stateMgr`currentState, dev.stateMgr`crashType, dev.stateMgr`lastActivityTime,
      dev.stateMgr.heartbeat`failures
    ensures dev.stateMgr.currentState.BusyLoop? && dev.stateMgr.crashType == old(dev.stateMgr.crashType)
  {
    ghost var w, d, c := dev.Watched(), dev.State(), OneRead("", 200.0);
    OneReadIsOver(w, d, "", 200.0);
    assert c.trace[..1] == c.trace && c.trace[..0] == [] && Received(c.trace) == "";
    assert Silent(w, d.last, c, 1);
    EndsBySilence(w, d, c, 1);
    output, n := dev.ReadAll(OneRead("", 200.0), (s: string) => s);
  }

  /** A crashed device is marked UNHEALTHY by a flood: one round, no match, dead device, data for 10 s. */
  method FloodOverwritesCrash(dev: DeviceCommon)
    requires dev.Valid() && dev.stateMgr.currentState.Crashed?
    modifies dev`outputTail, dev`log, dev.stateMgr`currentState, dev.stateMgr`crashType, dev.stateMgr`lastActivityTime,
      dev.stateMgr.heartbeat`failures
    ensures dev.stateMgr.currentState.Unhealthy?
  {
    var rounds := [Round(OneRead("", 1.0), 1.0, false)];
    var floods := [FloodRead(1.0, OneRead("x", 1.0)), FloodRead(12.0, OneRead("x", 12.0))];
    var pattern := Lit("nsh> ");
    var clean := (s: string) => s;
    ghost var w, d := dev.Watched(), dev.State();
    hide OneRead;
    CrashedWitness(w, clean, d, rounds, floods, pattern);
    var ret, n, m := dev.ReadUntilPatternLoop("", pattern, None, rounds, 0.5, floods, 1.0 + FLOOD_DETECT_TIME, clean);
    CrashedLoopIsOneRound(w, clean, d, rounds, "", pattern, None, 0.5, n);
  }

  lemma CrashedWitness(
    w: Watch, clean: string -> string, d: Device, rounds: seq<Round>, floods: seq<FloodRead>, pattern: Re)
    requires pattern == Lit("nsh> ") && forall s :: clean(s) == s
    requires rounds == [Round(OneRead("", 1.0), 1.0, false)]
    requires floods == [FloodRead(1.0, OneRead("x", 1.0)), FloodRead(12.0, OneRead("x", 12.0))]
    ensures Verdict(pattern, None, Window("", Observed(w, clean, d, rounds), 1)).status.Timeout?
    ensures Floods(SeenAfter(w, clean, d, rounds, 1, floods), 1.0 + FLOOD_DETECT_TIME)
  {
    var seen := Observed(w, clean, d, rounds);
    RoundChunk(w, clean, d, rounds, 0);
    OneReadIsOver(w, AfterCalls(w, d, RoundCalls(rounds)[..0]), "", 1.0);
    assert seen[..1] == seen && seen[..0] == [] && Printed(seen) == "" + "";
    SearchIsLeftmost(pattern, "", 0);
    var after := AfterCalls(w, d, RoundCalls(rounds)[..1]);
    FloodChunk(w, clean, after, floods, 0);
    FloodChunk(w, clean, after, floods, 1);
    OneReadIsOver(w, AfterCalls(w, after, FloodCalls(floods)[..0]), "x", 1.0);
    hide AfterCalls, Raw, FloodObserved, Observed, Search;
    var trace := SeenAfter(w, clean, d, rounds, 1, floods);
    assert trace[1].now >= 11.0 && DataUntil(trace, 11.0, 1);
  }
}

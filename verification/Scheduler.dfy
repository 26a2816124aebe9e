/**
 * The parallel session scheduler: one worker per session, one lock per resource, a shared
 * fail event, and a main thread that collects finished workers in completion order.
 * Every lock operation, event operation and session run is one step; steps of different
 * workers interleave freely.
 */
module Scheduler {
  import opened Sorting

  // ---------- sessions and their lock plans ----------

  datatype Session = Session(name: string, resources: seq<string>)

  /** `lockId` is Python's `id` of the lock that belongs to a resource. */
  datatype Setup = Setup(sessions: seq<Session>, lockId: map<string, nat>, failFast: bool)
  {
    /** Each resource of each session has a lock, and distinct live locks have distinct ids. */
    ghost predicate Valid() {
      && (forall s, r | s in sessions && r in s.resources :: r in lockId)
      && (forall r, q | r in lockId && q in lockId && lockId[r] == lockId[q] :: r == q)
    }

    ghost function LockIds(w: nat): set<nat>
      requires Valid() && w < |sessions|
    {
      set r | r in sessions[w].resources :: lockId[r]
    }

    /** The locks of worker `w` in the order in which it takes them. */
    ghost function Plan(w: nat): seq<nat>
      requires Valid() && w < |sessions|
    {
      SortedIds(LockIds(w))
    }

    ghost predicate Share(v: nat, w: nat)
      requires v < |sessions| && w < |sessions|
    {
      exists r :: r in sessions[v].resources && r in sessions[w].resources
    }
  }

  ghost predicate Increasing(ids: seq<nat>) {
    forall i, j | 0 <= i < j < |ids| :: ids[i] < ids[j]
  }

  ghost predicate IsLeast(m: nat, s: set<nat>) {
    m in s && forall x | x in s :: m <= x
  }

  lemma {:induction false} LeastExists(s: set<nat>)
    requires s != {}
    ensures exists m: nat :: IsLeast(m, s)
  {
    var m :| m in s;
    var rest := s - {m};
    assert forall x | x in s :: x == m || x in rest;
    if rest == {} {
      assert IsLeast(m, s);
    } else {
      LeastExists(rest);
      var n: nat :| IsLeast(n, rest);
      assert IsLeast(if m <= n then m else n, s);
    }
  }

  ghost function Least(s: set<nat>): (m: nat)
    requires s != {}
    ensures IsLeast(m, s)
  {
    LeastExists(s);
    var m: nat :| IsLeast(m, s);
    m
  }

  /** `sorted(set(..), key=id)`. */
  ghost function SortedIds(s: set<nat>): (ids: seq<nat>)
    ensures Increasing(ids)
    ensures forall x :: x in ids <==> x in s
  {
    if s == {} then []
    else
      var m := Least(s);
      var rest := SortedIds(s - {m});
      assert forall x | x in rest :: x in s - {m};
      [m] + rest
  }

  // ---------- states and steps ----------

  /** How a session ended: pytest's exit code, an exception, or skipped by the fail event. */
  datatype Outcome = Ran(code: int) | Raised | Skipped

  datatype Pc =
    | Acquiring(next: nat)
    | Running
    | Returned(outcome: Outcome)                 // the run is over, the event is not set yet
    | Releasing(next: nat, outcome: Outcome)
    | Done(outcome: Outcome)
  {
    predicate Ended() { Returned? || Releasing? || Done? }
    predicate InSession() { Running? || Returned? }
    predicate WasSkipped() { Ended() && outcome.Skipped? }
    /** The session really ran and failed. */
    predicate Failed() { Ended() && outcome.Ran? && outcome.code != 0 }
    /** The failure has been signalled. */
    predicate Signalled() { Failed() && !Returned? }
  }

  datatype State = State(
    pcs: seq<Pc>,
    owner: map<nat, nat>,        // lock id to the worker holding it
    event: bool,
    collected: seq<nat>,         // workers in the order their results were appended
    aborted: bool)               // `future.result()` raised in the main thread

  datatype Step =
    | Advance(w: nat)                     // worker w makes its next deterministic step
    | RunEnds(w: nat, outcome: Outcome)   // the session under test ends
    | Collect(w: nat)                     // the main thread takes w's result

  ghost function Init(c: Setup): State {
    State(seq(|c.sessions|, _ => Acquiring(0)), map[], false, [], false)
  }

  ghost predicate Enabled(c: Setup, s: State, step: Step)
    requires c.Valid() && |s.pcs| == |c.sessions|
  {
    && step.w < |s.pcs|
    && var pc := s.pcs[step.w];
    match step
    case Advance(w) =>
      && !pc.Running? && !pc.Done?
      && (pc.Acquiring? && pc.next < |c.Plan(w)| ==> c.Plan(w)[pc.next] !in s.owner)
    case RunEnds(_, outcome) => pc.Running? && !outcome.Skipped?
    case Collect(w) => pc.Done? && w !in s.collected && !s.aborted
  }

  /** One step of a worker that is neither running its session nor finished. */
  ghost function AdvanceWorker(c: Setup, s: State, w: nat): (s': State)
    requires c.Valid() && |s.pcs| == |c.sessions| && w < |s.pcs|
    ensures |s'.pcs| == |s.pcs|
  {
    var plan := c.Plan(w);
    match s.pcs[w]
    case Acquiring(k) =>
      if k < |plan| then s.(pcs := s.pcs[w := Acquiring(k + 1)], owner := s.owner[plan[k] := w])
      else s.(pcs := s.pcs[w := if s.event then Releasing(0, Skipped) else Running])
    case Returned(o) =>
      var fails := o.Ran? && o.code != 0 && c.failFast;
      s.(pcs := s.pcs[w := Releasing(0, o)], event := s.event || fails)
    case Releasing(k, o) =>
      if k < |plan| then s.(pcs := s.pcs[w := Releasing(k + 1, o)], owner := s.owner - {plan[k]})
      else s.(pcs := s.pcs[w := Done(o)])
    case _ => s
  }

  ghost function Apply(c: Setup, s: State, step: Step): (s': State)
    requires c.Valid() && |s.pcs| == |c.sessions| && Enabled(c, s, step)
    ensures |s'.pcs| == |s.pcs|
  {
    match step
    case Advance(w) => AdvanceWorker(c, s, w)
    case RunEnds(w, outcome) => s.(pcs := s.pcs[w := Returned(outcome)])
    case Collect(w) =>
      if s.pcs[w].outcome.Raised? then s.(aborted := true) else s.(collected := s.collected + [w])
  }

  /** `ss` are the states of a run from the initial state, `steps` the steps between them. */
  ghost predicate IsRun(c: Setup, ss: seq<State>, steps: seq<Step>)
    requires c.Valid()
  {
    && |ss| == |steps| + 1
    && ss[0] == Init(c)
    && (forall i | 0 <= i < |ss| :: |ss[i].pcs| == |c.sessions|)
    && (forall i | 0 <= i < |steps| :: Enabled(c, ss[i], steps[i]) && ss[i + 1] == Apply(c, ss[i], steps[i]))
  }

  // ---------- the invariant of every reachable state ----------

  ghost predicate PcInRange(c: Setup, w: nat, pc: Pc)
    requires c.Valid() && w < |c.sessions|
  {
    match pc
    case Acquiring(k) => k <= |c.Plan(w)|
    case Releasing(k, _) => k <= |c.Plan(w)|
    case Returned(o) => !o.Skipped?
    case _ => true
  }

  /** The locks worker `w` holds at `pc`. */
  ghost function Held(c: Setup, w: nat, pc: Pc): seq<nat>
    requires c.Valid() && w < |c.sessions| && PcInRange(c, w, pc)
  {
    match pc
    case Acquiring(k) => c.Plan(w)[..k]
    case Releasing(k, _) => c.Plan(w)[k..]
    case Done(_) => []
    case _ => c.Plan(w)
  }

  ghost predicate PcsInRange(c: Setup, s: State)
    requires c.Valid()
  {
    |s.pcs| == |c.sessions| && forall w | 0 <= w < |s.pcs| :: PcInRange(c, w, s.pcs[w])
  }

  ghost function AllHeld(c: Setup, s: State): seq<seq<nat>>
    requires c.Valid() && PcsInRange(c, s)
  {
    seq(|s.pcs|, w requires 0 <= w < |s.pcs| => Held(c, w, s.pcs[w]))
  }

  /** The owner map says exactly who holds what. */
  ghost predicate OwnersAre(owner: map<nat, nat>, held: seq<seq<nat>>) {
    && (forall l | l in owner :: owner[l] < |held| && l in held[owner[l]])
    && (forall w, l | 0 <= w < |held| && l in held[w] :: l in owner && owner[l] == w)
  }

  ghost predicate OwnersMatch(c: Setup, s: State)
    requires c.Valid() && PcsInRange(c, s)
  {
    OwnersAre(s.owner, AllHeld(c, s))
  }

  /** The event is set exactly by signalled failures under fail_fast, and skips follow it. */
  ghost predicate EventJustified(c: Setup, s: State) {
    && (s.event <==> c.failFast && exists w | 0 <= w < |s.pcs| :: s.pcs[w].Signalled())
    && (forall w | 0 <= w < |s.pcs| && s.pcs[w].WasSkipped() :: s.event)
  }

  ghost predicate CollectedOnce(s: State) {
    && (forall i, j | 0 <= i < j < |s.collected| :: s.collected[i] != s.collected[j])
    && (forall w | w in s.collected :: w < |s.pcs| && s.pcs[w].Done? && !s.pcs[w].outcome.Raised?)
    && (s.aborted ==> exists w | 0 <= w < |s.pcs| :: s.pcs[w] == Done(Raised))
  }

  ghost predicate Inv(c: Setup, s: State)
    requires c.Valid()
  {
    PcsInRange(c, s) && OwnersMatch(c, s) && EventJustified(c, s) && CollectedOnce(s)
  }

  lemma InitInv(c: Setup)
    requires c.Valid()
    ensures Inv(c, Init(c))
  {
  }

  lemma HolderIsOwner(c: Setup, s: State, w: nat, l: nat)
    requires c.Valid() && PcsInRange(c, s) && OwnersMatch(c, s)
    requires w < |s.pcs| && l in Held(c, w, s.pcs[w])
    ensures l in s.owner && s.owner[l] == w
  {
    assert l in AllHeld(c, s)[w] && |AllHeld(c, s)| == |s.pcs|;
    hide Held, PcsInRange, AllHeld;
  }

  lemma TakeKeepsOwners(owner: map<nat, nat>, held: seq<seq<nat>>, w: nat, l: nat)
    requires OwnersAre(owner, held) && w < |held| && l !in owner
    ensures OwnersAre(owner[l := w], held[w := held[w] + [l]])
  {
  }

  lemma DropKeepsOwners(owner: map<nat, nat>, held: seq<seq<nat>>, w: nat, l: nat, rest: seq<nat>)
    requires OwnersAre(owner, held) && w < |held| && held[w] == [l] + rest && l !in rest
    ensures OwnersAre(owner - {l}, held[w := rest])
  {
    assert held[w][0] == l && l in held[w];
    var owner', held' := owner - {l}, held[w := rest];
    forall m | m in owner' ensures owner'[m] < |held'| && m in held'[owner'[m]] {
      assert m in owner && m in held[owner[m]];
    }
    forall v, m | 0 <= v < |held'| && m in held'[v] ensures m in owner' && owner'[m] == v {
      if v == w {
        assert m in rest && m in [l] + rest;
      }
      assert m in held[v] && owner[m] == v;
      assert owner[l] == w;
      assert m == l ==> v == w;
    }
  }

  /** Only the moving worker's locks change. */
  lemma HeldAfter(c: Setup, s: State, s': State, w: nat)
    requires c.Valid() && PcsInRange(c, s) && PcsInRange(c, s')
    requires w < |s.pcs| && s'.pcs == s.pcs[w := s'.pcs[w]]
    ensures AllHeld(c, s') == AllHeld(c, s)[w := Held(c, w, s'.pcs[w])]
  {
  }

  lemma StepStaysInRange(c: Setup, s: State, step: Step)
    requires c.Valid() && PcsInRange(c, s) && Enabled(c, s, step)
    ensures PcsInRange(c, Apply(c, s, step))
  {
    hide Setup.Plan;
  }

  lemma AcquireKeepsOwners(c: Setup, s: State, w: nat)
    requires c.Valid() && PcsInRange(c, s) && OwnersMatch(c, s) && Enabled(c, s, Advance(w))
    requires s.pcs[w].Acquiring? && s.pcs[w].next < |c.Plan(w)|
    ensures PcsInRange(c, Apply(c, s, Advance(w))) && OwnersMatch(c, Apply(c, s, Advance(w)))
  {
    StepStaysInRange(c, s, Advance(w));
    var s', plan, k := Apply(c, s, Advance(w)), c.Plan(w), s.pcs[w].next;
    HeldAfter(c, s, s', w);
    assert plan[..k + 1] == plan[..k] + [plan[k]];
    TakeKeepsOwners(s.owner, AllHeld(c, s), w, plan[k]);
  }

  lemma ReleaseKeepsOwners(c: Setup, s: State, w: nat)
    requires c.Valid() && PcsInRange(c, s) && OwnersMatch(c, s) && Enabled(c, s, Advance(w))
    requires s.pcs[w].Releasing? && s.pcs[w].next < |c.Plan(w)|
    ensures PcsInRange(c, Apply(c, s, Advance(w))) && OwnersMatch(c, Apply(c, s, Advance(w)))
  {
    StepStaysInRange(c, s, Advance(w));
    var s', plan, k := Apply(c, s, Advance(w)), c.Plan(w), s.pcs[w].next;
    HeldAfter(c, s, s', w);
    assert plan[k..] == [plan[k]] + plan[k + 1..];
    DropKeepsOwners(s.owner, AllHeld(c, s), w, plan[k], plan[k + 1..]);
  }

  lemma OtherStepsKeepOwners(c: Setup, s: State, step: Step)
    requires c.Valid() && PcsInRange(c, s) && OwnersMatch(c, s) && Enabled(c, s, step)
    requires step.Advance? && (s.pcs[step.w].Acquiring? || s.pcs[step.w].Releasing?) ==>
      s.pcs[step.w].next == |c.Plan(step.w)|
    ensures PcsInRange(c, Apply(c, s, step)) && OwnersMatch(c, Apply(c, s, step))
  {
    StepStaysInRange(c, s, step);
    OtherStepsHoldSame(c, s, step);
    hide Apply, Held, Enabled, PcsInRange, OwnersAre;
    var s' := Apply(c, s, step);
    HeldAfter(c, s, s', step.w);
    assert AllHeld(c, s') == AllHeld(c, s);
  }

  lemma OtherStepsHoldSame(c: Setup, s: State, step: Step)
    requires c.Valid() && PcsInRange(c, s) && Enabled(c, s, step) && PcsInRange(c, Apply(c, s, step))
    requires step.Advance? && (s.pcs[step.w].Acquiring? || s.pcs[step.w].Releasing?) ==>
      s.pcs[step.w].next == |c.Plan(step.w)|
    ensures var s' := Apply(c, s, step);
      && s'.owner == s.owner && s'.pcs == s.pcs[step.w := s'.pcs[step.w]]
      && Held(c, step.w, s'.pcs[step.w]) == Held(c, step.w, s.pcs[step.w])
  {
    var plan := c.Plan(step.w);
    assert plan[..|plan|] == plan[0..] == plan && plan[|plan|..] == [];
  }

  lemma StepKeepsOwners(c: Setup, s: State, step: Step)
    requires c.Valid() && Inv(c, s) && Enabled(c, s, step)
    ensures PcsInRange(c, Apply(c, s, step)) && OwnersMatch(c, Apply(c, s, step))
  {
    var pc := s.pcs[step.w];
    if step.Advance? && pc.Acquiring? && pc.next < |c.Plan(step.w)| {
      AcquireKeepsOwners(c, s, step.w);
    } else if step.Advance? && pc.Releasing? && pc.next < |c.Plan(step.w)| {
      ReleaseKeepsOwners(c, s, step.w);
    } else {
      OtherStepsKeepOwners(c, s, step);
    }
  }

  lemma StepKeepsEvent(c: Setup, s: State, step: Step)
    requires c.Valid() && Inv(c, s) && Enabled(c, s, step)
    ensures EventJustified(c, Apply(c, s, step))
  {
    var s' := Apply(c, s, step);
    if s.event {
      var v :| 0 <= v < |s.pcs| && s.pcs[v].Signalled();
      assert s'.pcs[v].Signalled();
    }
    if s'.event && !s.event {
      assert s'.pcs[step.w].Signalled();
    }
    forall v | 0 <= v < |s.pcs| && s'.pcs[v].Signalled() && c.failFast ensures s'.event {
      if v != step.w {
        assert s.pcs[v].Signalled();
      }
    }
    forall v | 0 <= v < |s.pcs| && s'.pcs[v].WasSkipped() ensures s'.event {
      if v != step.w {
        assert s.pcs[v].WasSkipped();
      }
    }
  }

  lemma StepKeepsCollected(c: Setup, s: State, step: Step)
    requires c.Valid() && Inv(c, s) && Enabled(c, s, step)
    ensures CollectedOnce(Apply(c, s, step))
  {
    var s' := Apply(c, s, step);
    if step.Collect? {
      hide OwnersMatch, EventJustified;
      if s'.aborted {
        assert s'.pcs[step.w] == Done(Raised);
      }
    } else {
      WorkerStepMovesOne(c, s, step);
      hide Apply, Enabled, OwnersMatch, EventJustified;
      if s.aborted {
        var v :| 0 <= v < |s.pcs| && s.pcs[v] == Done(Raised);
        assert s'.pcs[v] == Done(Raised);
      }
    }
  }

  lemma WorkerStepMovesOne(c: Setup, s: State, step: Step)
    requires c.Valid() && |s.pcs| == |c.sessions| && Enabled(c, s, step) && !step.Collect?
    ensures var s' := Apply(c, s, step);
      && s'.pcs == s.pcs[step.w := s'.pcs[step.w]] && !s.pcs[step.w].Done?
      && s'.collected == s.collected && s'.aborted == s.aborted
  {
    hide Setup.Plan;
  }

  lemma StepKeepsInv(c: Setup, s: State, step: Step)
    requires c.Valid() && Inv(c, s) && Enabled(c, s, step)
    ensures Inv(c, Apply(c, s, step))
  {
    StepKeepsOwners(c, s, step);
    StepKeepsEvent(c, s, step);
    StepKeepsCollected(c, s, step);
  }

  lemma {:induction false} ReachableInv(c: Setup, ss: seq<State>, steps: seq<Step>, i: nat)
    requires c.Valid() && IsRun(c, ss, steps) && i < |ss|
    ensures Inv(c, ss[i])
  {
    if i == 0 {
      InitInv(c);
    } else {
      ReachableInv(c, ss, steps, i - 1);
      StepKeepsInv(c, ss[i - 1], steps[i - 1]);
    }
  }

  // ---------- how sessions end ----------

  /** One of the first `i` steps ends the session of worker `w` with this outcome. */
  ghost predicate EndsWith(steps: seq<Step>, i: nat, w: nat, outcome: Outcome) {
    exists j | 0 <= j < i && j < |steps| :: steps[j] == RunEnds(w, outcome)
  }

  lemma StepEnds(c: Setup, s: State, step: Step, w: nat, outcome: Outcome)
    requires c.Valid() && |s.pcs| == |c.sessions| && w < |s.pcs| && Enabled(c, s, step) && !outcome.Skipped?
    ensures var pc, pc' := s.pcs[w], Apply(c, s, step).pcs[w];
      pc'.Ended() && pc'.outcome == outcome <==>
        (pc.Ended() && pc.outcome == outcome) || step == RunEnds(w, outcome)
  {
    hide Setup.Plan;
  }

  /** A worker has ended with an outcome, other than being skipped, iff an earlier step ended its session so. */
  lemma {:induction false} EndedIff(c: Setup, ss: seq<State>, steps: seq<Step>, i: nat, w: nat, outcome: Outcome)
    requires c.Valid() && IsRun(c, ss, steps) && i < |ss| && w < |c.sessions| && !outcome.Skipped?
    ensures ss[i].pcs[w].Ended() && ss[i].pcs[w].outcome == outcome <==> EndsWith(steps, i, w, outcome)
  {
    if i > 0 {
      EndedIff(c, ss, steps, i - 1, w, outcome);
      StepEnds(c, ss[i - 1], steps[i - 1], w, outcome);
      hide Enabled, Apply;
    }
  }

  /** No session ends twice. */
  lemma EndsOnce(c: Setup, ss: seq<State>, steps: seq<Step>, i: nat, w: nat, a: Outcome, b: Outcome)
    requires c.Valid() && IsRun(c, ss, steps) && i < |ss| && w < |c.sessions| && !a.Skipped? && !b.Skipped?
    requires EndsWith(steps, i, w, a) && EndsWith(steps, i, w, b)
    ensures a == b
  {
    EndedIff(c, ss, steps, i, w, a);
    EndedIff(c, ss, steps, i, w, b);
  }

  /** A session may end in any way whenever it runs. */
  lemma AnySessionMayEnd(c: Setup, s: State, w: nat, outcome: Outcome)
    requires c.Valid() && |s.pcs| == |c.sessions| && w < |s.pcs|
    ensures Enabled(c, s, RunEnds(w, outcome)) <==> s.pcs[w].Running? && outcome != Skipped
  {
  }

  // ---------- mutual exclusion ----------

  lemma SharedLock(c: Setup, v: nat, w: nat) returns (l: nat)
    requires c.Valid() && v < |c.sessions| && w < |c.sessions| && c.Share(v, w)
    ensures l in c.Plan(v) && l in c.Plan(w)
  {
    var r :| r in c.sessions[v].resources && r in c.sessions[w].resources;
    l := c.lockId[r];
    assert l in c.LockIds(v) && l in c.LockIds(w);
  }

  /** In every state of every run, two sessions sharing a resource are never both in their session. */
  lemma MutualExclusion(c: Setup, ss: seq<State>, steps: seq<Step>, i: nat, v: nat, w: nat)
    requires c.Valid() && IsRun(c, ss, steps) && i < |ss|
    requires v < w < |c.sessions| && c.Share(v, w)
    ensures !(ss[i].pcs[v].InSession() && ss[i].pcs[w].InSession())
  {
    ReachableInv(c, ss, steps, i);
    var l := SharedLock(c, v, w);
    if ss[i].pcs[v].InSession() && ss[i].pcs[w].InSession() {
      HolderIsOwner(c, ss[i], v, l);
      HolderIsOwner(c, ss[i], w, l);
    }
  }

  // ---------- fail_fast ----------

  /** Once `w` has failed, a session sharing a resource with it that has not started is blocked or skipped. */
  ghost predicate HeldBack(s: State, v: nat, w: nat)
    requires v < |s.pcs| && w < |s.pcs|
  {
    && s.pcs[w].Failed() && (s.event || s.pcs[w].Returned?)
    && (s.pcs[v].Acquiring? || s.pcs[v].WasSkipped())
  }

  lemma StepKeepsHeldBack(c: Setup, s: State, step: Step, v: nat, w: nat)
    requires c.Valid() && c.failFast && Inv(c, s) && Enabled(c, s, step)
    requires v < |c.sessions| && w < |c.sessions| && v != w && c.Share(v, w)
    requires HeldBack(s, v, w)
    ensures HeldBack(Apply(c, s, step), v, w)
  {
    if step == Advance(v) && s.pcs[v].Acquiring? && s.pcs[v].next == |c.Plan(v)| {
      BlockedUntilSignalled(c, s, v, w);
    }
    FailureStays(c, s, step, w);
    WaiterStays(c, s, step, v);
    hide Inv, Apply, Enabled;
  }

  lemma FailureStays(c: Setup, s: State, step: Step, w: nat)
    requires c.Valid() && c.failFast && |s.pcs| == |c.sessions| && Enabled(c, s, step) && w < |s.pcs|
    requires s.pcs[w].Failed() && (s.event || s.pcs[w].Returned?)
    ensures var s' := Apply(c, s, step); s'.pcs[w].Failed() && (s'.event || s'.pcs[w].Returned?)
  {
    hide Setup.Plan;
  }

  lemma WaiterStays(c: Setup, s: State, step: Step, v: nat)
    requires c.Valid() && PcsInRange(c, s) && Enabled(c, s, step) && v < |s.pcs|
    requires s.pcs[v].Acquiring? || s.pcs[v].WasSkipped()
    requires step == Advance(v) && s.pcs[v].Acquiring? && s.pcs[v].next == |c.Plan(v)| ==> s.event
    ensures var s' := Apply(c, s, step); s'.pcs[v].Acquiring? || s'.pcs[v].WasSkipped()
  {
    hide Setup.Plan;
  }

  /** A worker has all its locks only after one that shares a resource with it has signalled its failure. */
  lemma BlockedUntilSignalled(c: Setup, s: State, v: nat, w: nat)
    requires c.Valid() && PcsInRange(c, s) && OwnersMatch(c, s)
    requires v < |c.sessions| && w < |c.sessions| && v != w && c.Share(v, w) && HeldBack(s, v, w)
    requires s.pcs[v].Acquiring? && s.pcs[v].next == |c.Plan(v)|
    ensures s.event
  {
    if !s.event {
      var l := SharedLock(c, v, w);
      assert c.Plan(v)[..|c.Plan(v)|] == c.Plan(v);
      HolderIsOwner(c, s, w, l);
      HolderIsOwner(c, s, v, l);
    }
  }

  /**
   * With fail_fast, after a session has failed every session sharing a resource with it that
   * has not started yet never runs: whenever it has ended, it was skipped.
   */
  lemma {:induction false} FailFastStopsSharers(
    c: Setup, ss: seq<State>, steps: seq<Step>, i: nat, j: nat, v: nat, w: nat)
    requires c.Valid() && c.failFast && IsRun(c, ss, steps) && i <= j < |ss|
    requires v < |c.sessions| && w < |c.sessions| && v != w && c.Share(v, w)
    requires ss[i].pcs[w].Failed() && ss[i].pcs[v].Acquiring?
    ensures !ss[j].pcs[v].Running? && (ss[j].pcs[v].Ended() ==> ss[j].pcs[v].outcome == Skipped)
    ensures HeldBack(ss[j], v, w)
    decreases j
  {
    if i == j {
      ReachableInv(c, ss, steps, i);
      if !ss[i].pcs[w].Returned? {
        assert ss[i].pcs[w].Signalled();
      }
    } else {
      FailFastStopsSharers(c, ss, steps, i, j - 1, v, w);
      ReachableInv(c, ss, steps, j - 1);
      StepKeepsHeldBack(c, ss[j - 1], steps[j - 1], v, w);
    }
  }

  /** A skipped session has a witness that really ran and failed; without fail_fast none is skipped. */
  lemma SkippedHasWitness(c: Setup, ss: seq<State>, steps: seq<Step>, i: nat, v: nat) returns (w: nat)
    requires c.Valid() && IsRun(c, ss, steps) && i < |ss|
    requires v < |c.sessions| && ss[i].pcs[v].WasSkipped()
    ensures c.failFast && w < |c.sessions| && w != v && ss[i].pcs[w].Signalled()
  {
    ReachableInv(c, ss, steps, i);
    w :| 0 <= w < |ss[i].pcs| && ss[i].pcs[w].Signalled();
  }

  // ---------- deadlock freedom ----------

  ghost predicate Unfinished(s: State, w: nat) {
    w < |s.pcs| && !s.pcs[w].Done?
  }

  /** Worker `w` waits for a lock somebody holds. */
  ghost predicate Blocked(c: Setup, s: State, w: nat)
    requires c.Valid() && |s.pcs| == |c.sessions|
  {
    && w < |s.pcs| && s.pcs[w].Acquiring?
    && s.pcs[w].next < |c.Plan(w)| && c.Plan(w)[s.pcs[w].next] in s.owner
  }

  lemma UnblockedCanStep(c: Setup, s: State, w: nat) returns (step: Step)
    requires c.Valid() && Inv(c, s) && Unfinished(s, w) && !Blocked(c, s, w)
    ensures Enabled(c, s, step) && !step.Collect?
  {
    step := if s.pcs[w].Running? then RunEnds(w, Ran(0)) else Advance(w);
  }

  ghost function LocksAbove(c: Setup, s: State, l: nat): set<nat> {
    set m | m in s.owner && l < m
  }

  /**
   * Following the chain from a blocked worker to the owner of the lock it waits for climbs in
   * the lock order, so it ends at a worker that can step.
   */
  lemma {:induction false} ChainEnds(c: Setup, s: State, w: nat) returns (step: Step)
    requires c.Valid() && Inv(c, s) && Blocked(c, s, w)
    ensures Enabled(c, s, step) && !step.Collect?
    decreases |LocksAbove(c, s, c.Plan(w)[s.pcs[w].next])|
  {
    var k := s.pcs[w].next;
    var l := c.Plan(w)[k];
    var v := s.owner[l];
    assert l in AllHeld(c, s)[v];
    assert v != w;
    if Blocked(c, s, v) {
      var m := c.Plan(v)[s.pcs[v].next];
      assert l < m;
      assert LocksAbove(c, s, m) <= LocksAbove(c, s, l);
      assert m in LocksAbove(c, s, l) && m !in LocksAbove(c, s, m);
      assert LocksAbove(c, s, m) < LocksAbove(c, s, l);
      SmallerSet(LocksAbove(c, s, m), LocksAbove(c, s, l));
      step := ChainEnds(c, s, v);
    } else {
      step := UnblockedCanStep(c, s, v);
    }
  }

  lemma SmallerSet(a: set<nat>, b: set<nat>)
    requires a < b
    ensures |a| < |b|
  {
    assert b == a + (b - a) && b - a != {};
  }

  /** No reachable state with an unfinished session is a deadlock. */
  lemma NoDeadlock(c: Setup, ss: seq<State>, steps: seq<Step>, i: nat, w: nat) returns (step: Step)
    requires c.Valid() && IsRun(c, ss, steps) && i < |ss| && Unfinished(ss[i], w)
    ensures Enabled(c, ss[i], step) && !step.Collect?
  {
    ReachableInv(c, ss, steps, i);
    if Blocked(c, ss[i], w) {
      step := ChainEnds(c, ss[i], w);
    } else {
      step := UnblockedCanStep(c, ss[i], w);
    }
  }

  // ---------- termination ----------

  ghost function Weight(c: Setup, s: State, w: nat): nat
    requires c.Valid() && PcsInRange(c, s) && w < |s.pcs|
  {
    var n := |c.Plan(w)|;
    match s.pcs[w]
    case Acquiring(k) => 2 * n + 6 - k
    case Running => n + 5
    case Returned(_) => n + 4
    case Releasing(k, _) => n - k + 3
    case Done(_) => if w in s.collected then 0 else 2
  }

  ghost function WeightUpTo(c: Setup, s: State, n: nat): nat
    requires c.Valid() && PcsInRange(c, s) && n <= |s.pcs|
  {
    if n == 0 then 0 else WeightUpTo(c, s, n - 1) + Weight(c, s, n - 1)
  }

  /** An upper bound on the steps still to come. */
  ghost function Measure(c: Setup, s: State): nat
    requires c.Valid() && PcsInRange(c, s)
  {
    WeightUpTo(c, s, |s.pcs|) + if s.aborted then 0 else 1
  }

  lemma {:induction false} OneWeightChanges(c: Setup, s: State, s': State, w: nat, n: nat)
    requires c.Valid() && PcsInRange(c, s) && PcsInRange(c, s') && w < |s.pcs| && n <= |s.pcs|
    requires forall v | 0 <= v < |s.pcs| && v != w :: Weight(c, s', v) == Weight(c, s, v)
    requires Weight(c, s', w) < Weight(c, s, w)
    ensures WeightUpTo(c, s', n) <= WeightUpTo(c, s, n)
    ensures w < n ==> WeightUpTo(c, s', n) < WeightUpTo(c, s, n)
  {
    if n > 0 {
      OneWeightChanges(c, s, s', w, n - 1);
    }
  }

  lemma {:induction false} SameWeights(c: Setup, s: State, s': State, n: nat)
    requires c.Valid() && PcsInRange(c, s) && PcsInRange(c, s') && n <= |s.pcs|
    requires forall v | 0 <= v < |s.pcs| :: Weight(c, s', v) == Weight(c, s, v)
    ensures WeightUpTo(c, s', n) == WeightUpTo(c, s, n)
  {
    if n > 0 {
      SameWeights(c, s, s', n - 1);
    }
  }

  lemma CollectShrinksMeasure(c: Setup, s: State, w: nat)
    requires c.Valid() && PcsInRange(c, s) && Enabled(c, s, Collect(w))
    ensures PcsInRange(c, Apply(c, s, Collect(w))) && Measure(c, Apply(c, s, Collect(w))) < Measure(c, s)
  {
    var s' := Apply(c, s, Collect(w));
    if s'.aborted {
      SameWeights(c, s, s', |s.pcs|);
    } else {
      assert s'.collected[|s.collected|] == w;
      forall v | 0 <= v < |s.pcs| && v != w ensures Weight(c, s', v) == Weight(c, s, v) {
        assert v in s'.collected <==> v in s.collected;
      }
      OneWeightChanges(c, s, s', w, |s.pcs|);
    }
  }

  lemma WorkerStepShrinksMeasure(c: Setup, s: State, step: Step)
    requires c.Valid() && PcsInRange(c, s) && Enabled(c, s, step) && !step.Collect?
    ensures PcsInRange(c, Apply(c, s, step)) && Measure(c, Apply(c, s, step)) < Measure(c, s)
  {
    StepStaysInRange(c, s, step);
    var s' := Apply(c, s, step);
    WorkerStepMovesOne(c, s, step);
    assert Weight(c, s', step.w) < Weight(c, s, step.w);
    hide Apply, AdvanceWorker, Enabled, PcInRange;
    OneWeightChanges(c, s, s', step.w, |s.pcs|);
  }

  lemma StepShrinksMeasure(c: Setup, s: State, step: Step)
    requires c.Valid() && PcsInRange(c, s) && Enabled(c, s, step)
    ensures PcsInRange(c, Apply(c, s, step)) && Measure(c, Apply(c, s, step)) < Measure(c, s)
  {
    hide *;
    if step.Collect? {
      CollectShrinksMeasure(c, s, step.w);
    } else {
      WorkerStepShrinksMeasure(c, s, step);
    }
  }

  /** Every step uses up some of the initial measure, so no run is longer than that. */
  lemma {:induction false} RunsAreBounded(c: Setup, ss: seq<State>, steps: seq<Step>, i: nat)
    requires c.Valid() && IsRun(c, ss, steps) && i < |ss|
    ensures PcsInRange(c, ss[0]) && PcsInRange(c, ss[i]) && i + Measure(c, ss[i]) <= Measure(c, Init(c))
  {
    ReachableInv(c, ss, steps, i);
    InitInv(c);
    if i > 0 {
      RunsAreBounded(c, ss, steps, i - 1);
      ReachableInv(c, ss, steps, i - 1);
      StepShrinksMeasure(c, ss[i - 1], steps[i - 1]);
    }
  }

  ghost predicate AllDone(s: State) {
    forall w | 0 <= w < |s.pcs| :: s.pcs[w].Done?
  }

  /** The main thread has every result. */
  ghost predicate Complete(c: Setup, s: State) {
    && |s.pcs| == |c.sessions| && AllDone(s) && !s.aborted
    && (forall w | 0 <= w < |s.pcs| :: w in s.collected)
  }

  /**
   * A run that can go no further has finished every session and freed every lock, and the main
   * thread has all results unless some session raised.
   */
  lemma StuckMeansFinished(c: Setup, ss: seq<State>, steps: seq<Step>)
    requires c.Valid() && IsRun(c, ss, steps)
    requires forall step :: !Enabled(c, ss[|steps|], step)
    ensures AllDone(ss[|steps|]) && ss[|steps|].owner == map[]
    ensures Complete(c, ss[|steps|]) || exists w | 0 <= w < |c.sessions| :: ss[|steps|].pcs[w] == Done(Raised)
  {
    var s := ss[|steps|];
    ReachableInv(c, ss, steps, |steps|);
    forall w | 0 <= w < |s.pcs| ensures s.pcs[w].Done? {
      if !s.pcs[w].Done? {
        var step := NoDeadlock(c, ss, steps, |steps|, w);
      }
    }
    assert forall w | 0 <= w < |s.pcs| :: AllHeld(c, s)[w] == [];
    if !s.aborted {
      forall w | 0 <= w < |s.pcs| ensures w in s.collected {
        assert !Enabled(c, s, Collect(w));
      }
    }
  }

  // ---------- the results of the parallel run ----------

  datatype SessionResult = SessionResult(name: string, exitCode: int)

  /** The result `_run_session` returns; -1 stands for a skipped session. */
  ghost function ResultOf(c: Setup, s: State, w: nat): SessionResult
    requires |s.pcs| == |c.sessions| && w < |s.pcs| && s.pcs[w].Done? && !s.pcs[w].outcome.Raised?
  {
    SessionResult(c.sessions[w].name, if s.pcs[w].outcome.Skipped? then -1 else s.pcs[w].outcome.code)
  }

  ghost predicate HaveResults(c: Setup, s: State, ws: seq<nat>) {
    |s.pcs| == |c.sessions| &&
    forall i | 0 <= i < |ws| :: ws[i] < |s.pcs| && s.pcs[ws[i]].Done? && !s.pcs[ws[i]].outcome.Raised?
  }

  ghost function ResultsOf(c: Setup, s: State, ws: seq<nat>): (rs: seq<SessionResult>)
    requires HaveResults(c, s, ws)
    ensures |rs| == |ws| && forall i | 0 <= i < |ws| :: rs[i] == ResultOf(c, s, ws[i])
  {
    if ws == [] then [] else [ResultOf(c, s, ws[0])] + ResultsOf(c, s, ws[1..])
  }

  /** `order.get(name, 0)`: a later session with the same name overwrites an earlier one. */
  function Order(sessions: seq<Session>, name: string): nat {
    if sessions == [] then 0
    else if sessions[|sessions| - 1].name == name then |sessions| - 1
    else Order(sessions[..|sessions| - 1], name)
  }

  /** What `_run_parallel` returns. */
  ghost function ParallelResults(c: Setup, s: State): seq<SessionResult>
    requires HaveResults(c, s, s.collected)
  {
    SortByManifest(c.sessions, ResultsOf(c, s, s.collected))
  }

  ghost predicate UniqueNames(sessions: seq<Session>) {
    forall i, j | 0 <= i < j < |sessions| :: sessions[i].name != sessions[j].name
  }

  lemma {:induction false} OrderIsPosition(sessions: seq<Session>, i: nat)
    requires UniqueNames(sessions) && i < |sessions|
    ensures Order(sessions, sessions[i].name) == i
  {
    if i < |sessions| - 1 {
      OrderIsPosition(sessions[..|sessions| - 1], i);
    }
  }

  ghost function Range(n: nat): seq<nat> {
    seq(n, i => i)
  }

  lemma {:induction false} PermutationOfRange(ws: seq<nat>, n: nat)
    requires NoDuplicates(ws)
    requires forall w: nat :: w in ws <==> w < n
    ensures multiset(ws) == multiset(Range(n))
  {
    forall w: nat ensures multiset(ws)[w] == multiset(Range(n))[w] {
      CountOnce(ws, w);
      CountOnce(Range(n), w);
      assert w < n ==> Range(n)[w] == w;
    }
  }

  /** Collecting the same workers in another order gives the same results in another order. */
  lemma ResultsOfPermutation(c: Setup, s: State, vs: seq<nat>, ws: seq<nat>)
    requires HaveResults(c, s, vs) && HaveResults(c, s, ws) && multiset(vs) == multiset(ws)
    ensures multiset(ResultsOf(c, s, vs)) == multiset(ResultsOf(c, s, ws))
  {
    var f := (w: nat) => if HaveResults(c, s, [w]) then ResultOf(c, s, ([w])[0]) else SessionResult("", 0);
    ResultsAreMap(c, s, vs, f);
    ResultsAreMap(c, s, ws, f);
    MapPermuted(f, vs, ws);
  }

  lemma ResultsAreMap(c: Setup, s: State, ws: seq<nat>, f: nat -> SessionResult)
    requires HaveResults(c, s, ws)
    requires forall w | HaveResults(c, s, [w]) :: f(w) == ResultOf(c, s, ([w])[0])
    ensures ResultsOf(c, s, ws) == MapSeq(f, ws)
  {
    var rs, ms := ResultsOf(c, s, ws), MapSeq(f, ws);
    forall i | 0 <= i < |ws| ensures rs[i] == ms[i] {
      assert HaveResults(c, s, [ws[i]]);
    }
  }

  lemma CompleteCollection(c: Setup, s: State)
    requires c.Valid() && Inv(c, s) && Complete(c, s)
    ensures HaveResults(c, s, s.collected) && HaveResults(c, s, Range(|c.sessions|))
    ensures multiset(s.collected) == multiset(Range(|c.sessions|))
  {
    var n := |c.sessions|;
    assert NoDuplicates(s.collected);
    forall w: nat ensures w in s.collected <==> w < n {
      assert w < n ==> w in s.collected;
    }
    assert forall w | 0 <= w < n :: w in s.collected && s.pcs[w].Done? && !s.pcs[w].outcome.Raised?;
    hide Inv, Complete;
    PermutationOfRange(s.collected, n);
  }

  /** `results.sort` by manifest position, as `_run_parallel` calls it. */
  function SortByManifest(sessions: seq<Session>, results: seq<SessionResult>): seq<SessionResult> {
    Sort((a: SessionResult, b: SessionResult) => Order(sessions, a.name) <= Order(sessions, b.name), results)
  }

  lemma SortByManifestRestores(sessions: seq<Session>, results: seq<SessionResult>, target: seq<SessionResult>)
    requires UniqueNames(sessions) && |target| == |sessions| && multiset(results) == multiset(target)
    requires forall w | 0 <= w < |sessions| :: target[w].name == sessions[w].name
    ensures SortByManifest(sessions, results) == target
  {
    var leq := (a: SessionResult, b: SessionResult) => Order(sessions, a.name) <= Order(sessions, b.name);
    SortSorts(leq, results);
    forall w | 0 <= w < |sessions| ensures Order(sessions, target[w].name) == w {
      OrderIsPosition(sessions, w);
    }
    SortedIsUnique(leq, Sort(leq, results), target);
  }

  /**
   * Whatever order the workers finish in, the parallel run returns exactly one result per
   * session, in manifest order.
   */
  lemma ParallelRunInManifestOrder(c: Setup, ss: seq<State>, steps: seq<Step>, i: nat)
    requires c.Valid() && UniqueNames(c.sessions) && IsRun(c, ss, steps) && i < |ss|
    requires Complete(c, ss[i])
    ensures HaveResults(c, ss[i], ss[i].collected) && HaveResults(c, ss[i], Range(|c.sessions|))
    ensures ParallelResults(c, ss[i]) == ResultsOf(c, ss[i], Range(|c.sessions|))
  {
    var s := ss[i];
    ReachableInv(c, ss, steps, i);
    CompleteCollection(c, s);
    ResultsOfPermutation(c, s, s.collected, Range(|c.sessions|));
    SortByManifestRestores(c.sessions, ResultsOf(c, s, s.collected), ResultsOf(c, s, Range(|c.sessions|)));
  }
}

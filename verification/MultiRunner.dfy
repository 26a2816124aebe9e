/** Manifest parsing, the sequential run and the aggregated exit code of the sessions' results. */
module MultiRunner {
  import opened Options
  import opened Scheduler

  // ---------- the manifest ----------

  /** A value of a parsed YAML document; mappings are keyed by strings. */
  datatype Yaml =
    | Null
    | Bool(b: bool)
    | Int(i: int)
    | Str(s: string)
    | List(items: seq<Yaml>)
    | Mapping(entries: map<string, Yaml>)
  {
    /** `self.get(key, default)`. */
    function Get(key: string, default: Yaml): Yaml
      requires Mapping?
    {
      if key in entries then entries[key] else default
    }

    predicate NonEmptyString() { Str? && s != "" }
  }

  datatype ManifestError =
    | SessionsNotAList
    | NotAMapping(idx: nat)
    | NameRequired(idx: nat)
    | DuplicateName(name: string)
    | ConfpathRequired(name: string)
    | TestpathRequired(name: string)
    | ResourcesNotAList(name: string)

  datatype Result<+T> = Ok(value: T) | Err(error: ManifestError)

  datatype SessionConfig = SessionConfig(
    name: string, confpath: string, testpath: string, resources: seq<string>,
    exitonfail: Yaml, loops: Yaml, timeout: Yaml, timeoutSession: Yaml, modules: Yaml)

  predicate HasName(raw: Yaml) {
    raw.Mapping? && raw.Get("name", Null).NonEmptyString()
  }

  function NameOf(raw: Yaml): string
    requires HasName(raw)
  {
    raw.Get("name", Null).s
  }

  /** An entry is usable by itself, whatever stands around it. */
  predicate WellFormed(raw: Yaml) {
    && HasName(raw)
    && raw.Get("confpath", Null).NonEmptyString()
    && raw.Get("testpath", Null).NonEmptyString()
    && raw.Get("resources", List([])).List?
  }

  /** `str` renders a YAML value as Python's `str` does. */
  function Texts(str: Yaml -> string, items: seq<Yaml>): (r: seq<string>)
    ensures |r| == |items| && forall i | 0 <= i < |items| :: r[i] == str(items[i])
  {
    if items == [] then [] else [str(items[0])] + Texts(str, items[1..])
  }

  function ConfigOf(str: Yaml -> string, raw: Yaml): SessionConfig
    requires WellFormed(raw)
  {
    SessionConfig(
      NameOf(raw), raw.Get("confpath", Null).s, raw.Get("testpath", Null).s,
      Texts(str, raw.Get("resources", List([])).items),
      raw.Get("exitonfail", Null), raw.Get("loops", Null), raw.Get("timeout", Null),
      raw.Get("timeout_session", Null), raw.Get("modules", Null))
  }

  /** Entry `i` repeats the name of an earlier entry. */
  predicate Repeats(items: seq<Yaml>, i: nat)
    requires i < |items| && HasName(items[i])
  {
    exists j | 0 <= j < i :: HasName(items[j]) && NameOf(items[j]) == NameOf(items[i])
  }

  /** What is wrong with entry `i`, given the entries before it. */
  function ErrorAt(items: seq<Yaml>, i: nat): Option<ManifestError>
    requires i < |items|
  {
    var raw := items[i];
    if !raw.Mapping? then Some(NotAMapping(i))
    else if !HasName(raw) then Some(NameRequired(i))
    else if Repeats(items, i) then Some(DuplicateName(NameOf(raw)))
    else if !raw.Get("confpath", Null).NonEmptyString() then Some(ConfpathRequired(NameOf(raw)))
    else if !raw.Get("testpath", Null).NonEmptyString() then Some(TestpathRequired(NameOf(raw)))
    else if !raw.Get("resources", List([])).List? then Some(ResourcesNotAList(NameOf(raw)))
    else None
  }

  ghost function NamesOf(items: seq<Yaml>): set<string>
    requires forall raw | raw in items :: HasName(raw)
  {
    set raw | raw in items :: NameOf(raw)
  }

  lemma NamesGrow(items: seq<Yaml>, i: nat)
    requires i < |items| && forall raw | raw in items[..i + 1] :: HasName(raw)
    ensures items[..i + 1] == items[..i] + [items[i]] && forall raw | raw in items[..i] :: HasName(raw)
    ensures NamesOf(items[..i + 1]) == NamesOf(items[..i]) + {NameOf(items[i])}
  {
    assert items[..i + 1] == items[..i] + [items[i]];
  }

  method ParseSession(str: Yaml -> string, ghost before: seq<Yaml>, raw: Yaml, idx: nat, names: set<string>)
    returns (r: Result<SessionConfig>, names': set<string>)
    requires idx == |before| && (forall raw | raw in before :: HasName(raw)) && names == NamesOf(before)
    ensures var e := ErrorAt(before + [raw], idx);
      if e.None? then WellFormed(raw) && r == Ok(ConfigOf(str, raw)) && names' == names + {NameOf(raw)}
      else r == Err(e.value)
  {
    names' := names;
    assert forall j | 0 <= j < idx :: (before + [raw])[j] in before;
    assert forall q | q in before :: exists j | 0 <= j < idx :: before[j] == q && (before + [raw])[j] == q;
    if !raw.Mapping? { return Err(NotAMapping(idx)), names'; }
    var name := raw.Get("name", Null);
    if !name.NonEmptyString() { return Err(NameRequired(idx)), names'; }
    if name.s in names { return Err(DuplicateName(name.s)), names'; }
    names' := names' + {name.s};
    var confpath := raw.Get("confpath", Null);
    if !confpath.NonEmptyString() { return Err(ConfpathRequired(name.s)), names'; }
    var testpath := raw.Get("testpath", Null);
    if !testpath.NonEmptyString() { return Err(TestpathRequired(name.s)), names'; }
    var resources := raw.Get("resources", List([]));
    if !resources.List? { return Err(ResourcesNotAList(name.s)), names'; }
    r := Ok(SessionConfig(name.s, confpath.s, testpath.s, Texts(str, resources.items),
      raw.Get("exitonfail", Null), raw.Get("loops", Null), raw.Get("timeout", Null),
      raw.Get("timeout_session", Null), raw.Get("modules", Null)));
  }

  ghost predicate UniqueConfigNames(sessions: seq<SessionConfig>) {
    forall i, j | 0 <= i < j < |sessions| :: sessions[i].name != sessions[j].name
  }

  /** A manifest is accepted exactly when it is a non-empty list of usable entries with distinct names. */
  ghost predicate Acceptable(raw: Yaml) {
    && raw.List? && raw.items != []
    && (forall i | 0 <= i < |raw.items| :: WellFormed(raw.items[i]))
    && (forall i, j | 0 <= i < j < |raw.items| :: NameOf(raw.items[i]) != NameOf(raw.items[j]))
  }

  /** The first faulty entry decides the error. */
  ghost predicate FirstError(items: seq<Yaml>, e: ManifestError) {
    exists i | 0 <= i < |items| ::
      ErrorAt(items, i) == Some(e) && forall j | 0 <= j < i :: ErrorAt(items, j) == None
  }

  lemma ErrorAtIsLocal(items: seq<Yaml>, i: nat)
    requires i < |items|
    ensures ErrorAt(items[..i] + [items[i]], i) == ErrorAt(items, i)
  {
    assert forall j | 0 <= j <= i :: (items[..i] + [items[i]])[j] == items[j];
    if HasName(items[i]) {
      assert Repeats(items[..i] + [items[i]], i) == Repeats(items, i);
    }
  }

  /** An entry with these fields is read as this configuration; a missing field counts as Null. */
  lemma EntryIsRead(str: Yaml -> string, raw: Yaml, c: SessionConfig, texts: seq<Yaml>)
    requires raw.Mapping? && c.name != "" && c.confpath != "" && c.testpath != ""
    requires raw.Get("name", Null) == Str(c.name) && raw.Get("confpath", Null) == Str(c.confpath)
    requires raw.Get("testpath", Null) == Str(c.testpath) && raw.Get("resources", List([])) == List(texts)
    requires |texts| == |c.resources| && forall i | 0 <= i < |texts| :: str(texts[i]) == c.resources[i]
    requires raw.Get("exitonfail", Null) == c.exitonfail && raw.Get("loops", Null) == c.loops
    requires raw.Get("timeout", Null) == c.timeout && raw.Get("timeout_session", Null) == c.timeoutSession
    requires raw.Get("modules", Null) == c.modules
    ensures WellFormed(raw) && ConfigOf(str, raw) == c
  {
    assert Texts(str, texts) == c.resources;
  }

  /** Of several faults of an entry the first in this order is reported. */
  lemma FaultsInOrder(items: seq<Yaml>, i: nat, name: string, fields: map<string, Yaml>)
    requires i < |items| && name != "" && items[i] == Mapping(fields) && "resources" in fields
    requires fields["resources"] == Null
    ensures "name" !in fields || fields["name"] == Str("") || fields["name"] == Int(1) ==>
      ErrorAt(items, i) == Some(NameRequired(i))
    ensures "name" in fields && fields["name"] == Str(name) ==>
      ErrorAt(items, i) ==
      if exists j | 0 <= j < i ::
        items[j].Mapping? && "name" in items[j].entries && items[j].entries["name"] == Str(name)
      then Some(DuplicateName(name))
      else if "confpath" !in fields || fields["confpath"] == Str("") || !fields["confpath"].Str?
      then Some(ConfpathRequired(name))
      else if "testpath" !in fields || fields["testpath"] == Str("") || !fields["testpath"].Str?
      then Some(TestpathRequired(name))
      else Some(ResourcesNotAList(name))
  {
    if "name" in fields && fields["name"] == Str(name) {
      forall j | 0 <= j < i ensures
        HasName(items[j]) && NameOf(items[j]) == name <==>
        items[j].Mapping? && "name" in items[j].entries && items[j].entries["name"] == Str(name)
      {
      }
      assert NameOf(items[i]) == name;
    }
  }

  ghost predicate NoErrors(items: seq<Yaml>, n: nat)
    requires n <= |items|
  {
    forall i | 0 <= i < n :: ErrorAt(items, i) == None
  }

  lemma NoErrorsMeansAcceptable(items: seq<Yaml>)
    ensures Acceptable(List(items)) <==> items != [] && NoErrors(items, |items|)
  {
    if NoErrors(items, |items|) {
      forall i, j | 0 <= i < j < |items| ensures WellFormed(items[i]) && WellFormed(items[j])
        ensures NameOf(items[i]) != NameOf(items[j])
      {
        assert ErrorAt(items, i) == None && ErrorAt(items, j) == None;
        assert !Repeats(items, j);
      }
      assert forall i | 0 <= i < |items| :: ErrorAt(items, i) == None ==> WellFormed(items[i]);
    }
    if Acceptable(List(items)) {
      forall i | 0 <= i < |items| ensures ErrorAt(items, i) == None {
        assert WellFormed(items[i]);
      }
    }
  }

  lemma AcceptedNamesAreUnique(str: Yaml -> string, items: seq<Yaml>, sessions: seq<SessionConfig>)
    requires Acceptable(List(items)) && |sessions| == |items|
    requires forall i | 0 <= i < |items| :: WellFormed(items[i]) && sessions[i] == ConfigOf(str, items[i])
    ensures UniqueConfigNames(sessions)
  {
    assert forall i | 0 <= i < |items| :: sessions[i].name == NameOf(items[i]);
  }

  method ParseSessions(str: Yaml -> string, raw: Yaml) returns (r: Result<seq<SessionConfig>>)
    ensures r.Ok? <==> Acceptable(raw)
    ensures r.Ok? ==> |r.value| == |raw.items| && UniqueConfigNames(r.value)
    ensures r.Ok? ==> forall i | 0 <= i < |r.value| :: r.value[i] == ConfigOf(str, raw.items[i])
    ensures r.Err? ==>
      if raw.List? && raw.items != [] then FirstError(raw.items, r.error) else r.error == SessionsNotAList
  {
    if !raw.List? || raw.items == [] { return Err(SessionsNotAList); }
    var items := raw.items;
    NoErrorsMeansAcceptable(items);
    var sessions: seq<SessionConfig> := [];
    var names: set<string> := {};
    hide ErrorAt, ConfigOf, NamesOf, UniqueConfigNames;
    NothingParsed(str, items);
    for idx := 0 to |items|
      invariant Parsed(str, items, idx, sessions, names)
    {
      ErrorAtIsLocal(items, idx);
      hide WellFormed, HasName;
      var s, names' := ParseSession(str, items[..idx], items[idx], idx, names);
      if s.Err? {
        return Err(s.error);
      }
      hide Parsed, NoErrors;
      ParsedOneMore(str, items, idx, sessions, names);
      sessions, names := sessions + [s.value], names';
    }
    r := Ok(sessions);
    AcceptedNamesAreUnique(str, items, sessions);
  }

  /** What has been built from the first `n` entries. */
  ghost predicate Parsed(
    str: Yaml -> string, items: seq<Yaml>, n: nat, sessions: seq<SessionConfig>, names: set<string>)
  {
    && |sessions| == n <= |items| && NoErrors(items, n)
    && (forall i | 0 <= i < n :: WellFormed(items[i]) && sessions[i] == ConfigOf(str, items[i]))
    && (forall raw | raw in items[..n] :: HasName(raw)) && names == NamesOf(items[..n])
  }

  lemma NothingParsed(str: Yaml -> string, items: seq<Yaml>)
    ensures Parsed(str, items, 0, [], {})
  {
  }

  lemma ParsedOneMore(str: Yaml -> string, items: seq<Yaml>, n: nat, sessions: seq<SessionConfig>, names: set<string>)
    requires n < |items| && Parsed(str, items, n, sessions, names)
    requires ErrorAt(items, n) == None && WellFormed(items[n])
    ensures Parsed(str, items, n + 1, sessions + [ConfigOf(str, items[n])], names + {NameOf(items[n])})
  {
    assert items[..n + 1] == items[..n] + [items[n]] && HasName(items[n]);
    hide ErrorAt, ConfigOf, NamesOf, WellFormed, HasName;
    NamesGrow(items, n);
  }

  /** The sessions as the scheduler sees them. */
  function Schedulable(sessions: seq<SessionConfig>): (r: seq<Session>)
    ensures |r| == |sessions|
    ensures forall i | 0 <= i < |r| :: r[i] == Session(sessions[i].name, sessions[i].resources)
  {
    seq(|sessions|, i requires 0 <= i < |sessions| => Session(sessions[i].name, sessions[i].resources))
  }

  /** The names an accepted manifest has are unique for the scheduler too. */
  lemma SchedulableNamesAreUnique(sessions: seq<SessionConfig>)
    requires UniqueConfigNames(sessions)
    ensures UniqueNames(Schedulable(sessions))
  {
    var scheduled := Schedulable(sessions);
    forall i, j | 0 <= i < j < |scheduled| ensures scheduled[i].name != scheduled[j].name {
      assert sessions[i].name != sessions[j].name;
    }
  }

  // ---------- the sequential run ----------

  /** `exits[i]` is what running session `i` would give: an exit code, or None for an exception. */
  function SequentialResults(sessions: seq<SessionConfig>, exits: seq<Option<int>>, failFast: bool)
    : Option<seq<SessionResult>>
    requires |exits| == |sessions|
  {
    if sessions == [] then Some([])
    else if exits[0].None? then None
    else
      var sr := SessionResult(sessions[0].name, exits[0].value);
      if failFast && sr.exitCode != 0 then Some([sr])
      else
        var rest := SequentialResults(sessions[1..], exits[1..], failFast);
        if rest.None? then None else Some([sr] + rest.value)
  }

  /** No session before the `k`-th stops the run. */
  ghost predicate GoesOn(exits: seq<Option<int>>, failFast: bool, k: nat)
    requires k <= |exits|
  {
    forall i | 0 <= i < k :: exits[i].Some? && !(failFast && exits[i].value != 0)
  }

  function After(done: seq<SessionResult>, rest: Option<seq<SessionResult>>): Option<seq<SessionResult>> {
    if rest.None? then None else Some(done + rest.value)
  }

  method RunSequential(sessions: seq<SessionConfig>, exits: seq<Option<int>>, failFast: bool)
    returns (r: Option<seq<SessionResult>>)
    requires |exits| == |sessions|
    ensures r == SequentialResults(sessions, exits, failFast)
  {
    var results: seq<SessionResult> := [];
    ghost var all := SequentialResults(sessions, exits, failFast);
    assert sessions[0..] == sessions && exits[0..] == exits;
    assert all.Some? ==> [] + all.value == all.value;
    for i := 0 to |sessions|
      invariant all == After(results, SequentialResults(sessions[i..], exits[i..], failFast))
    {
      ghost var rest := SequentialResults(sessions[i + 1..], exits[i + 1..], failFast);
      assert sessions[i..][1..] == sessions[i + 1..] && exits[i..][1..] == exits[i + 1..];
      if exits[i].None? { return None; }
      var sr := SessionResult(sessions[i].name, exits[i].value);
      assert rest.Some? ==> results + ([sr] + rest.value) == results + [sr] + rest.value;
      results := results + [sr];
      if failFast && sr.exitCode != 0 { return Some(results); }
    }
    assert results + [] == results;
    r := Some(results);
  }

  lemma GoesOnShift(exits: seq<Option<int>>, failFast: bool, k: nat)
    requires k < |exits| && GoesOn(exits, failFast, 1)
    ensures GoesOn(exits, failFast, k + 1) <==> GoesOn(exits[1..], failFast, k)
  {
    assert forall i | 0 <= i < k :: exits[1..][i] == exits[i + 1];
    if GoesOn(exits[1..], failFast, k) {
      forall i | 0 <= i < k + 1 ensures exits[i].Some? && !(failFast && exits[i].value != 0) {
        assert i > 0 ==> exits[i] == exits[1..][i - 1];
      }
    }
  }

  ghost predicate RaisesAt(exits: seq<Option<int>>, failFast: bool, k: nat) {
    k < |exits| && exits[k].None? && GoesOn(exits, failFast, k)
  }

  /** The run raises exactly when an exception comes before any fail_fast stop. */
  lemma {:induction false} SequentialRunRaisesIff(sessions: seq<SessionConfig>, exits: seq<Option<int>>, failFast: bool)
    requires |exits| == |sessions|
    ensures SequentialResults(sessions, exits, failFast).None? <==> exists k: nat :: RaisesAt(exits, failFast, k)
  {
    if sessions == [] {
    } else if exits[0].None? {
      assert RaisesAt(exits, failFast, 0);
    } else if GoesOn(exits, failFast, 1) {
      SequentialRunRaisesIff(sessions[1..], exits[1..], failFast);
      forall k: nat | RaisesAt(exits[1..], failFast, k) ensures RaisesAt(exits, failFast, k + 1) {
        GoesOnShift(exits, failFast, k);
      }
      forall k: nat | RaisesAt(exits, failFast, k) ensures k > 0 && RaisesAt(exits[1..], failFast, k - 1) {
        GoesOnShift(exits, failFast, k - 1);
      }
    } else {
      assert forall k: nat | 0 < k <= |exits| :: !GoesOn(exits, failFast, k);
    }
  }

  ghost predicate ResultsMatch(sessions: seq<SessionConfig>, exits: seq<Option<int>>, rs: seq<SessionResult>)
    requires |exits| == |sessions|
  {
    && |rs| <= |sessions|
    && (forall i | 0 <= i < |rs| :: exits[i].Some? && rs[i] == SessionResult(sessions[i].name, exits[i].value))
  }

  /**
   * The sequential run returns the results of a manifest prefix, in order: the whole manifest,
   * or with fail_fast the sessions up to and including the first failing one.
   */
  lemma {:induction false} SequentialRunIsPrefix(sessions: seq<SessionConfig>, exits: seq<Option<int>>, failFast: bool)
    requires |exits| == |sessions| && SequentialResults(sessions, exits, failFast).Some?
    ensures var rs := SequentialResults(sessions, exits, failFast).value;
      && ResultsMatch(sessions, exits, rs)
      && (rs != [] ==> GoesOn(exits, failFast, |rs| - 1))
      && (|rs| < |sessions| ==> rs != [] && failFast && rs[|rs| - 1].exitCode != 0)
  {
    if sessions != [] && GoesOn(exits, failFast, 1) {
      SequentialRunIsPrefix(sessions[1..], exits[1..], failFast);
      var rest := SequentialResults(sessions[1..], exits[1..], failFast).value;
      var rs := [SessionResult(sessions[0].name, exits[0].value)] + rest;
      forall i | 0 < i < |rs| ensures exits[i].Some? && rs[i] == SessionResult(sessions[i].name, exits[i].value) {
        assert rs[i] == rest[i - 1] && exits[i] == exits[1..][i - 1] && sessions[i] == sessions[1..][i - 1];
      }
      if rest != [] {
        GoesOnShift(exits, failFast, |rest| - 1);
      }
    }
  }

  // ---------- the exit code ----------

  ghost predicate AllZero(results: seq<SessionResult>) {
    forall i | 0 <= i < |results| :: results[i].exitCode == 0
  }

  method AggregateExitCode(results: seq<SessionResult>) returns (code: int)
    ensures code == if AllZero(results) then 0 else 1
  {
    for i := 0 to |results|
      invariant forall j | 0 <= j < i :: results[j].exitCode == 0
    {
      if results[i].exitCode != 0 { return 1; }
    }
    code := 0;
  }

  /** A sequential run that raises nothing has only zero codes iff every session ran and exited 0. */
  lemma SequentialPassIff(sessions: seq<SessionConfig>, exits: seq<Option<int>>, failFast: bool)
    requires |exits| == |sessions| && SequentialResults(sessions, exits, failFast).Some?
    ensures AllZero(SequentialResults(sessions, exits, failFast).value)
       <==> forall i | 0 <= i < |exits| :: exits[i] == Some(0)
  {
    SequentialRunIsPrefix(sessions, exits, failFast);
    var rs := SequentialResults(sessions, exits, failFast).value;
    if AllZero(rs) {
      assert |rs| == |sessions|;
      forall i | 0 <= i < |exits| ensures exits[i] == Some(0) {
        assert rs[i].exitCode == 0;
      }
    }
    if forall i | 0 <= i < |exits| :: exits[i] == Some(0) {
      forall i | 0 <= i < |rs| ensures rs[i].exitCode == 0 {
        assert exits[i] == Some(0);
      }
    }
  }

  /** A session's result carries the code that its run ended with, or -1 when it was skipped. */
  ghost predicate CodesMatch(sessions: seq<Session>, steps: seq<Step>, i: nat, rs: seq<SessionResult>) {
    && |rs| == |sessions|
    && (forall w | 0 <= w < |rs| :: rs[w].name == sessions[w].name)
    && (forall w, code | 0 <= w < |rs| && EndsWith(steps, i, w, Ran(code)) :: rs[w].exitCode == code)
    && (forall w | 0 <= w < |rs| && (forall code :: !EndsWith(steps, i, w, Ran(code))) :: rs[w].exitCode == -1)
  }

  /** A result in terms of the step that ended its session. */
  lemma ResultIs(c: Setup, ss: seq<State>, steps: seq<Step>, i: nat, w: nat)
    requires c.Valid() && IsRun(c, ss, steps) && i < |ss| && w < |c.sessions|
    requires ss[i].pcs[w].Done? && !ss[i].pcs[w].outcome.Raised?
    ensures var r, o := ResultOf(c, ss[i], w), ss[i].pcs[w].outcome;
      && r.name == c.sessions[w].name
      && (forall code | EndsWith(steps, i, w, Ran(code)) :: o == Ran(code) && r.exitCode == code)
      && ((forall code :: !EndsWith(steps, i, w, Ran(code))) ==> o == Skipped && r.exitCode == -1)
  {
    forall code: int
      ensures EndsWith(steps, i, w, Ran(code)) <==> ss[i].pcs[w].outcome == Ran(code)
    {
      EndedIff(c, ss, steps, i, w, Ran(code));
    }
    hide IsRun;
    if ss[i].pcs[w].outcome.Ran? {
      assert EndsWith(steps, i, w, Ran(ss[i].pcs[w].outcome.code));
    }
  }

  /** The main thread sees an exception iff some session ended with one. */
  lemma AbortedIff(c: Setup, ss: seq<State>, steps: seq<Step>, i: nat)
    requires c.Valid() && IsRun(c, ss, steps) && i < |ss| && AllDone(ss[i]) && (ss[i].aborted || Complete(c, ss[i]))
    ensures ss[i].aborted <==> exists w | 0 <= w < |c.sessions| :: EndsWith(steps, i, w, Raised)
  {
    var s := ss[i];
    ReachableInv(c, ss, steps, i);
    forall w | 0 <= w < |c.sessions| ensures EndsWith(steps, i, w, Raised) <==> s.pcs[w] == Done(Raised) {
      EndedIff(c, ss, steps, i, w, Raised);
    }
  }

  lemma ZeroCodes(sessions: seq<Session>, steps: seq<Step>, i: nat, rs: seq<SessionResult>)
    requires CodesMatch(sessions, steps, i, rs)
    ensures AllZero(rs) <==> forall w | 0 <= w < |sessions| :: EndsWith(steps, i, w, Ran(0))
  {
    hide EndsWith;
    if AllZero(rs) {
      forall w | 0 <= w < |sessions| ensures EndsWith(steps, i, w, Ran(0)) {
        assert rs[w].exitCode == 0;
        assert !(forall code :: !EndsWith(steps, i, w, Ran(code)));
      }
    }
    if forall w | 0 <= w < |sessions| :: EndsWith(steps, i, w, Ran(0)) {
      assert forall w | 0 <= w < |sessions| :: EndsWith(steps, i, w, Ran(0)) ==> rs[w].exitCode == 0;
    }
  }

  lemma ManifestResults(c: Setup, ss: seq<State>, steps: seq<Step>, i: nat)
    requires c.Valid() && UniqueNames(c.sessions) && IsRun(c, ss, steps) && i < |ss| && Complete(c, ss[i])
    ensures HaveResults(c, ss[i], ss[i].collected) && |ParallelResults(c, ss[i])| == |c.sessions|
    ensures forall w | 0 <= w < |c.sessions| ::
      && ss[i].pcs[w].Done? && !ss[i].pcs[w].outcome.Raised?
      && ParallelResults(c, ss[i])[w] == ResultOf(c, ss[i], w)
  {
    ParallelRunInManifestOrder(c, ss, steps, i);
    RangeResults(c, ss[i]);
    hide IsRun, ParallelResults, ResultOf, ResultsOf, Complete, HaveResults, UniqueNames, Setup.Valid;
  }

  lemma RangeResults(c: Setup, s: State)
    requires HaveResults(c, s, Range(|c.sessions|))
    ensures forall w | 0 <= w < |c.sessions| ::
      && s.pcs[w].Done? && !s.pcs[w].outcome.Raised?
      && ResultsOf(c, s, Range(|c.sessions|))[w] == ResultOf(c, s, w)
  {
    forall w | 0 <= w < |c.sessions|
      ensures s.pcs[w].Done? && !s.pcs[w].outcome.Raised?
      ensures ResultsOf(c, s, Range(|c.sessions|))[w] == ResultOf(c, s, w)
    {
      assert Range(|c.sessions|)[w] == w;
    }
  }

  lemma ParallelCodes(c: Setup, ss: seq<State>, steps: seq<Step>, i: nat)
    requires c.Valid() && UniqueNames(c.sessions) && IsRun(c, ss, steps) && i < |ss| && Complete(c, ss[i])
    ensures HaveResults(c, ss[i], ss[i].collected)
    ensures CodesMatch(c.sessions, steps, i, ParallelResults(c, ss[i]))
  {
    ManifestResults(c, ss, steps, i);
    hide IsRun, EndsWith, ParallelResults, ResultOf, Complete, HaveResults, UniqueNames, Setup.Valid;
    var rs := ParallelResults(c, ss[i]);
    forall w | 0 <= w < |c.sessions|
      ensures rs[w].name == c.sessions[w].name
      ensures forall code | EndsWith(steps, i, w, Ran(code)) :: rs[w].exitCode == code
      ensures (forall code :: !EndsWith(steps, i, w, Ran(code))) ==> rs[w].exitCode == -1
    {
      ResultIs(c, ss, steps, i, w);
    }
  }

  /**
   * A completed parallel run returns, in manifest order, the code each session ended with and -1
   * for a skipped one; all are zero iff every session ended with 0.
   */
  lemma ParallelPassIff(c: Setup, ss: seq<State>, steps: seq<Step>, i: nat)
    requires c.Valid() && UniqueNames(c.sessions) && IsRun(c, ss, steps) && i < |ss| && Complete(c, ss[i])
    ensures HaveResults(c, ss[i], ss[i].collected)
    ensures CodesMatch(c.sessions, steps, i, ParallelResults(c, ss[i]))
    ensures AllZero(ParallelResults(c, ss[i])) <==>
      forall w | 0 <= w < |c.sessions| :: EndsWith(steps, i, w, Ran(0))
  {
    ParallelCodes(c, ss, steps, i);
    hide *;
    ZeroCodes(c.sessions, steps, i, ParallelResults(c, ss[i]));
  }
}

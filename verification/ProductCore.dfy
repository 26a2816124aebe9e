/** `sendCommand`: from the caller's expectations to the reported status. */
module ProductCore {
  import opened Options
  import opened Text
  import opened Regex
  import opened CommandPattern
  import opened DeviceReading

  // ---------- recognising the not-found reply ----------

  /** `_match_not_found` on the text of a match, which `bytes.strip` takes the blanks from. */
  predicate MatchNotFound(matched: string, noCmd: string) {
    Contains(Strip(IsByteSpace, matched), noCmd)
  }

  /** The device's not-found text is not blank and does not end in a blank. */
  predicate UsableNoCmd(noCmd: string) {
    noCmd != "" && !IsByteSpace(noCmd[|noCmd| - 1])
  }

  /** The texts of the NuttX and the Linux device. */
  lemma ShippedNoCmdsAreUsable()
    ensures UsableNoCmd("command not found") && UsableNoCmd("not found")
    ensures NoMargin(IsByteSpace, "command not found") && NoMargin(IsByteSpace, "not found")
  {
  }

  /** The word occurs at `i`, neither reaching into the blanks that open the text nor into those that close it. */
  ghost predicate InsideAt(word: string, text: string, i: nat) {
    && OccursAt(word, text, i)
    && (exists a | 0 <= a <= i && a < |text| :: !IsByteSpace(text[a]))
    && (exists b | 0 <= b < |text| && i + |word| <= b + 1 :: !IsByteSpace(text[b]))
  }

  ghost predicate OccursInside(word: string, text: string) {
    word == "" || exists i: nat :: InsideAt(word, text, i)
  }

  lemma OccursShifted(word: string, left: string, inner: string, right: string, i: nat)
    requires i + |word| <= |inner|
    ensures OccursAt(word, inner, i) <==> OccursAt(word, left + inner + right, |left| + i)
  {
    assert (left + inner + right)[|left| + i..|left| + i + |word|] == inner[i..i + |word|];
  }

  lemma InsideIsWithin(word: string, left: string, inner: string, right: string, i: nat)
    requires AllBlank(IsByteSpace, left) && AllBlank(IsByteSpace, right)
    requires InsideAt(word, left + inner + right, i)
    ensures |left| <= i && i + |word| <= |left| + |inner|
  {
    var text := left + inner + right;
    var a :| 0 <= a <= i && a < |text| && !IsByteSpace(text[a]);
    var b :| 0 <= b < |text| && i + |word| <= b + 1 && !IsByteSpace(text[b]);
    assert forall k | 0 <= k < |left| :: text[k] == left[k];
    assert forall k | |left| + |inner| <= k < |text| :: text[k] == right[k - |left| - |inner|];
  }

  /** A match is taken for a not-found reply iff the device's text occurs inside it. */
  lemma MatchNotFoundIff(matched: string, noCmd: string)
    ensures MatchNotFound(matched, noCmd) <==> OccursInside(noCmd, matched)
  {
    var left, right := StripMargins(IsByteSpace, matched);
    var inner := Strip(IsByteSpace, matched);
    assert OccursAt("", inner, 0);
    assert forall i | OccursAt(noCmd, inner, i) :: i + |noCmd| <= |inner|;
    hide Strip, IsByteSpace, OccursAt;
    if noCmd == "" {
      assert OccursAt("", inner, 0);
    } else if MatchNotFound(matched, noCmd) {
      var i :| 0 <= i <= |inner| && OccursAt(noCmd, inner, i);
      OccursShifted(noCmd, left, inner, right, i);
      assert matched[|left|] == inner[0] && matched[|left| + |inner| - 1] == inner[|inner| - 1];
      assert InsideAt(noCmd, matched, |left| + i);
    } else if OccursInside(noCmd, matched) {
      var i: nat :| InsideAt(noCmd, matched, i);
      InsideIsWithin(noCmd, left, inner, right, i);
      OccursShifted(noCmd, left, inner, right, i - |left|);
    }
  }

  /** For a text without blanks at its ends it is enough that it occurs. */
  lemma InsideIffContained(word: string, text: string)
    requires NoMargin(IsByteSpace, word)
    ensures OccursInside(word, text) <==> Contains(text, word)
  {
    if word == "" {
      assert OccursAt("", text, 0);
    } else {
      forall i: nat | OccursAt(word, text, i) ensures InsideAt(word, text, i) {
        assert text[i] == text[i..i + |word|][0] && text[i + |word| - 1] == text[i..i + |word|][|word| - 1];
      }
    }
  }

  /** The compiled not-found text is recognised, and the empty match is not. */
  lemma NotFoundIsRecognised(cmd: string, noCmd: string)
    requires UsableNoCmd(noCmd)
    ensures MatchNotFound(NotFoundText(cmd, noCmd), noCmd) && !MatchNotFound("", noCmd)
  {
    var nf, k := NotFoundText(cmd, noCmd), |FirstWord(cmd)|;
    MatchNotFoundIff(nf, noCmd);
    MatchNotFoundIff("", noCmd);
    assert nf[k] == ':' && nf[|nf| - 1] == noCmd[|noCmd| - 1];
    assert nf[k + 2..k + 2 + |noCmd|] == noCmd;
    assert InsideAt(noCmd, nf, k + 2);
  }

  // ---------- sendCommand ----------

  function Joined(args: seq<string>): string {
    if args == [] then ""
    else if |args| == 1 then args[0]
    else args[0] + " " + Joined(args[1..])
  }

  /** None is the ValueError for an empty command. */
  function PrepareCommand(cmd: string, args: seq<string>): Option<string> {
    if cmd == "" then None
    else Some(if args == [] then cmd else cmd + " " + Joined(args))
  }

  /** `text.split(' ')`. */
  function Words(text: string): seq<string> {
    var word := FirstWord(text);
    if word == text then [word] else [word] + Words(text[|word| + 1..])
  }

  lemma FirstOfWords(word: string, rest: string)
    requires ' ' !in word
    ensures FirstWord(word) == word && FirstWord(word + " " + rest) == word
    ensures Words(word) == [word] && Words(word + " " + rest) == [word] + Words(rest)
  {
    var text := word + " " + rest;
    var first := FirstWord(text);
    assert text[|word|] == ' ';
    assert forall k | 0 <= k < |word| :: text[k] == word[k];
    assert forall k | 0 <= k < |first| :: text[k] == first[k];
    assert text[..|word|] == word && text[|word| + 1..] == rest;
  }

  lemma {:induction false} WordsOfJoined(args: seq<string>)
    requires args != [] && forall k | 0 <= k < |args| :: ' ' !in args[k]
    ensures Words(Joined(args)) == args
  {
    if |args| == 1 {
      FirstOfWords(args[0], "");
    } else {
      WordsOfJoined(args[1..]);
      FirstOfWords(args[0], Joined(args[1..]));
    }
  }

  /** The prepared line is the command and its arguments in order; a not-found reply names the command only. */
  lemma PreparedWords(cmd: string, args: seq<string>, noCmd: string)
    requires cmd != "" && ' ' !in cmd && forall k | 0 <= k < |args| :: ' ' !in args[k]
    ensures PrepareCommand(cmd, args).Some? && Words(PrepareCommand(cmd, args).value) == [cmd] + args
    ensures NotFoundText(PrepareCommand(cmd, args).value, noCmd) == cmd + ": " + noCmd
  {
    FirstOfWords(cmd, Joined(args));
    if args != [] {
      WordsOfJoined(args);
    }
  }

  function StatusOf(ret: CmdReturn, noCmd: string): CmdStatus
    requires ret.rematch.Some? ==> ret.rematch.value.start <= ret.rematch.value.end <= |ret.output|
  {
    if ret.status.Success? && ret.rematch.Some? && MatchNotFound(Group(ret.output, ret.rematch.value), noCmd)
    then NotFound else ret.status
  }

  /**
   * What the status says about the last window of a match_all command: SUCCESS means every
   * expected string is there, NOTFOUND means one is missing and the not-found text is there.
   */
  ghost predicate MatchAllStatus(
    status: CmdStatus, window: string, cmd: string, expects: seq<string>, failures: seq<string>, noCmd: string)
  {
    if failures != [] && ContainsSome(window, failures) then status.Failed?
    else if ContainsAll(window, expects) then status.Success?
    else if Contains(window, NotFoundText(cmd, noCmd)) then status.NotFound?
    else status.Timeout?
  }

  /** For match-any the leftmost alternative in the window decides, the earliest in the list on a tie. */
  ghost predicate MatchAnyStatus(
    status: CmdStatus, window: string, cmd: string, expects: seq<string>, failures: seq<string>, noCmd: string)
  {
    var words := Alternatives(cmd, expects, noCmd);
    if failures != [] && ContainsSome(window, failures) then status.Failed?
    else if ContainsSome(window, words) then
      exists i: nat, k: nat :: LeftmostFirst(words, window, i, k)
        && status == if OccursInside(noCmd, words[k]) then NotFound else Success
    else status.Timeout?
  }

  function FailPatternOf(failures: seq<string>): Option<Re> {
    if failures == [] then None else Some(BuildFailPattern(failures))
  }

  lemma FailHitIff(failures: seq<string>, window: string)
    ensures FailHit(FailPatternOf(failures), window) <==> failures != [] && ContainsSome(window, failures)
  {
    if failures != [] {
      FailPatternAccepts(failures, window);
    }
  }

  lemma MatchAllVerdict(cmd: string, expects: seq<string>, failures: seq<string>, noCmd: string, window: string)
    requires UsableNoCmd(noCmd)
    ensures var ret := Verdict(PreparePattern(cmd, expects, true, noCmd), FailPatternOf(failures), window);
      MatchAllStatus(StatusOf(ret, noCmd), window, cmd, expects, failures, noCmd)
  {
    FailHitIff(failures, window);
    MatchAllSpan(cmd, expects, noCmd, window);
    NotFoundIsRecognised(cmd, noCmd);
    assert Group(window, Span(0, 0)) == "";
  }

  lemma MatchAnyVerdict(cmd: string, expects: seq<string>, failures: seq<string>, noCmd: string, window: string)
    requires expects != []
    ensures var ret := Verdict(PreparePattern(cmd, expects, false, noCmd), FailPatternOf(failures), window);
      MatchAnyStatus(StatusOf(ret, noCmd), window, cmd, expects, failures, noCmd)
  {
    FailHitIff(failures, window);
    MatchAnySpan(cmd, expects, noCmd, window);
    var words := Alternatives(cmd, expects, noCmd);
    var r := Search(PreparePattern(cmd, expects, false, noCmd), window);
    if r.Some? {
      var k: nat :| LeftmostFirst(words, window, r.value.start, k) && Group(window, r.value) == words[k];
      assert Contains(window, words[k]);
      MatchNotFoundIff(words[k], noCmd);
    } else {
      forall m | 0 <= m < |words| ensures !Contains(window, words[m]) {
        assert forall j | 0 <= j <= |window| :: NoneAt(words, window, j) ==> !OccursAt(words[m], window, j);
      }
    }
  }

  /**
   * `sendCommand` with literal expectations. None stands for the ValueError of an empty
   * command; otherwise `n` is the round that ended the read and `m` the calls of its flood phase.
   */
  method SendCommand(
    dev: DeviceCommon, noCmd: string, cmd: string, args: seq<string>, expects: seq<string>,
    matchAll: bool, failures: seq<string>, flush: Call, first: Call, rounds: seq<Round>, endTime: real,
    floods: seq<FloodRead>, floodEnd: real, clean: string -> string, doneAt: real)
    returns (status: Option<CmdStatus>, n: nat, m: nat)
    requires dev.Valid() && expects != [] && UsableNoCmd(noCmd)
    requires |rounds| > 0 && rounds[|rounds| - 1].now > endTime
    requires |floods| > 0 && floods[|floods| - 1].now >= floodEnd
    modifies dev`outputTail, dev`log, dev.stateMgr`currentState, dev.stateMgr`crashType, dev.stateMgr`lastActivityTime,
      dev.stateMgr.heartbeat`failures, dev.stateMgr.heartbeat`inCommand
    ensures dev.Valid() && n <= |rounds| && m <= |floods|
    ensures status.None? <==> cmd == ""
    ensures cmd == "" ==> dev.State() == old(dev.State()) && dev.log == old(dev.log)
    ensures cmd != "" ==>
      var full := PrepareCommand(cmd, args).value;
      var pattern, failPattern := PreparePattern(full, expects, matchAll, noCmd), FailPatternOf(failures);
      var d := Prepared(dev.Watched(), old(dev.State()), flush, first);
      var initial := Response(dev.Watched(), clean, old(dev.State()), flush, first);
      var seen := Observed(dev.Watched(), clean, d, rounds);
      && StopsFirstAt(initial, pattern, failPattern, seen, endTime, n)
      && (if matchAll
          then MatchAllStatus(status.value, Window(initial, seen, n), full, expects, failures, noCmd)
          else MatchAnyStatus(status.value, Window(initial, seen, n), full, expects, failures, noCmd))
      && (if status.value.Timeout?
          then FloodStopsAt(SeenAfter(dev.Watched(), clean, d, rounds, n, floods), floodEnd, m) else m == 0)
      && dev.log == old(dev.log) + Preliminary(dev.Watched(), old(dev.State()), flush, first)
           + RawOfCalls(dev.Watched(), d, CallsMade(rounds, n, floods, m))
      && dev.stateMgr.lastActivityTime == Some(doneAt) && dev.stateMgr.heartbeat.failures == 0
      && !dev.stateMgr.heartbeat.inCommand
      && dev.stateMgr.View() == FinalState(dev.Watched(), clean, d, rounds, n, floods, m, floodEnd, status.value).health
  {
    hide AfterCall, Raw, AfterCalls, RawOfCalls, CallsMade, Observed, FloodObserved, StopsFirstAt, FloodStopsAt;
    hide Floods, Window, Search, PreparePattern, MatchAllStatus, MatchAnyStatus, FailPatternOf, MatchNotFound;
    var prepared := PrepareCommand(cmd, args);
    if prepared.None? { return None, 0, 0; }
    var full := prepared.value;
    var pattern := PreparePattern(full, expects, matchAll, noCmd);
    ghost var d0 := dev.State();
    ghost var initial := Response(dev.Watched(), clean, d0, flush, first);
    ghost var seen := Observed(dev.Watched(), clean, Prepared(dev.Watched(), d0, flush, first), rounds);
    var ret: CmdReturn;
    ret, n, m := dev.SendCmdReadUntilPattern(
      flush, first, pattern, FailPatternOf(failures), rounds, endTime, floods, floodEnd, clean, doneAt);
    if matchAll {
      MatchAllVerdict(full, expects, failures, noCmd, Window(initial, seen, n));
    } else {
      MatchAnyVerdict(full, expects, failures, noCmd, Window(initial, seen, n));
    }
    if ret.status.Success? && ret.rematch.Some? && MatchNotFound(Group(ret.output, ret.rematch.value), noCmd) {
      return Some(NotFound), n, m;
    }
    status := Some(ret.status);
  }

  lemma LeftmostIsUnique(words: seq<string>, window: string, i: nat, k: nat, i': nat, k': nat)
    requires LeftmostFirst(words, window, i, k) && LeftmostFirst(words, window, i', k')
    ensures i == i' && k == k'
  {
    assert !NoneAt(words, window, i) && !NoneAt(words, window, i');
    assert forall m | 0 <= m < k :: words[..k][m] == words[m];
    assert forall m | 0 <= m < k' :: words[..k'][m] == words[m];
  }

  /**
   * With a not-found text that has no blanks at its ends, match-any reports SUCCESS iff the
   * leftmost alternative does not contain it, and NOTFOUND iff it does.
   */
  lemma MatchAnyDecides(
    status: CmdStatus, window: string, cmd: string, expects: seq<string>, failures: seq<string>, noCmd: string,
    i: nat, k: nat)
    requires NoMargin(IsByteSpace, noCmd) && !(failures != [] && ContainsSome(window, failures))
    requires MatchAnyStatus(status, window, cmd, expects, failures, noCmd)
    requires LeftmostFirst(Alternatives(cmd, expects, noCmd), window, i, k)
    ensures status == if Contains(Alternatives(cmd, expects, noCmd)[k], noCmd) then NotFound else Success
  {
    var words := Alternatives(cmd, expects, noCmd);
    assert Contains(window, words[k]);
    var i': nat, k': nat :| LeftmostFirst(words, window, i', k')
      && status == if OccursInside(noCmd, words[k']) then NotFound else Success;
    LeftmostIsUnique(words, window, i, k, i', k');
    InsideIffContained(noCmd, words[k]);
  }

  /** A prompt that is waited for is a success, whatever command was sent: so cores are switched. */
  lemma PromptIsSuccess(status: CmdStatus, cmd: string)
    requires MatchAnyStatus(status, "nsh> ", cmd, ["nsh> "], [], "command not found")
    ensures status.Success?
  {
    var words := Alternatives(cmd, ["nsh> "], "command not found");
    assert OccursAt(words[0], "nsh> ", 0);
    ShippedNoCmdsAreUsable();
    MatchAnyDecides(status, "nsh> ", cmd, ["nsh> "], [], "command not found", 0, 0);
  }

  /** The not-found text comes strictly before every expected string. */
  ghost predicate NotFoundFirst(window: string, nf: string, expects: seq<string>) {
    exists i: nat :: OccursAt(nf, window, i) && forall j | 0 <= j <= i :: NoneAt(expects, window, j)
  }

  /**
   * When no expected string itself reads like a not-found reply, match-any reports NOTFOUND iff
   * the not-found text comes before every expected string, and SUCCESS for any other match.
   */
  lemma MatchAnyByPosition(
    status: CmdStatus, window: string, cmd: string, expects: seq<string>, noCmd: string)
    requires UsableNoCmd(noCmd) && forall k | 0 <= k < |expects| :: !OccursInside(noCmd, expects[k])
    requires MatchAnyStatus(status, window, cmd, expects, [], noCmd)
    ensures status.NotFound? <==> NotFoundFirst(window, NotFoundText(cmd, noCmd), expects)
    ensures status.Success? ==> ContainsSome(window, expects)
  {
    var nf, words := NotFoundText(cmd, noCmd), Alternatives(cmd, expects, noCmd);
    NotFoundIsRecognised(cmd, noCmd);
    MatchNotFoundIff(nf, noCmd);
    if ContainsSome(window, words) {
      var i: nat, k: nat :| LeftmostFirst(words, window, i, k)
        && status == if OccursInside(noCmd, words[k]) then NotFound else Success;
      ByPosition(window, nf, expects, i, k);
    } else {
      assert words[|expects|] == nf;
      assert !Contains(window, nf);
    }
  }

  lemma ByPosition(window: string, nf: string, expects: seq<string>, i: nat, k: nat)
    requires LeftmostFirst(expects + [nf], window, i, k)
    ensures k == |expects| <==> NotFoundFirst(window, nf, expects)
    ensures k < |expects| ==> ContainsSome(window, expects)
  {
    var words := expects + [nf];
    forall j: nat | NoneAt(words, window, j) ensures NoneAt(expects, window, j) && !OccursAt(nf, window, j) {
      assert forall m | 0 <= m < |expects| :: words[m] == expects[m];
      assert words[|expects|] == nf;
    }
    if k == |expects| {
      assert words[..k] == expects;
      assert forall j | 0 <= j <= i :: NoneAt(expects, window, j);
    } else {
      assert OccursAt(expects[k], window, i);
      assert Contains(window, expects[k]);
      forall p: nat | OccursAt(nf, window, p) ensures !(forall j | 0 <= j <= p :: NoneAt(expects, window, j)) {
        assert p >= i;
        assert !NoneAt(expects, window, i);
      }
    }
  }

  /** Every expected string that reads like a not-found reply is pre-empted by an earlier prefix of it. */
  ghost predicate Distinguishable(expects: seq<string>, noCmd: string) {
    forall k | 0 <= k < |expects| && OccursInside(noCmd, expects[k]) ::
      exists j | 0 <= j < k :: StartsWith(expects[k], expects[j])
  }

  /** NOTFOUND is only reported when the not-found text comes before every expected string. */
  ghost predicate NotFoundIsTrue(cmd: string, expects: seq<string>, noCmd: string) {
    forall window, status |
      MatchAnyStatus(status, window, cmd, expects, [], noCmd) && status.NotFound? ::
      NotFoundFirst(window, NotFoundText(cmd, noCmd), expects)
  }

  lemma PrefixOccurs(word: string, longer: string, text: string, i: nat)
    requires StartsWith(longer, word) && OccursAt(longer, text, i)
    ensures OccursAt(word, text, i)
  {
    assert text[i..i + |word|] == text[i..i + |longer|][..|word|];
  }

  lemma EarlierIsNoPrefix(words: seq<string>, text: string, i: nat, k: nat, j: nat)
    requires j < k && LeftmostFirst(words, text, i, k)
    ensures !StartsWith(words[k], words[j])
  {
    assert words[..k][j] == words[j];
    if StartsWith(words[k], words[j]) {
      PrefixOccurs(words[j], words[k], text, i);
    }
  }

  lemma DistinguishableIsTrue(
    status: CmdStatus, window: string, cmd: string, expects: seq<string>, noCmd: string)
    requires Distinguishable(expects, noCmd)
    requires MatchAnyStatus(status, window, cmd, expects, [], noCmd) && status.NotFound?
    ensures NotFoundFirst(window, NotFoundText(cmd, noCmd), expects)
  {
    var words := Alternatives(cmd, expects, noCmd);
    var i: nat, k: nat :| LeftmostFirst(words, window, i, k)
      && status == if OccursInside(noCmd, words[k]) then NotFound else Success;
    forall j | 0 <= j < k < |expects| ensures !StartsWith(expects[k], expects[j]) {
      EarlierIsNoPrefix(words, window, i, k, j);
    }
    ByPosition(window, NotFoundText(cmd, noCmd), expects, i, k);
  }

  /** A window in which an expected string, and nothing else, is reported as NOTFOUND. */
  lemma ExpectedIsMisread(cmd: string, expects: seq<string>, noCmd: string, k: nat)
    requires k < |expects| && OccursInside(noCmd, expects[k])
    requires forall j | 0 <= j < k :: !StartsWith(expects[k], expects[j])
    ensures MatchAnyStatus(NotFound, expects[k], cmd, expects, [], noCmd)
    ensures !NotFoundFirst(expects[k], NotFoundText(cmd, noCmd), expects)
  {
    var window, words := expects[k], Alternatives(cmd, expects, noCmd);
    assert OccursAt(words[k], window, 0) && Contains(window, words[k]);
    forall j | 0 <= j < k ensures !OccursAt(words[..k][j], window, 0) {
      assert words[..k][j] == expects[j];
    }
    assert LeftmostFirst(words, window, 0, k);
    assert OccursAt(expects[k], window, 0) && !NoneAt(expects, window, 0);
  }

  /** match-any can be trusted with its NOTFOUND iff the expected strings can be told from a not-found reply. */
  lemma NotFoundIsTrueIff(cmd: string, expects: seq<string>, noCmd: string)
    ensures NotFoundIsTrue(cmd, expects, noCmd) <==> Distinguishable(expects, noCmd)
  {
    if Distinguishable(expects, noCmd) {
      forall window, status | MatchAnyStatus(status, window, cmd, expects, [], noCmd) && status.NotFound?
        ensures NotFoundFirst(window, NotFoundText(cmd, noCmd), expects)
      {
        DistinguishableIsTrue(status, window, cmd, expects, noCmd);
      }
    } else {
      var k :| 0 <= k < |expects| && OccursInside(noCmd, expects[k])
        && forall j | 0 <= j < k :: !StartsWith(expects[k], expects[j]);
      ExpectedIsMisread(cmd, expects, noCmd, k);
    }
  }

  lemma ExpectedHasNoReply()
    ensures !Contains("app: not found", NotFoundText("ls", "not found"))
  {
    var text, nf := "app: not found", NotFoundText("ls", "not found");
    assert nf == "ls: not found" by {
      assert FirstWord("s") == "s" && FirstWord("ls") == "ls";
    }
    forall i | 0 <= i <= |text| ensures !OccursAt(nf, text, i) {
      if i == 0 {
        assert text[0..13][0] == 'a';
      } else if i == 1 {
        assert text[1..14][0] == 'p';
      }
    }
  }

  /** A reply that was expected, reported as NOTFOUND. */
  lemma ExpectedReplyReportedNotFound()
    ensures MatchAnyStatus(NotFound, "app: not found", "ls", ["app: not found"], [], "not found")
    ensures ContainsSome("app: not found", ["app: not found"])
    ensures !Contains("app: not found", NotFoundText("ls", "not found"))
  {
    var text := "app: not found";
    var words := Alternatives("ls", [text], "not found");
    assert OccursAt("not found", text, 5) && Contains(text, "not found");
    InsideIffContained("not found", text);
    ExpectedHasNoReply();
    hide OccursInside, NotFoundText;
    assert OccursAt(text, text, 0) && words[0] == text;
    assert Contains(text, words[0]);
    assert LeftmostFirst(words, text, 0, 0);
  }
}

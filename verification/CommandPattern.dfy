/**
 * The regular expressions the command builder emits, with the semantics of Python's
 * backtracking `re.search` under DOTALL and without MULTILINE.
 */
module Regex {
  import opened Options
  import opened Text

  datatype Re =
    | Empty
    | Lit(word: string)          // an escaped literal
    | AnyStar                    // .*
    | Start                      // ^
    | Look(ahead: Re)            // (?=..)
    | Cat(first: Re, second: Re)
    | Alt(left: Re, right: Re)   // ordered alternation

  datatype Span = Span(start: nat, end: nat)

  /** All of `ends` lie between `lo` and `hi`. */
  ghost predicate Within(ends: seq<nat>, lo: nat, hi: nat) {
    forall k | 0 <= k < |ends| :: lo <= ends[k] <= hi
  }

  function Down(hi: nat, lo: nat): (r: seq<nat>)
    requires lo <= hi
    ensures Within(r, lo, hi) && forall j: nat :: j in r <==> lo <= j <= hi
    decreases hi - lo
  {
    if hi == lo then [hi] else [hi] + Down(hi - 1, lo)
  }

  /** `.*` is greedy: it tries the end of the text first and then gives back one character at a time. */
  lemma {:induction false} DownIsGreedy(hi: nat, lo: nat)
    requires lo <= hi
    ensures |Down(hi, lo)| == hi - lo + 1 && forall k | 0 <= k <= hi - lo :: Down(hi, lo)[k] == hi - k
    decreases hi - lo
  {
    if hi > lo {
      DownIsGreedy(hi - 1, lo);
    }
  }

  /** The ends of all matches of `re` starting at `i`, in the order backtracking tries them. */
  function Ends(re: Re, text: string, i: nat): (r: seq<nat>)
    requires i <= |text|
    ensures Within(r, i, |text|)
    decreases re, 0
  {
    match re
    case Empty => [i]
    case Lit(word) => if OccursAt(word, text, i) then [i + |word|] else []
    case AnyStar => Down(|text|, i)
    case Start => if i == 0 then [i] else []
    case Look(ahead) => if Ends(ahead, text, i) != [] then [i] else []
    case Cat(first, second) => EndsFromAll(second, text, Ends(first, text, i), i)
    case Alt(left, right) => Ends(left, text, i) + Ends(right, text, i)
  }

  function EndsFromAll(re: Re, text: string, starts: seq<nat>, lo: nat): (r: seq<nat>)
    requires lo <= |text| && Within(starts, lo, |text|)
    ensures Within(r, lo, |text|)
    decreases re, 1, |starts|
  {
    if starts == [] then [] else Ends(re, text, starts[0]) + EndsFromAll(re, text, starts[1..], lo)
  }

  /** `re.search`: the leftmost start that matches, with the first match found there. */
  function SearchFrom(re: Re, text: string, i: nat): (r: Option<Span>)
    requires i <= |text|
    ensures r.Some? ==> i <= r.value.start <= r.value.end <= |text|
    decreases |text| - i
  {
    var ends := Ends(re, text, i);
    if ends != [] then
      Some(Span(i, ends[0]))
    else if i < |text| then SearchFrom(re, text, i + 1)
    else None
  }

  function Search(re: Re, text: string): (r: Option<Span>)
    ensures r.Some? ==> r.value.start <= r.value.end <= |text|
  {
    SearchFrom(re, text, 0)
  }

  /** `match.group()`. */
  function Group(text: string, span: Span): string
    requires span.start <= span.end <= |text|
  {
    text[span.start..span.end]
  }

  predicate MatchesAt(re: Re, text: string, i: nat) {
    i <= |text| && Ends(re, text, i) != []
  }

  ghost predicate NoMatchIn(re: Re, text: string, lo: nat, hi: nat) {
    forall j: nat | lo <= j < hi :: !MatchesAt(re, text, j)
  }

  lemma SearchFromStep(re: Re, text: string, i: nat)
    requires i <= |text|
    ensures SearchFrom(re, text, i) ==
      if Ends(re, text, i) != [] then Some(Span(i, Ends(re, text, i)[0]))
      else if i < |text| then SearchFrom(re, text, i + 1) else None
  {
    hide Ends;
  }

  /** The search finds the leftmost matching start, and finds nothing only if there is none. */
  lemma {:induction false} SearchIsLeftmost(re: Re, text: string, i: nat)
    requires i <= |text|
    ensures var r := SearchFrom(re, text, i);
      if r.Some? then
        && MatchesAt(re, text, r.value.start) && NoMatchIn(re, text, i, r.value.start)
        && r.value.end == Ends(re, text, r.value.start)[0]
      else NoMatchIn(re, text, i, |text| + 1)
    decreases |text| - i
  {
    var r := SearchFrom(re, text, i);
    SearchFromStep(re, text, i);
    assert MatchesAt(re, text, i) <==> Ends(re, text, i) != [];
    hide *;
    var hi := if r.Some? then r.value.start else |text| + 1;
    if MatchesAt(re, text, i) {
      NoMatchInNothing(re, text, i);
    } else {
      if i < |text| {
        SearchIsLeftmost(re, text, i + 1);
      } else {
        NoMatchInNothing(re, text, i + 1);
      }
      NoMatchOneMore(re, text, i, hi);
    }
  }

  lemma NoMatchInNothing(re: Re, text: string, i: nat)
    ensures NoMatchIn(re, text, i, i)
  {
  }

  lemma NoMatchOneMore(re: Re, text: string, lo: nat, hi: nat)
    requires !MatchesAt(re, text, lo) && NoMatchIn(re, text, lo + 1, hi)
    ensures NoMatchIn(re, text, lo, hi)
  {
    hide MatchesAt;
  }

  /** Two patterns with the same possible ends everywhere are found alike. */
  lemma {:induction false} SameEndsSameSearch(a: Re, b: Re, text: string, i: nat)
    requires i <= |text|
    requires forall j: nat | i <= j <= |text| :: Ends(a, text, j) == Ends(b, text, j)
    ensures SearchFrom(a, text, i) == SearchFrom(b, text, i)
    decreases |text| - i
  {
    SearchFromStep(a, text, i);
    SearchFromStep(b, text, i);
    hide Ends, SearchFrom;
    if i < |text| {
      SameEndsSameSearch(a, b, text, i + 1);
    }
  }

  lemma {:induction false} SomeStartMatches(re: Re, text: string, starts: seq<nat>, lo: nat)
    requires lo <= |text| && Within(starts, lo, |text|)
    ensures EndsFromAll(re, text, starts, lo) != [] <==> exists s | s in starts :: MatchesAt(re, text, s)
  {
    if starts != [] {
      SomeStartMatches(re, text, starts[1..], lo);
      assert forall s | s in starts :: s == starts[0] || s in starts[1..];
      assert MatchesAt(re, text, starts[0]) <==> Ends(re, text, starts[0]) != [];
      assert starts[0] in starts;
    }
  }

  lemma EndsFromOne(re: Re, text: string, i: nat)
    requires i <= |text|
    ensures EndsFromAll(re, text, [i], i) == Ends(re, text, i)
  {
    assert EndsFromAll(re, text, [], i) == [];
  }
}

/** The pattern compiler of `CommandBuilder` for literal expectations. */
module CommandPattern {
  import opened Options
  import opened Text
  import opened Regex

  // ---------- compilation ----------

  function Lookaheads(expects: seq<string>): Re {
    if expects == [] then Empty
    else Cat(Look(Cat(AnyStar, Lit(expects[0]))), Lookaheads(expects[1..]))
  }

  /** `'|'.join(items)`; the join of no items is the empty pattern. */
  function AnyOf(items: seq<string>): Re {
    if items == [] then Empty
    else if |items| == 1 then Lit(items[0])
    else Alt(Lit(items[0]), AnyOf(items[1..]))
  }

  function BuildExpectPattern(expects: seq<string>, matchAll: bool): Re {
    if matchAll then Cat(Start, Lookaheads(expects)) else AnyOf(expects)
  }

  /** `cmd.split(' ')[0]`. */
  function FirstWord(cmd: string): (r: string)
    ensures ' ' !in r && (r == cmd || (|r| < |cmd| && cmd[..|r|] == r && cmd[|r|] == ' '))
  {
    if cmd == "" || cmd[0] == ' ' then ""
    else [cmd[0]] + FirstWord(cmd[1..])
  }

  function NotFoundText(cmd: string, noCmd: string): string {
    FirstWord(cmd) + ": " + noCmd
  }

  function PreparePattern(cmd: string, expects: seq<string>, matchAll: bool, noCmd: string): Re {
    Alt(BuildExpectPattern(expects, matchAll), Lit(NotFoundText(cmd, noCmd)))
  }

  /** The match_all form without the anchor, as the code's comment describes it. */
  function UnanchoredPattern(cmd: string, expects: seq<string>, noCmd: string): Re {
    Alt(Lookaheads(expects), Lit(NotFoundText(cmd, noCmd)))
  }

  /** `_build_fail_pattern_bytes` for literals. */
  function BuildFailPattern(failures: seq<string>): Re {
    AnyOf(failures)
  }

  // ---------- what the parts match ----------

  predicate ContainsFrom(text: string, word: string, i: nat) {
    exists j | i <= j <= |text| :: OccursAt(word, text, j)
  }

  predicate ContainsAll(text: string, words: seq<string>) {
    forall k | 0 <= k < |words| :: Contains(text, words[k])
  }

  predicate ContainsSome(text: string, words: seq<string>) {
    exists k | 0 <= k < |words| :: Contains(text, words[k])
  }

  lemma LookaheadFinds(word: string, text: string, i: nat)
    requires i <= |text|
    ensures Ends(Look(Cat(AnyStar, Lit(word))), text, i) == if ContainsFrom(text, word, i) then [i] else []
  {
    var starts := Ends(AnyStar, text, i);
    SomeStartMatches(Lit(word), text, starts, i);
    assert forall j: nat :: j in starts <==> i <= j <= |text|;
    assert forall j: nat :: MatchesAt(Lit(word), text, j) <==> OccursAt(word, text, j);
  }

  /** All the lookaheads match, without consuming, where every word lies ahead. */
  lemma {:induction false} LookaheadsFind(words: seq<string>, text: string, i: nat)
    requires i <= |text|
    ensures Ends(Lookaheads(words), text, i)
         == if forall k | 0 <= k < |words| :: ContainsFrom(text, words[k], i) then [i] else []
  {
    if words != [] {
      LookaheadFinds(words[0], text, i);
      LookaheadsFind(words[1..], text, i);
      EndsFromOne(Lookaheads(words[1..]), text, i);
      if ContainsFrom(text, words[0], i) {
        assert forall k | 0 < k < |words| :: words[k] == words[1..][k - 1];
        assert forall k | 0 <= k < |words| - 1 :: words[1..][k] == words[k + 1];
      } else {
        assert EndsFromAll(Lookaheads(words[1..]), text, [], i) == [];
      }
    }
  }

  /** The first word, in list order, that occurs at `i`. */
  function FirstAt(words: seq<string>, text: string, i: nat): (r: Option<nat>)
    ensures r.Some? ==> r.value < |words| && OccursAt(words[r.value], text, i)
    ensures r.Some? ==> forall k | 0 <= k < r.value :: !OccursAt(words[k], text, i)
    ensures r.None? ==> forall k | 0 <= k < |words| :: !OccursAt(words[k], text, i)
  {
    if words == [] then None
    else if OccursAt(words[0], text, i) then Some(0)
    else
      var rest := FirstAt(words[1..], text, i);
      if rest.None? then
        assert forall k | 0 < k < |words| :: words[k] == words[1..][k - 1];
        None
      else
        assert forall k | 0 < k < rest.value + 1 :: words[k] == words[1..][k - 1];
        Some(rest.value + 1)
  }

  /** An ordered alternation of literals matches the first word that occurs. */
  lemma {:induction false} AnyOfPicksFirst(words: seq<string>, text: string, i: nat)
    requires words != [] && i <= |text|
    ensures var ends := Ends(AnyOf(words), text, i);
      var first := FirstAt(words, text, i);
      if first.None? then ends == [] else ends != [] && ends[0] == i + |words[first.value]|
  {
    if |words| > 1 {
      AnyOfPicksFirst(words[1..], text, i);
      var rest := FirstAt(words[1..], text, i);
      if !OccursAt(words[0], text, i) && rest.Some? {
        assert words[rest.value + 1] == words[1..][rest.value];
      }
    }
  }

  // ---------- what the compiled patterns accept ----------

  lemma FromTheStart(text: string, word: string)
    ensures ContainsFrom(text, word, 0) <==> Contains(text, word)
  {
  }

  lemma LookaheadsFromStart(expects: seq<string>, text: string)
    ensures Ends(Lookaheads(expects), text, 0) == if ContainsAll(text, expects) then [0] else []
  {
    LookaheadsFind(expects, text, 0);
    forall k | 0 <= k < |expects| ensures ContainsFrom(text, expects[k], 0) <==> Contains(text, expects[k]) {
      FromTheStart(text, expects[k]);
    }
  }

  lemma AnchoredEnds(expects: seq<string>, text: string, j: nat)
    requires j <= |text|
    ensures Ends(Cat(Start, Lookaheads(expects)), text, j)
         == if j == 0 && ContainsAll(text, expects) then [0] else []
  {
    var ahead := Lookaheads(expects);
    assert Ends(Start, text, j) == if j == 0 then [0] else [];
    assert Ends(Cat(Start, ahead), text, j) == EndsFromAll(ahead, text, Ends(Start, text, j), j);
    LookaheadsFromStart(expects, text);
    EndsFromOne(ahead, text, 0);
    assert EndsFromAll(ahead, text, [], j) == [];
  }

  lemma MatchAllAt(cmd: string, expects: seq<string>, noCmd: string, text: string, j: nat)
    requires j <= |text|
    ensures Ends(PreparePattern(cmd, expects, true, noCmd), text, j)
         == (if j == 0 && ContainsAll(text, expects) then [0] else []) + Ends(Lit(NotFoundText(cmd, noCmd)), text, j)
  {
    AnchoredEnds(expects, text, j);
  }

  lemma LiteralSearch(word: string, text: string)
    ensures var r := Search(Lit(word), text);
      if Contains(text, word) then r.Some? && Group(text, r.value) == word else r == None
  {
    SearchIsLeftmost(Lit(word), text, 0);
    if Contains(text, word) {
      var i :| 0 <= i <= |text| && OccursAt(word, text, i);
      assert MatchesAt(Lit(word), text, i);
    }
  }

  /** What match_all finds: an empty match when nothing is missing, else the not-found text. */
  lemma MatchAllSpan(cmd: string, expects: seq<string>, noCmd: string, text: string)
    ensures var nf := NotFoundText(cmd, noCmd);
      var r := Search(PreparePattern(cmd, expects, true, noCmd), text);
      if ContainsAll(text, expects) then r == Some(Span(0, 0))
      else if Contains(text, nf) then r.Some? && Group(text, r.value) == nf
      else r == None
  {
    var nf := NotFoundText(cmd, noCmd);
    var re := PreparePattern(cmd, expects, true, noCmd);
    if ContainsAll(text, expects) {
      MatchAllAt(cmd, expects, noCmd, text, 0);
    } else {
      forall j: nat | 0 <= j <= |text| ensures Ends(re, text, j) == Ends(Lit(nf), text, j) {
        MatchAllAt(cmd, expects, noCmd, text, j);
      }
      SameEndsSameSearch(re, Lit(nf), text, 0);
      LiteralSearch(nf, text);
    }
  }

  /** match_all accepts a buffer iff it holds every expected string or the not-found text. */
  lemma MatchAllAccepts(cmd: string, expects: seq<string>, noCmd: string, text: string)
    ensures Search(PreparePattern(cmd, expects, true, noCmd), text).Some?
       <==> ContainsAll(text, expects) || Contains(text, NotFoundText(cmd, noCmd))
  {
    MatchAllSpan(cmd, expects, noCmd, text);
  }

  /**
   * Anchoring is only an optimisation: on every buffer the anchored pattern finds exactly what
   * the unanchored one, which retries the lookaheads at every position, would find.
   */
  lemma AnchoringChangesNothing(cmd: string, expects: seq<string>, noCmd: string, text: string)
    ensures Search(PreparePattern(cmd, expects, true, noCmd), text)
      == Search(UnanchoredPattern(cmd, expects, noCmd), text)
  {
    var a, u := PreparePattern(cmd, expects, true, noCmd), UnanchoredPattern(cmd, expects, noCmd);
    LookaheadsFromStart(expects, text);
    MatchAllAt(cmd, expects, noCmd, text, 0);
    if !ContainsAll(text, expects) {
      var k :| 0 <= k < |expects| && !Contains(text, expects[k]);
      forall j: nat | 0 <= j <= |text| ensures Ends(a, text, j) == Ends(u, text, j) {
        MatchAllAt(cmd, expects, noCmd, text, j);
        LookaheadsFind(expects, text, j);
        assert !ContainsFrom(text, expects[k], j);
        assert Ends(Lookaheads(expects), text, j) == [];
      }
      SameEndsSameSearch(a, u, text, 0);
    }
  }

  /** The alternatives of a match-any pattern, in the order they are tried. */
  function Alternatives(cmd: string, expects: seq<string>, noCmd: string): seq<string> {
    expects + [NotFoundText(cmd, noCmd)]
  }

  predicate NoneAt(words: seq<string>, text: string, i: nat) {
    forall m | 0 <= m < |words| :: !OccursAt(words[m], text, i)
  }

  /** No alternative occurs before `i`, and alternative `k` is the first that occurs at `i`. */
  predicate LeftmostFirst(words: seq<string>, text: string, i: nat, k: nat) {
    && k < |words| && OccursAt(words[k], text, i)
    && NoneAt(words[..k], text, i)
    && (forall j | 0 <= j < i :: NoneAt(words, text, j))
  }

  lemma AnyOfMatchesAt(words: seq<string>, text: string, i: nat) returns (k: nat)
    requires words != [] && i <= |text|
    ensures if MatchesAt(AnyOf(words), text, i)
      then k < |words| && OccursAt(words[k], text, i) && NoneAt(words[..k], text, i)
        && Ends(AnyOf(words), text, i)[0] == i + |words[k]|
      else NoneAt(words, text, i)
  {
    AnyOfPicksFirst(words, text, i);
    var first := FirstAt(words, text, i);
    k := if first.Some? then first.value else 0;
  }

  /** An ordered alternation finds the leftmost word, the earliest in the list on a tie. */
  lemma AnyOfSpan(words: seq<string>, text: string)
    requires words != []
    ensures var r := Search(AnyOf(words), text);
      if r.Some? then exists k: nat ::
        LeftmostFirst(words, text, r.value.start, k) && Group(text, r.value) == words[k]
      else forall j | 0 <= j <= |text| :: NoneAt(words, text, j)
  {
    var r := Search(AnyOf(words), text);
    SearchIsLeftmost(AnyOf(words), text, 0);
    forall j: nat | j <= |text| && !MatchesAt(AnyOf(words), text, j) ensures NoneAt(words, text, j) {
      var _ := AnyOfMatchesAt(words, text, j);
    }
    if r.Some? {
      var k := AnyOfMatchesAt(words, text, r.value.start);
      assert LeftmostFirst(words, text, r.value.start, k);
    }
  }

  lemma {:induction false} AlternationExtends(words: seq<string>, last: string, text: string, i: nat)
    requires words != [] && i <= |text|
    ensures Ends(AnyOf(words + [last]), text, i) == Ends(AnyOf(words), text, i) + Ends(Lit(last), text, i)
  {
    if |words| == 1 {
      assert (words + [last])[1..] == [last];
    } else {
      AlternationExtends(words[1..], last, text, i);
      assert (words + [last])[1..] == words[1..] + [last];
    }
  }

  /** What match-any finds: the leftmost alternative, the earliest in the list on a tie. */
  lemma MatchAnySpan(cmd: string, expects: seq<string>, noCmd: string, text: string)
    requires expects != []
    ensures var words := Alternatives(cmd, expects, noCmd);
      var r := Search(PreparePattern(cmd, expects, false, noCmd), text);
      if r.Some? then exists k: nat ::
        LeftmostFirst(words, text, r.value.start, k) && Group(text, r.value) == words[k]
      else forall j | 0 <= j <= |text| :: NoneAt(words, text, j)
  {
    var words := Alternatives(cmd, expects, noCmd);
    var re := PreparePattern(cmd, expects, false, noCmd);
    forall j: nat | 0 <= j <= |text| ensures Ends(re, text, j) == Ends(AnyOf(words), text, j) {
      AlternationExtends(expects, NotFoundText(cmd, noCmd), text, j);
    }
    SameEndsSameSearch(re, AnyOf(words), text, 0);
    AnyOfSpan(words, text);
  }

  /** match-any accepts a buffer iff it holds some expected string or the not-found text. */
  lemma MatchAnyAccepts(cmd: string, expects: seq<string>, noCmd: string, text: string)
    requires expects != []
    ensures Search(PreparePattern(cmd, expects, false, noCmd), text).Some?
       <==> ContainsSome(text, expects) || Contains(text, NotFoundText(cmd, noCmd))
  {
    MatchAnySpan(cmd, expects, noCmd, text);
    var words := Alternatives(cmd, expects, noCmd);
    var r := Search(PreparePattern(cmd, expects, false, noCmd), text);
    if r.Some? {
      var k: nat :| LeftmostFirst(words, text, r.value.start, k);
      assert OccursAt(words[k], text, r.value.start);
      if k < |expects| {
        assert Contains(text, expects[k]);
      }
    } else {
      forall m | 0 <= m < |words| ensures !Contains(text, words[m]) {
        assert forall j | 0 <= j <= |text| :: NoneAt(words, text, j) ==> !OccursAt(words[m], text, j);
      }
      assert forall k | 0 <= k < |expects| :: words[k] == expects[k];
      assert words[|expects|] == NotFoundText(cmd, noCmd);
    }
  }

  /** A failure pattern is found iff some failure string occurs. */
  lemma FailPatternAccepts(failures: seq<string>, text: string)
    requires failures != []
    ensures Search(BuildFailPattern(failures), text).Some? <==> ContainsSome(text, failures)
  {
    AnyOfSpan(failures, text);
    var r := Search(BuildFailPattern(failures), text);
    if r.Some? {
      var k: nat :| LeftmostFirst(failures, text, r.value.start, k);
      assert Contains(text, failures[k]);
    } else {
      forall k | 0 <= k < |failures| ensures !Contains(text, failures[k]) {
        assert forall j | 0 <= j <= |text| :: NoneAt(failures, text, j) ==> !OccursAt(failures[k], text, j);
      }
    }
  }
}

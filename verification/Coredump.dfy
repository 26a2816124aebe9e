/** `str.splitlines`. */
module SplitLines {

  predicate IsBreak(c: char) {
    || '\n' <= c <= '\r' || 0x1c as char <= c <= 0x1e as char
    || c == 0x85 as char || c == 0x2028 as char || c == 0x2029 as char
  }

  /** The first line break, or the end. */
  function LineEnd(text: string): (n: nat)
    ensures n <= |text| && (n < |text| ==> IsBreak(text[n]))
    ensures forall k | 0 <= k < n :: !IsBreak(text[k])
  {
    if text == "" || IsBreak(text[0]) then 0 else 1 + LineEnd(text[1..])
  }

  /** Where the next line starts; a carriage return takes a following newline with it. */
  function NextLine(text: string): (n: nat)
    requires text != ""
    ensures 0 < n <= |text|
  {
    var n := LineEnd(text);
    if n == |text| then n
    else if text[n] == '\r' && n + 1 < |text| && text[n + 1] == '\n' then n + 2
    else n + 1
  }

  function Split(text: string): seq<string>
    decreases |text|
  {
    if text == "" then [] else [text[..LineEnd(text)]] + Split(text[NextLine(text)..])
  }

  /** A line of `text` starts at `p`. */
  predicate LineStart(text: string, p: nat) {
    p <= |text| && (p == 0 || (IsBreak(text[p - 1]) && !(text[p - 1] == '\r' && p < |text| && text[p] == '\n')))
  }

  lemma LineEndIs(text: string, n: nat)
    requires n <= |text| && (n < |text| ==> IsBreak(text[n])) && forall k | 0 <= k < n :: !IsBreak(text[k])
    ensures LineEnd(text) == n
  {
  }

  lemma FirstLineOfPart(text: string, p: nat)
    requires LineStart(text, p) && 0 < p
    ensures LineEnd(text[..p]) == LineEnd(text) && NextLine(text[..p]) == NextLine(text) <= p
    ensures text[..p][..LineEnd(text)] == text[..LineEnd(text)]
  {
    var n := LineEnd(text);
    LineEndIs(text[..p], n);
  }

  lemma StartInRest(text: string, p: nat)
    requires LineStart(text, p) && 0 < p
    ensures text != "" && NextLine(text) <= p && LineStart(text[NextLine(text)..], p - NextLine(text))
  {
    FirstLineOfPart(text, p);
  }

  /** The first line of `text` and of its part up to `p` is the same, and both go on at the same place. */
  lemma FirstLineSplits(text: string, p: nat, k: nat)
    requires LineStart(text, p) && 0 < p && k == NextLine(text)
    ensures k <= p && text[..p][k..] == text[k..][..p - k] && text[k..][p - k..] == text[p..]
    ensures Split(text) == [text[..LineEnd(text)]] + Split(text[k..])
    ensures Split(text[..p]) == [text[..LineEnd(text)]] + Split(text[k..][..p - k])
  {
    FirstLineOfPart(text, p);
    CutParts(text, p, k);
    hide LineEnd, NextLine, LineStart;
  }

  lemma CutParts(text: string, p: nat, k: nat)
    requires k <= p <= |text|
    ensures text[..p][k..] == text[k..][..p - k] && text[k..][p - k..] == text[p..]
  {
  }

  lemma SplitAtTheFront(text: string)
    ensures Split(text[..0]) == [] && text[0..] == text
  {
  }

  /** A text can be split at any line start. */
  lemma {:induction false} SplitAt(text: string, p: nat)
    requires LineStart(text, p)
    ensures Split(text) == Split(text[..p]) + Split(text[p..])
    decreases |text|
  {
    hide *;
    if p == 0 {
      SplitAtTheFront(text);
    } else {
      StartInRest(text, p);
      var k := NextLine(text);
      FirstLineSplits(text, p, k);
      SplitAt(text[k..], p - k);
    }
  }

  /** The offset at which line `s` starts. */
  function LineOffset(text: string, s: nat): (p: nat)
    requires s < |Split(text)|
    ensures p <= |text|
    decreases s
  {
    if s == 0 then 0 else NextLine(text) + LineOffset(text[NextLine(text)..], s - 1)
  }

  lemma StartFromRest(text: string, q: nat)
    requires text != "" && NextLine(text) < |text| && LineStart(text[NextLine(text)..], q)
    ensures LineStart(text, NextLine(text) + q)
  {
    var k, n := NextLine(text), LineEnd(text);
    if q == 0 {
      assert n < |text|;
    } else {
      assert text[k..][q - 1] == text[k + q - 1];
    }
  }

  lemma LineOffsetStep(text: string, s: nat)
    requires s < |Split(text)|
    ensures text != "" && LineStart(text, 0)
    ensures s == 0 ==> LineOffset(text, s) == 0
    ensures s > 0 ==> NextLine(text) < |text| && s - 1 < |Split(text[NextLine(text)..])|
    ensures s > 0 ==> LineOffset(text, s) == NextLine(text) + LineOffset(text[NextLine(text)..], s - 1)
  {
  }

  lemma {:induction false} LineOffsetIsStart(text: string, s: nat)
    requires s < |Split(text)|
    ensures LineOffset(text, s) < |text| && LineStart(text, LineOffset(text, s))
    ensures |Split(text[..LineOffset(text, s)])| == s
    decreases s
  {
    hide *;
    LineOffsetStep(text, s);
    if s == 0 {
      SplitAtTheFront(text);
    } else {
      var k := NextLine(text);
      var q := LineOffset(text[k..], s - 1);
      LineOffsetIsStart(text[k..], s - 1);
      StartFromRest(text, q);
      FirstLineSplits(text, k + q, k);
    }
  }

  /** The characters that end a line. */
  const BREAKS := "\n\U{0b}\U{0c}\r\U{1c}\U{1d}\U{1e}\U{85}\U{2028}\U{2029}"

  predicate Unbroken(line: string) {
    forall k | 0 <= k < |line| :: line[k] !in BREAKS
  }

  lemma BreaksAre(c: char)
    ensures IsBreak(c) <==> c in BREAKS
  {
    var i := if c == '\n' then 0 else if c == 0x0b as char then 1 else if c == 0x0c as char then 2
      else if c == '\r' then 3 else if c == 0x1c as char then 4 else if c == 0x1d as char then 5
      else if c == 0x1e as char then 6 else if c == 0x85 as char then 7 else if c == 0x2028 as char then 8 else 9;
    assert |BREAKS| == 10;
    if IsBreak(c) {
      assert BREAKS[i] == c;
    }
  }

  /** A line ends at its first break, and a carriage return takes a newline with it. */
  lemma SplitBreak(line: string, ending: string, rest: string)
    requires Unbroken(line) && ending != "" && ending[0] in BREAKS
    requires if |ending| == 1 then !(ending == "\r" && rest != "" && rest[0] == '\n') else ending == "\r\n"
    ensures Split(line + ending + rest) == [line] + Split(rest)
  {
    var text := line + ending + rest;
    assert forall k | 0 <= k < |line| :: text[k] == line[k];
    forall k | 0 <= k < |line| ensures !IsBreak(text[k]) {
      BreaksAre(line[k]);
    }
    BreaksAre(ending[0]);
    LineEndIs(text, |line|);
    hide LineEnd, IsBreak;
    assert |ending| == 2 ==> ending[1] == '\n';
    assert text[|line|] == ending[0];
    assert |line| + 1 < |text| ==> text[|line| + 1] == if |ending| == 2 then '\n' else rest[0];
    assert NextLine(text) == |line| + |ending|;
    assert text[..|line|] == line && text[|line| + |ending|..] == rest;
  }

  /** Lines printed with a line ending each are split back into themselves. */
  function Print(ending: string, lines: seq<string>): string {
    if lines == [] then "" else lines[0] + ending + Print(ending, lines[1..])
  }

  predicate AllUnbroken(lines: seq<string>) {
    forall i | 0 <= i < |lines| :: Unbroken(lines[i])
  }

  /** A console ends its lines in this way. */
  predicate IsLineEnding(ending: string) {
    ending == "\n" || ending == "\r\n"
  }

  lemma FirstPrinted(ending: string, lines: seq<string>)
    requires IsLineEnding(ending) && lines != [] && Unbroken(lines[0])
    ensures Print(ending, lines) != "" && NextLine(Print(ending, lines)) == |lines[0]| + |ending|
    ensures Print(ending, lines)[|lines[0]| + |ending|..] == Print(ending, lines[1..])
  {
    var text, n := Print(ending, lines), |lines[0]|;
    assert forall k | 0 <= k < n :: text[k] == lines[0][k];
    forall k | 0 <= k < n ensures !IsBreak(text[k]) {
      BreaksAre(lines[0][k]);
    }
    assert text[n] == ending[0];
    LineEndIs(text, n);
  }

  lemma {:induction false} SplitPrinted(ending: string, lines: seq<string>)
    requires IsLineEnding(ending) && AllUnbroken(lines)
    ensures Split(Print(ending, lines)) == lines
  {
    if lines != [] {
      SplitPrinted(ending, lines[1..]);
      assert BREAKS[0] == '\n' && BREAKS[3] == '\r';
      hide Split, BREAKS, Unbroken;
      SplitBreak(lines[0], ending, Print(ending, lines[1..]));
    }
  }

  lemma {:induction false} PrintConcat(ending: string, a: seq<string>, b: seq<string>)
    ensures Print(ending, a + b) == Print(ending, a) + Print(ending, b)
  {
    if a == [] {
      assert a + b == b;
    } else {
      assert (a + b)[1..] == a[1..] + b;
      PrintConcat(ending, a[1..], b);
    }
  }

  lemma PrintOneMore(ending: string, lines: seq<string>, s: nat)
    requires 0 < s <= |lines|
    ensures |Print(ending, lines[..s])| == |lines[0]| + |ending| + |Print(ending, lines[1..][..s - 1])|
  {
    assert lines[..s][1..] == lines[1..][..s - 1];
  }

  lemma {:induction false} OffsetOfPrinted(ending: string, lines: seq<string>, s: nat)
    requires IsLineEnding(ending) && s < |lines| && AllUnbroken(lines) && |Split(Print(ending, lines))| == |lines|
    ensures LineOffset(Print(ending, lines), s) == |Print(ending, lines[..s])|
    decreases s
  {
    if s > 0 {
      FirstPrinted(ending, lines);
      SplitPrinted(ending, lines[1..]);
      PrintOneMore(ending, lines, s);
      hide Split, NextLine, Print, LineOffset, IsLineEnding, Unbroken;
      LineOffsetStep(Print(ending, lines), s);
      OffsetOfPrinted(ending, lines[1..], s - 1);
    } else {
      hide Split;
    }
  }
}

/** Finding the coredump between its markers. */
module Extraction {
  import opened Options
  import opened Text
  import opened SplitLines
  import opened DeviceReading

  const START_MARKER := "Start coredump"
  const FINISH_MARKER := "Finish coredump"

  predicate IsStart(line: string) {
    Contains(line, START_MARKER)
  }

  /** A line with both markers counts as a start. */
  predicate IsFinish(line: string) {
    !IsStart(line) && Contains(line, FINISH_MARKER)
  }

  predicate IsMarker(line: string) {
    IsStart(line) || IsFinish(line)
  }

  predicate NoMarkers(lines: seq<string>, lo: int, hi: int)
    requires 0 <= lo && hi <= |lines|
  {
    forall k | lo <= k < hi :: !IsMarker(lines[k])
  }

  /** A complete pair: a start line, a later finish line, and no marker line between them. */
  predicate Pair(lines: seq<string>, s: int, f: int) {
    0 <= s < f < |lines| && IsStart(lines[s]) && IsFinish(lines[f]) && NoMarkers(lines, s + 1, f)
  }

  /** Line `s` is a start line and no marker follows it before line `i`. */
  predicate OpenStart(lines: seq<string>, s: int, i: int) {
    0 <= s < i <= |lines| && IsStart(lines[s]) && NoMarkers(lines, s + 1, i)
  }

  lemma OpenBefore(lines: seq<string>, s: int, i: int)
    requires s < i && OpenStart(lines, s, i + 1)
    ensures OpenStart(lines, s, i) && !IsMarker(lines[i])
  {
    hide IsStart, IsMarker;
  }

  lemma OpenStartIsOne(lines: seq<string>, s: int, t: int, i: int)
    requires OpenStart(lines, s, i) && OpenStart(lines, t, i)
    ensures s == t
  {
    assert s < t ==> IsMarker(lines[t]);
    assert t < s ==> IsMarker(lines[s]);
  }

  ghost predicate NoOpenStart(lines: seq<string>, i: int) {
    forall s :: !OpenStart(lines, s, i)
  }

  lemma StaysClosed(lines: seq<string>, i: nat)
    requires i < |lines| && !IsStart(lines[i]) && (NoOpenStart(lines, i) || IsFinish(lines[i]))
    ensures NoOpenStart(lines, i + 1)
  {
    var next := i + 1;
    forall s ensures !OpenStart(lines, s, next) {
      if s < i && OpenStart(lines, s, next) {
        OpenBefore(lines, s, i);
      }
    }
  }

  /** `r` is the last complete pair, None if there is none. */
  ghost predicate IsLastPair(lines: seq<string>, r: Option<(nat, nat)>) {
    && (r.Some? ==> Pair(lines, r.value.0, r.value.1))
    && (forall s, f :: Pair(lines, s, f) ==> r.Some? && f <= r.value.1)
  }

  /** There is only one last pair. */
  lemma LastPairUnique(lines: seq<string>, a: Option<(nat, nat)>, b: Option<(nat, nat)>)
    requires IsLastPair(lines, a) && IsLastPair(lines, b)
    ensures a == b
  {
    if a.Some? && b.Some? {
      OpenStartIsOne(lines, a.value.0, b.value.0, a.value.1);
    }
  }

  /** The marker scan of `_extract_payload`. */
  method FindLastPair(lines: seq<string>) returns (r: Option<(nat, nat)>)
    ensures IsLastPair(lines, r)
  {
    var pending: Option<nat> := None;
    r := None;
    for i := 0 to |lines|
      invariant r.Some? ==> Pair(lines, r.value.0, r.value.1) && r.value.1 < i
      invariant forall s, f | f < i :: Pair(lines, s, f) ==> r.Some? && f <= r.value.1
      invariant pending.Some? ==> OpenStart(lines, pending.value, i)
      invariant pending.None? ==> NoOpenStart(lines, i)
    {
      ghost var before := pending;
      if Contains(lines[i], START_MARKER) {
        pending := Some(i);
      } else if Contains(lines[i], FINISH_MARKER) && pending.Some? {
        r := Some((pending.value, i));
        pending := None;
      }
      forall s | Pair(lines, s, i) ensures before.Some? && before.value == s {
        assert OpenStart(lines, s, i);
        OpenStartIsOne(lines, s, before.value, i);
      }
      if pending.None? {
        StaysClosed(lines, i);
      }
    }
  }

  // ---------- the payload ----------

  /** `line.rfind(" ")`, -1 when there is none. */
  function LastSpace(line: string): (i: int)
    ensures -1 <= i < |line| && (i >= 0 ==> line[i] == ' ') && forall k | i < k < |line| :: line[k] != ' '
  {
    if line == "" then -1
    else if line[|line| - 1] == ' ' then |line| - 1
    else LastSpace(line[..|line| - 1])
  }

  /** The coredump data of one line. */
  function LineData(line: string): string {
    var i := LastSpace(line);
    Strip(IsSpace, if i > 0 then line[i + 1..] else line)
  }

  function JoinData(lines: seq<string>): string {
    if lines == [] then "" else JoinData(lines[..|lines| - 1]) + LineData(lines[|lines| - 1])
  }

  /** What the extraction of `lines` yields. */
  ghost predicate IsPayload(lines: seq<string>, r: Option<string>) {
    exists pair: Option<(nat, nat)> :: IsLastPair(lines, pair) && r == PayloadBetween(lines, pair)
  }

  function PayloadBetween(lines: seq<string>, pair: Option<(nat, nat)>): Option<string> {
    if pair.Some? && Pair(lines, pair.value.0, pair.value.1)
    then Some(JoinData(lines[pair.value.0 + 1..pair.value.1])) else None
  }

  lemma PayloadUnique(lines: seq<string>, a: Option<string>, b: Option<string>)
    requires IsPayload(lines, a) && IsPayload(lines, b)
    ensures a == b
  {
    var p: Option<(nat, nat)> :| IsLastPair(lines, p) && a == PayloadBetween(lines, p);
    var q: Option<(nat, nat)> :| IsLastPair(lines, q) && b == PayloadBetween(lines, q);
    LastPairUnique(lines, p, q);
  }

  /** `_extract_payload`. */
  method ExtractPayload(output: string) returns (r: Option<string>)
    ensures IsPayload(Split(output), r)
  {
    var lines := Split(output);
    var pair := FindLastPair(lines);
    if pair.None? {
      var none: Option<string> := None;
      assert none == PayloadBetween(lines, pair);
      return none;
    }
    var start, finish := pair.value.0, pair.value.1;
    var chars := "";
    var between := lines[start + 1..finish];
    for i := 0 to |between|
      invariant chars == JoinData(between[..i])
    {
      assert between[..i + 1][..i] == between[..i] && between[..i + 1][i] == between[i];
      var line := between[i];
      var index := LastSpace(line);
      if index > 0 {
        line := line[index + 1..];
      }
      chars := chars + Strip(IsSpace, line);
    }
    assert between[..|between|] == between;
    r := Some(chars);
  }

  // ---------- what stands before the last pair does not matter ----------

  lemma PairInSuffix(x: seq<string>, y: seq<string>, s: int, f: int)
    requires s >= |x|
    ensures Pair(x + y, s, f) <==> Pair(y, s - |x|, f - |x|)
  {
    assert forall k | |x| <= k < |x + y| :: (x + y)[k] == y[k - |x|];
    if Pair(x + y, s, f) {
      forall k | s - |x| + 1 <= k < f - |x| ensures !IsMarker(y[k]) {
        assert !IsMarker((x + y)[k + |x|]);
      }
    }
  }

  /** The last pair of `x + y`, when it lies in `y`, is also the last pair after any other `z`. */
  lemma LastPairAfter(x: seq<string>, z: seq<string>, y: seq<string>, s: nat, f: nat)
    requires s >= |x| && IsLastPair(x + y, Some((s, f)))
    ensures IsLastPair(z + y, Some((s - |x| + |z|, f - |x| + |z|)))
  {
    var s', f' := s - |x| + |z|, f - |x| + |z|;
    PairInSuffix(x, y, s, f);
    PairInSuffix(z, y, s', f');
    forall t, g | Pair(z + y, t, g) ensures g <= f' {
      if g > f' {
        if t >= |z| {
          PairInSuffix(z, y, t, g);
          PairInSuffix(x, y, t - |z| + |x|, g - |z| + |x|);
        } else {
          assert IsMarker((z + y)[s']);
        }
      }
    }
  }

  lemma SliceAfter<T>(x: seq<T>, y: seq<T>, s: nat, f: nat)
    requires s < f <= |y|
    ensures (x + y)[|x| + s..|x| + f] == y[s..f]
  {
  }

  lemma PayloadsOfBoth(x: seq<string>, z: seq<string>, y: seq<string>, s: nat, f: nat) returns (data: Option<string>)
    requires s >= |x| && IsLastPair(x + y, Some((s, f)))
    ensures IsPayload(x + y, data) && IsPayload(z + y, data)
  {
    hide *;
    LastPairIsPayload(x + y, s, f);
    var i, j := s - |x|, f - |x|;
    LastPairAfter(x, z, y, s, f);
    LastPairIsPayload(z + y, i + |z|, j + |z|);
    SameBetween(x, z, y, i, j);
    data := Some(JoinData((x + y)[s + 1..f]));
  }

  lemma SameBetween(x: seq<string>, z: seq<string>, y: seq<string>, i: nat, j: nat)
    requires i < j <= |y|
    ensures (x + y)[i + |x| + 1..j + |x|] == (z + y)[i + |z| + 1..j + |z|]
  {
    if i + 1 < j {
      SliceAfter(x, y, i + 1, j);
      SliceAfter(z, y, i + 1, j);
    } else {
      assert (x + y)[i + |x| + 1..j + |x|] == [] == (z + y)[i + |z| + 1..j + |z|];
    }
  }

  lemma LastPairIsPayload(lines: seq<string>, s: nat, f: nat)
    requires IsLastPair(lines, Some((s, f)))
    ensures s < f <= |lines| && IsPayload(lines, Some(JoinData(lines[s + 1..f])))
  {
    assert Pair(lines, s, f);
    hide JoinData, Pair, IsLastPair;
    assert Some(JoinData(lines[s + 1..f])) == PayloadBetween(lines, Some((s, f)));
  }

  lemma PayloadAfter(x: seq<string>, z: seq<string>, y: seq<string>, s: nat, f: nat, r: Option<string>)
    requires s >= |x| && IsLastPair(x + y, Some((s, f)))
    ensures IsPayload(x + y, r) <==> IsPayload(z + y, r)
  {
    hide *;
    var data := PayloadsOfBoth(x, z, y, s, f);
    if IsPayload(x + y, r) {
      PayloadUnique(x + y, r, data);
    }
    if IsPayload(z + y, r) {
      PayloadUnique(z + y, r, data);
    }
  }

  /** `n` characters of the log are enough when the last complete pair begins within them. */
  lemma TailHoldsPayload(log: string, n: nat, s: nat, f: nat, r: Option<string>)
    requires IsLastPair(Split(log), Some((s, f))) && LineOffset(log, s) + n >= |log|
    ensures IsPayload(Split(LastN(log, n)), r) <==> IsPayload(Split(log), r)
  {
    if |log| > n {
      hide IsLastPair, IsPayload, Split, LineOffset;
      LineOffsetIsStart(log, s);
      PayloadFromCut(log, |log| - n, LineOffset(log, s), s, f, r);
    }
  }

  lemma PayloadFromCut(log: string, c: nat, p: nat, s: nat, f: nat, r: Option<string>)
    requires c <= p <= |log| && LineStart(log, p) && |Split(log[..p])| == s && IsLastPair(Split(log), Some((s, f)))
    ensures IsPayload(Split(log[c..]), r) <==> IsPayload(Split(log), r)
  {
    hide *;
    SplitFromCut(log, c, p);
    var kept := Split(log[p..]);
    PayloadAfter(Split(log[..p]), Split(log[c..][..p - c]), kept, s, f, r);
  }

  lemma SplitFromCut(log: string, c: nat, p: nat)
    requires c <= p <= |log| && LineStart(log, p)
    ensures Split(log) == Split(log[..p]) + Split(log[p..])
    ensures Split(log[c..]) == Split(log[c..][..p - c]) + Split(log[p..])
  {
    hide *;
    LineStartInPart(log, c, p);
    SplitAt(log, p);
    SplitAt(log[c..], p - c);
    DropTwice(log, c, p);
  }

  lemma DropTwice(text: string, c: nat, p: nat)
    requires c <= p <= |text|
    ensures text[c..][p - c..] == text[p..]
  {
  }

  lemma LineStartInPart(text: string, c: nat, p: nat)
    requires LineStart(text, p) && c <= p
    ensures LineStart(text[c..], p - c)
  {
    if c < p {
      assert text[c..][p - c - 1] == text[p - 1];
    }
  }

  // ---------- printing a dump and extracting it again ----------

  /** One line of the printed dump: a syslog prefix, a space and a chunk of the data. */
  function DumpLine(prefix: string, chunk: string): string {
    prefix + " " + chunk
  }

  function DumpLines(data: seq<(string, string)>): (r: seq<string>)
    ensures |r| == |data| && forall i | 0 <= i < |data| :: r[i] == DumpLine(data[i].0, data[i].1)
  {
    seq(|data|, i requires 0 <= i < |data| => DumpLine(data[i].0, data[i].1))
  }

  function Chunks(data: seq<(string, string)>): string {
    if data == [] then "" else Chunks(data[..|data| - 1]) + data[|data| - 1].1
  }

  predicate Solid(chunk: string) {
    forall k | 0 <= k < |chunk| :: !IsSpace(chunk[k])
  }

  lemma LastSpaceIs(line: string, i: nat)
    requires i < |line| && line[i] == ' ' && forall k | i < k < |line| :: line[k] != ' '
    ensures LastSpace(line) == i
  {
  }

  lemma NoSpace(line: string)
    requires forall k | 0 <= k < |line| :: line[k] != ' '
    ensures LastSpace(line) == -1
  {
  }

  lemma SpacesIn(prefix: string, data: string)
    requires ' ' !in data
    ensures LastSpace(prefix + " " + data) == |prefix| && LastSpace(data) == -1
    ensures (prefix + " " + data)[|prefix| + 1..] == data
  {
    var line := prefix + " " + data;
    assert forall k | |prefix| < k < |line| :: line[k] == data[k - |prefix| - 1];
    LastSpaceIs(line, |prefix|);
    NoSpace(data);
  }

  /** The data of a line is what stands after the last space, without other blanks around it. */
  lemma LineDataIs(prefix: string, left: string, chunk: string, right: string)
    requires AllBlank(IsSpace, left) && AllBlank(IsSpace, right) && NoMargin(IsSpace, chunk)
    requires ' ' !in left + chunk + right
    ensures LineData(prefix + " " + (left + chunk + right)) == chunk && LineData(left + chunk + right) == chunk
  {
    var data := left + chunk + right;
    SpacesIn(prefix, data);
    assert AllBlank(IsSpace, " " + left);
    hide Strip, LastSpace, IsSpace, AllBlank, NoMargin;
    StripIs(IsSpace, left, chunk, right);
    if prefix == "" {
      assert prefix + " " + data == (" " + left) + chunk + right;
      StripIs(IsSpace, " " + left, chunk, right);
    }
  }

  /** So a space after the data hides it. */
  lemma TrailingSpaceHidesData(text: string)
    ensures LineData(text + " ") == ""
  {
    var line := text + " ";
    LastSpaceIs(line, |text|);
    assert line[|text| + 1..] == "";
    StripIs(IsSpace, " ", "", "");
    assert " " + "" + "" == " ";
  }

  lemma DataOfDumpLine(prefix: string, chunk: string)
    requires Solid(chunk)
    ensures LineData(DumpLine(prefix, chunk)) == chunk
  {
    assert "" + chunk + "" == chunk;
    assert forall k | 0 <= k < |chunk| :: chunk[k] != ' ';
    LineDataIs(prefix, "", chunk, "");
  }

  /** What the target prints around a dump is taken for its markers. */
  lemma MarkersAre(before: string, after: string)
    ensures IsStart(before + "Start coredump" + after)
    ensures IsFinish(before + "Finish coredump" + after) || IsStart(before + "Finish coredump" + after)
    ensures !IsMarker("Start coredum") && !IsMarker("tart coredump") && !IsMarker("Finish coredum")
    ensures !IsMarker("inish coredump")
  {
    var start, finish := before + "Start coredump" + after, before + "Finish coredump" + after;
    assert start[|before|..|before| + 14] == "Start coredump";
    assert finish[|before|..|before| + 15] == "Finish coredump";
    assert OccursAt(START_MARKER, start, |before|) && OccursAt(FINISH_MARKER, finish, |before|);
    assert "Finish coredum"[0..14][0] == 'F' && "inish coredump"[0..14][0] == 'i';
  }

  lemma {:induction false} DataOfDump(data: seq<(string, string)>)
    requires forall i | 0 <= i < |data| :: Solid(data[i].1)
    ensures JoinData(DumpLines(data)) == Chunks(data)
  {
    if data != [] {
      var n := |data| - 1;
      DataOfDump(data[..n]);
      assert DumpLines(data)[..n] == DumpLines(data[..n]);
      DataOfDumpLine(data[n].0, data[n].1);
    }
  }

  /** A dump between its markers, with other output before and after. */
  function Console(pre: seq<string>, start: string, data: seq<(string, string)>, finish: string, post: seq<string>)
    : seq<string>
  {
    pre + ([start] + DumpLines(data) + [finish] + post)
  }

  ghost predicate NoPair(lines: seq<string>) {
    forall s, f :: !Pair(lines, s, f)
  }

  ghost predicate IsDump(start: string, data: seq<(string, string)>, finish: string, post: seq<string>) {
    && IsStart(start) && IsFinish(finish) && NoPair(post)
    && forall i | 0 <= i < |data| :: Solid(data[i].1) && !IsMarker(DumpLine(data[i].0, data[i].1))
  }

  lemma DumpIsLastPair(pre: seq<string>, start: string, data: seq<(string, string)>, finish: string, post: seq<string>)
    requires IsDump(start, data, finish, post)
    ensures IsLastPair(Console(pre, start, data, finish, post), Some((|pre|, |pre| + 1 + |data|)))
  {
    var lines := Console(pre, start, data, finish, post);
    var f := |pre| + 1 + |data|;
    assert forall k | |pre| < k < f :: lines[k] == DumpLines(data)[k - |pre| - 1];
    var head := lines[..f + 1];
    assert lines == head + post;
    forall t, g | Pair(lines, t, g) ensures g <= f {
      if g > f {
        assert t > f || IsMarker(lines[f]);
        PairInSuffix(head, post, t, g);
      }
    }
  }

  lemma DumpBetween(pre: seq<string>, start: string, data: seq<(string, string)>, finish: string, post: seq<string>)
    ensures Console(pre, start, data, finish, post)[|pre| + 1..|pre| + 1 + |data|] == DumpLines(data)
  {
    hide DumpLines;
  }

  lemma DumpIsSolid(start: string, data: seq<(string, string)>, finish: string, post: seq<string>)
    requires IsDump(start, data, finish, post)
    ensures forall i | 0 <= i < |data| :: Solid(data[i].1)
  {
    hide Solid, IsStart, IsFinish, NoPair, IsMarker;
  }

  /** Extracting a printed dump gives back its data. */
  lemma ExtractPrinted(pre: seq<string>, start: string, data: seq<(string, string)>, finish: string, post: seq<string>)
    requires IsDump(start, data, finish, post)
    ensures IsPayload(Console(pre, start, data, finish, post), Some(Chunks(data)))
  {
    hide *;
    DumpIsSolid(start, data, finish, post);
    DataOfDump(data);
    DumpIsLastPair(pre, start, data, finish, post);
    DumpBetween(pre, start, data, finish, post);
    LastPairIsPayload(Console(pre, start, data, finish, post), |pre|, |pre| + 1 + |data|);
  }

  /** The same from the tail of the console, when the dump and what follows it fit in there. */
  lemma ExtractPrintedFromTail(
    ending: string, pre: seq<string>, start: string, data: seq<(string, string)>, finish: string, post: seq<string>,
    n: nat, r: Option<string>)
    requires IsLineEnding(ending) && IsDump(start, data, finish, post)
    requires AllUnbroken(Console(pre, start, data, finish, post))
    requires |Print(ending, [start] + DumpLines(data) + [finish] + post)| <= n
    ensures IsPayload(Split(LastN(Print(ending, Console(pre, start, data, finish, post)), n)), r)
       <==> r == Some(Chunks(data))
  {
    var lines := Console(pre, start, data, finish, post);
    var log := Print(ending, lines);
    SplitPrinted(ending, lines);
    DumpIsLastPair(pre, start, data, finish, post);
    ExtractPrinted(pre, start, data, finish, post);
    PrintConcat(ending, pre, [start] + DumpLines(data) + [finish] + post);
    OffsetOfPrinted(ending, lines, |pre|);
    assert lines[..|pre|] == pre;
    TailHoldsPayload(log, n, |pre|, |pre| + 1 + |data|, r);
    if IsPayload(lines, r) {
      PayloadUnique(lines, r, Some(Chunks(data)));
    }
  }
}

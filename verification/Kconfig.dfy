/** Text files as Python's line iteration sees them, after newline translation. */
module Lines {

  function NewlineAt(text: string): (n: nat)
    ensures n <= |text| && '\n' !in text[..n] && (n < |text| ==> text[n] == '\n')
  {
    if text == "" || text[0] == '\n' then 0
    else
      var n := 1 + NewlineAt(text[1..]);
      assert text[..n] == [text[0]] + text[1..][..n - 1];
      n
  }

  /** `f.readlines()`. */
  function ReadLines(text: string): seq<string> {
    if text == "" then []
    else
      var n := NewlineAt(text);
      if n == |text| then [text] else [text[..n + 1]] + ReadLines(text[n + 1..])
  }

  /** `f.writelines(lines)`. */
  function WriteLines(lines: seq<string>): string {
    if lines == [] then "" else lines[0] + WriteLines(lines[1..])
  }

  /** `line.rstrip("\n")` of one line. */
  function Chomp(line: string): string {
    if line != "" && line[|line| - 1] == '\n' then line[..|line| - 1] else line
  }

  predicate IsLine(line: string) {
    line != "" && line[|line| - 1] == '\n' && '\n' !in line[..|line| - 1]
  }

  predicate IsFragment(line: string) {
    line != "" && '\n' !in line
  }

  /** A list of lines as `readlines` returns it: only the last may lack its newline. */
  predicate AreLines(lines: seq<string>) {
    forall i | 0 <= i < |lines| :: IsLine(lines[i]) || (i == |lines| - 1 && IsFragment(lines[i]))
  }

  lemma {:induction false} NewlineOfLine(line: string, rest: string)
    requires IsLine(line)
    ensures NewlineAt(line + rest) == |line| - 1
  {
    var n := NewlineAt(line + rest);
    assert (line + rest)[|line| - 1] == '\n';
    assert forall k | 0 <= k < |line| - 1 :: (line + rest)[k] == line[..|line| - 1][k];
    assert forall k | 0 <= k < n :: (line + rest)[..n][k] == (line + rest)[k];
  }

  /** Writing lines and reading them back gives the same lines. */
  lemma {:induction false} ReadBack(lines: seq<string>)
    requires AreLines(lines)
    ensures ReadLines(WriteLines(lines)) == lines
  {
    if lines != [] {
      var line, rest := lines[0], WriteLines(lines[1..]);
      assert AreLines(lines[1..]);
      ReadBack(lines[1..]);
      if IsLine(line) {
        NewlineOfLine(line, rest);
        assert (line + rest)[..|line|] == line && (line + rest)[|line|..] == rest;
      } else {
        assert lines == [line] && rest == "" && line + rest == line;
        assert forall n | 0 <= n < |line| :: line[n] in line;
      }
    }
  }

  /** The first line of a text, and what is read after it. */
  lemma FirstLine(text: string) returns (line: string, rest: string)
    requires text != ""
    ensures text == line + rest && line != "" && ReadLines(text) == [line] + ReadLines(rest)
    ensures IsLine(line) || (rest == "" && IsFragment(line))
  {
    var n := NewlineAt(text);
    hide NewlineAt;
    line, rest := text, "";
    if n == |text| {
      assert text[..n] == text;
    } else {
      line, rest := text[..n + 1], text[n + 1..];
      assert text == line + rest && line[..n] == text[..n];
    }
  }

  /** What is read are lines, and writing them gives the file back. */
  lemma {:induction false} ReadGivesLines(text: string)
    ensures AreLines(ReadLines(text)) && WriteLines(ReadLines(text)) == text
    decreases |text|
  {
    if text != "" {
      var line, rest := FirstLine(text);
      assert ReadLines("") == [];
      ReadGivesLines(rest);
      hide ReadLines, IsLine, IsFragment;
      assert WriteLines([line] + ReadLines(rest)) == line + rest;
    }
  }

  lemma {:induction false} WriteConcat(a: seq<string>, b: seq<string>)
    ensures WriteLines(a + b) == WriteLines(a) + WriteLines(b)
  {
    if a == [] {
      assert a + b == b;
    } else {
      WriteConcat(a[1..], b);
      assert (a + b)[1..] == a[1..] + b;
      assert WriteLines(a + b) == a[0] + WriteLines(a[1..] + b);
      assert WriteLines(a) == a[0] + WriteLines(a[1..]);
      hide WriteLines;
    }
  }
}

/** Kconfig symbols, values and the lines of a `.config` file. */
module KconfigLine {
  import opened Options
  import opened Text
  import opened Numerals
  import opened Lines

  predicate IsKeyChar(c: char) {
    'A' <= c <= 'Z' || 'a' <= c <= 'z' || '0' <= c <= '9' || c == '_'
  }

  predicate AllKeyChars(s: string) {
    forall i | 0 <= i < |s| :: IsKeyChar(s[i])
  }

  /** `CONFIG_[A-Za-z0-9_]+`. */
  predicate IsKey(s: string) {
    |s| > 7 && s[..7] == "CONFIG_" && AllKeyChars(s)
  }

  /** The first index from `i` on whose character is not accepted. */
  function Skip(p: char -> bool, s: string, i: nat): (n: nat)
    requires i <= |s|
    ensures i <= n <= |s|
    ensures forall k | i <= k < n :: p(s[k])
    ensures n < |s| ==> !p(s[n])
    decreases |s| - i
  {
    if i < |s| && p(s[i]) then Skip(p, s, i + 1) else i
  }

  function Spaces(s: string, i: nat): nat
    requires i <= |s|
  {
    Skip(IsSpace, s, i)
  }

  function KeyEnd(s: string, i: nat): nat
    requires i <= |s|
  {
    Skip(IsKeyChar, s, i)
  }

  const NOT_SET := "is not set"

  /** `^#\s+(CONFIG_[A-Za-z0-9_]+)\s+is not set`. */
  function DisabledKey(s: string): Option<string> {
    if s == "" || s[0] != '#' then None
    else
      var i := Spaces(s, 1);
      var n := KeyEnd(s, i);
      var m := Spaces(s, n);
      if i > 1 && IsKey(s[i..n]) && m > n && OccursAt(NOT_SET, s, m) then Some(s[i..n]) else None
  }

  predicate NotEquals(c: char) {
    c != '='
  }

  /** The index of the first `=`, or the length. */
  function EqualsAt(s: string): (n: nat)
    ensures n <= |s| && '=' !in s[..n] && (n < |s| ==> s[n] == '=')
  {
    Skip(NotEquals, s, 0)
  }

  /** `^(CONFIG_[A-Za-z0-9_]+)=(.*)$` on a line without its newline. */
  function Assigned(s: string): Option<(string, string)> {
    var n := EqualsAt(s);
    if n < |s| && IsKey(s[..n]) then Some((s[..n], s[n + 1..])) else None
  }

  /** What a line without its newline sets; a disabled symbol is set to `n`. */
  function Sets(s: string): Option<(string, string)> {
    if DisabledKey(s).Some? then Some((DisabledKey(s).value, "n")) else Assigned(s)
  }

  // ---------- override values ----------

  /** A value of the `kv` mapping; `Other` is any other YAML value, given by its `str`. */
  datatype Value = BoolValue(b: bool) | IntValue(i: int) | StrValue(s: string) | Other(text: string)

  predicate Quoted(s: string) {
    s != "" && s[0] == '"' && s[|s| - 1] == '"'
  }

  /** The value is written as a "not set" comment. */
  predicate Disables(v: Value) {
    v == BoolValue(false) || v == StrValue("n")
  }

  /** The text after `=` for an enabled value. */
  function ValueText(v: Value): string {
    match v
    case BoolValue(b) => if b then "y" else "n"
    case IntValue(i) => IntText(i)
    case StrValue(s) =>
      if s == "y" || s == "m" || s == "n" || Quoted(s) || StartsWith(s, "0x") || AllDigits(s) then s
      else "\"" + s + "\""
    case Other(text) => "\"" + text + "\""
  }

  /** `_format_kconfig_line`. */
  function FormatKconfigLine(key: string, v: Value): string {
    if Disables(v) then "# " + key + " is not set\n" else key + "=" + ValueText(v) + "\n"
  }

  /** No line breaks in the value. */
  predicate OneLine(v: Value) {
    match v
    case StrValue(s) => '\n' !in s
    case Other(text) => '\n' !in text
    case _ => true
  }

  lemma ValueTextIsOneLine(v: Value)
    requires OneLine(v)
    ensures '\n' !in ValueText(v)
  {
    if v.IntValue? {
      TextHasDigits(10, if v.i < 0 then -v.i else v.i);
    }
  }

  lemma SkipStopsAt(p: char -> bool, s: string, i: nat, n: nat)
    requires i <= n <= |s| && (forall k | i <= k < n :: p(s[k])) && (n < |s| ==> !p(s[n]))
    ensures Skip(p, s, i) == n
  {
  }

  lemma AssignmentSets(key: string, text: string)
    requires IsKey(key) && '\n' !in text
    ensures Sets(key + "=" + text) == Assigned(key + "=" + text) == Some((key, text))
    ensures IsLine(key + "=" + text + "\n") && Chomp(key + "=" + text + "\n") == key + "=" + text
  {
    var s := key + "=" + text;
    assert s[0] == key[..7][0] == 'C';
    assert s[|key|] == '=';
    SkipStopsAt(NotEquals, s, 0, |key|);
    assert s[..|key|] == key && s[|key| + 1..] == text;
    var line := s + "\n";
    assert line[..|line| - 1] == s;
  }

  lemma CommentParts(s: string, key: string)
    requires IsKey(key) && s == "# " + key + " is not set"
    ensures Spaces(s, 1) == 2 && KeyEnd(s, 2) == 2 + |key| && Spaces(s, 2 + |key|) == 3 + |key|
  {
    var n := 2 + |key|;
    assert s[2] == key[..7][0] == 'C';
    SkipStopsAt(IsSpace, s, 1, 2);
    assert forall k | 2 <= k < n :: s[k] == key[k - 2];
    assert s[n] == ' ' && s[n + 1] == 'i';
    SkipStopsAt(IsKeyChar, s, 2, n);
    SkipStopsAt(IsSpace, s, n, n + 1);
  }

  lemma CommentSets(key: string)
    requires IsKey(key)
    ensures Sets("# " + key + " is not set") == Some((key, "n")) && Assigned("# " + key + " is not set").None?
    ensures IsLine("# " + key + " is not set\n") && Chomp("# " + key + " is not set\n") == "# " + key + " is not set"
  {
    var s := "# " + key + " is not set";
    CommentParts(s, key);
    assert s[0] == '#' && s[2..2 + |key|] == key;
    assert s[3 + |key|..3 + |key| + |NOT_SET|] == NOT_SET;
    assert OccursAt(NOT_SET, s, 3 + |key|);
    var line := "# " + key + " is not set\n";
    assert line[..|line| - 1] == s;
    assert forall k | 0 <= k < |s| :: s[k] != '\n';
  }

  /** A "not set" comment for `key`, with blanks around the key and anything after it. */
  ghost predicate CommentFor(s: string, key: string, left: string, right: string, tail: string) {
    && IsKey(key) && left != "" && right != "" && AllBlank(IsSpace, left) && AllBlank(IsSpace, right)
    && s == "#" + left + key + right + "is not set" + tail
  }

  lemma CommentIsRead(s: string, key: string, left: string, right: string, tail: string)
    requires CommentFor(s, key, left, right, tail)
    ensures DisabledKey(s) == Some(key)
  {
    var i := 1 + |left|;
    var n := i + |key|;
    var m := n + |right|;
    assert s[i] == key[..7][0] == 'C';
    assert forall k | 1 <= k < i :: s[k] == left[k - 1];
    assert forall k | i <= k < n :: s[k] == key[k - i];
    assert forall k | n <= k < m :: s[k] == right[k - n];
    assert s[m] == 'i' && s[i..n] == key && s[m..m + |NOT_SET|] == NOT_SET;
    SkipStopsAt(IsSpace, s, 1, i);
    SkipStopsAt(IsKeyChar, s, i, n);
    SkipStopsAt(IsSpace, s, n, m);
  }

  lemma Pieces(s: string, i: nat, n: nat, m: nat, e: nat)
    requires 1 <= i <= n <= m <= e <= |s|
    ensures s == [s[0]] + s[1..i] + s[i..n] + s[n..m] + s[m..e] + s[e..]
  {
  }

  /** The pattern of the "not set" comments is met exactly by these lines. */
  lemma DisabledKeyIff(s: string, key: string)
    ensures DisabledKey(s) == Some(key) <==> exists left, right, tail :: CommentFor(s, key, left, right, tail)
  {
    if DisabledKey(s) == Some(key) {
      var i := Spaces(s, 1);
      var n := KeyEnd(s, i);
      var m := Spaces(s, n);
      var left, right, tail := s[1..i], s[n..m], s[m + |NOT_SET|..];
      assert AllBlank(IsSpace, left) && AllBlank(IsSpace, right) && IsKey(key);
      hide IsSpace, IsKey, IsKeyChar;
      Pieces(s, i, n, m, m + |NOT_SET|);
      assert CommentFor(s, key, left, right, tail);
    }
    hide DisabledKey, CommentFor;
    forall left, right, tail | CommentFor(s, key, left, right, tail) ensures DisabledKey(s) == Some(key) {
      CommentIsRead(s, key, left, right, tail);
    }
  }

  /** And the pattern of the assignments by these. */
  lemma AssignedIff(s: string, key: string, text: string)
    ensures Assigned(s) == Some((key, text)) <==> IsKey(key) && s == key + "=" + text
  {
    if IsKey(key) && s == key + "=" + text {
      assert forall k | 0 <= k < |key| :: s[k] == key[k];
      SkipStopsAt(NotEquals, s, 0, |key|);
      assert s[..|key|] == key && s[|key| + 1..] == text;
    }
    if Assigned(s) == Some((key, text)) {
      assert s == s[..|key|] + [s[|key|]] + s[|key| + 1..];
    }
  }

  /** Symbols are case-sensitive. */
  lemma KeyExamples()
    ensures IsKey("CONFIG_NET_IPv6") && IsKey("CONFIG_0") && !IsKey("CONFIG_") && !IsKey("config_X")
    ensures !IsKey("CONFIG_A-B") && !IsKey("CONFIG_A B")
  {
    assert "CONFIG_NET_IPv6"[..7] == "CONFIG_" == "CONFIG_0"[..7];
    assert "config_X"[..7][0] == 'c';
    assert "CONFIG_A-B"[8] == '-' && "CONFIG_A B"[8] == ' ';
  }

  /** A text is written as it stands iff it is a tristate, quoted, or starts or looks like a number. */
  lemma WrittenAsItStandsIff(key: string, s: string)
    ensures FormatKconfigLine(key, StrValue(s)) == key + "=" + s + "\n" <==>
      s == "y" || s == "m" || (s != "" && s[0] == '"' == s[|s| - 1]) || StartsWith(s, "0x") || AllDigits(s)
    ensures FormatKconfigLine(key, StrValue(s)) == "# " + key + " is not set\n" <== s == "n"
  {
    var q := "\"" + s + "\"";
    var plain, quoted := key + "=" + s + "\n", key + "=" + q + "\n";
    assert |quoted| == |plain| + 2;
    if s == "n" {
      assert |"# " + key + " is not set\n"| == |key| + 14;
    }
  }

  /** The value the reader and the validator see for an override. */
  function Requested(v: Value): string {
    if Disables(v) then "n" else ValueText(v)
  }

  /** A formatted line is one line, and it sets the key to the requested value. */
  lemma FormattedLineSets(key: string, v: Value)
    requires IsKey(key) && OneLine(v)
    ensures IsLine(FormatKconfigLine(key, v))
    ensures Sets(Chomp(FormatKconfigLine(key, v))) == Some((key, Requested(v)))
    ensures Assigned(Chomp(FormatKconfigLine(key, v))) == if Disables(v) then None else Some((key, Requested(v)))
  {
    if Disables(v) {
      CommentSets(key);
    } else {
      ValueTextIsOneLine(v);
      AssignmentSets(key, ValueText(v));
    }
  }
}

/**
 * Rewriting a list of lines against a table of replacement lines, for any two lexers: `key`
 * tells which symbol a line sets for the rewriter, `read` what a reader takes from it.
 */
module LineRewriting {
  import opened Options
  import opened Lines

  type Setting = Option<(string, string)>

  /** The last line that sets a name wins. */
  function Values(read: string -> Setting, lines: seq<string>): map<string, string> {
    if lines == [] then map[]
    else
      var rest := Values(read, lines[..|lines| - 1]);
      var setting := read(lines[|lines| - 1]);
      if setting.Some? then rest[setting.value.0 := setting.value.1] else rest
  }

  lemma OneMoreLine(read: string -> Setting, lines: seq<string>, i: nat)
    requires i < |lines|
    ensures var before, setting := Values(read, lines[..i]), read(lines[i]);
      Values(read, lines[..i + 1]) == if setting.Some? then before[setting.value.0 := setting.value.1] else before
  {
    assert lines[..i + 1][..i] == lines[..i] && lines[..i + 1][i] == lines[i];
  }

  /** Line `i` is the last one that sets `name`. */
  ghost predicate LastSets(read: string -> Setting, lines: seq<string>, i: nat, name: string) {
    && i < |lines| && read(lines[i]).Some? && read(lines[i]).value.0 == name
    && forall j | i < j < |lines| :: read(lines[j]).None? || read(lines[j]).value.0 != name
  }

  /** The value of a name is that of the last line that sets it. */
  lemma {:induction false} ValuesIff(read: string -> Setting, lines: seq<string>, name: string, text: string)
    ensures name in Values(read, lines) && Values(read, lines)[name] == text <==>
      exists i: nat :: LastSets(read, lines, i, name) && read(lines[i]).value.1 == text
  {
    if lines != [] {
      var n := |lines| - 1;
      var front := lines[..n];
      ValuesIff(read, front, name, text);
      hide Values;
      OneMoreLine(read, lines, n);
      assert lines[..n + 1] == lines;
      if read(lines[n]).Some? && read(lines[n]).value.0 == name {
        assert LastSets(read, lines, n, name);
      } else {
        forall i: nat | i < n ensures LastSets(read, lines, i, name) <==> LastSets(read, front, i, name) {
          assert forall j | 0 <= j < n :: front[j] == lines[j];
        }
        assert forall i: nat :: LastSets(read, lines, i, name) ==> i < n;
      }
    }
  }

  predicate Hits(key: string -> Setting, table: map<string, string>, line: string) {
    key(line).Some? && key(line).value.0 in table
  }

  function RewriteLine(key: string -> Setting, table: map<string, string>, line: string): string {
    if Hits(key, table, line) then table[key(line).value.0] else line
  }

  function RewriteAll(key: string -> Setting, table: map<string, string>, lines: seq<string>): (r: seq<string>)
    ensures |r| == |lines| && forall i | 0 <= i < |r| :: r[i] == RewriteLine(key, table, lines[i])
  {
    if lines == [] then []
    else RewriteAll(key, table, lines[..|lines| - 1]) + [RewriteLine(key, table, lines[|lines| - 1])]
  }

  /** The names of the table that some line sets. */
  function Touched(key: string -> Setting, table: map<string, string>, lines: seq<string>): set<string> {
    if lines == [] then {}
    else
      var line := lines[|lines| - 1];
      Touched(key, table, lines[..|lines| - 1]) + if Hits(key, table, line) then {key(line).value.0} else {}
  }

  /** The table's lines for the names nothing set yet, in the order of `names`. */
  function Appended(table: map<string, string>, touched: set<string>, names: seq<string>): seq<string>
    requires forall k | k in names :: k in table
  {
    if names == [] then []
    else
      var name := names[|names| - 1];
      Appended(table, touched, names[..|names| - 1]) + if name in touched then [] else [table[name]]
  }

  function RewriteLines(key: string -> Setting, table: map<string, string>, names: seq<string>, lines: seq<string>)
    : seq<string>
    requires forall k | k in names :: k in table
  {
    RewriteAll(key, table, lines) + Appended(table, Touched(key, table, lines), names)
  }

  /** The table's lines are read as `wanted`; a name without a wanted value is not read at all. */
  ghost predicate ReadAsWanted(read: string -> Setting, table: map<string, string>, wanted: map<string, string>) {
    && (forall k | k in wanted :: k in table)
    && (forall k | k in table :: read(table[k]) == if k in wanted then Some((k, wanted[k])) else None)
  }

  /** Where the reader takes a name of the table, or the rewriter acts, the two agree on the name. */
  ghost predicate Agree(key: string -> Setting, read: string -> Setting, table: map<string, string>, line: string) {
    read(line).Some? && (read(line).value.0 in table || Hits(key, table, line)) ==>
      key(line).Some? && key(line).value.0 == read(line).value.0
  }

  ghost predicate AgreeOnAll(
    key: string -> Setting, read: string -> Setting, table: map<string, string>, lines: seq<string>)
  {
    forall i | 0 <= i < |lines| :: Agree(key, read, table, lines[i])
  }

  ghost function Restrict(m: map<string, string>, names: set<string>): map<string, string> {
    map k | k in m && k in names :: m[k]
  }

  lemma {:induction false} ValuesConcat(read: string -> Setting, a: seq<string>, b: seq<string>)
    ensures Values(read, a + b) == Values(read, a) + Values(read, b)
  {
    if b == [] {
      assert a + b == a;
    } else {
      var n := |b| - 1;
      ValuesConcat(read, a, b[..n]);
      assert (a + b)[..|a| + n] == a + b[..n];
    }
  }

  lemma {:induction false} TouchedInTable(key: string -> Setting, table: map<string, string>, lines: seq<string>)
    ensures forall k | k in Touched(key, table, lines) :: k in table
  {
    if lines != [] {
      TouchedInTable(key, table, lines[..|lines| - 1]);
    }
  }

  lemma RestrictMore(base: map<string, string>, wanted: map<string, string>, names: set<string>, k: string)
    ensures base + Restrict(wanted, names + {k})
         == if k in wanted then (base + Restrict(wanted, names))[k := wanted[k]] else base + Restrict(wanted, names)
  {
    assert k !in wanted ==> Restrict(wanted, names + {k}) == Restrict(wanted, names);
    assert k in wanted ==> Restrict(wanted, names + {k}) == Restrict(wanted, names)[k := wanted[k]];
  }

  lemma UpdateRemoved(m: map<string, string>, names: set<string>, k: string, x: string)
    requires k in names
    ensures m[k := x] - names == m - names
  {
  }

  lemma UpdateKept(m: map<string, string>, names: set<string>, over: map<string, string>, k: string, x: string)
    requires k !in names && k !in over
    ensures (m[k := x] - names) + over == ((m - names) + over)[k := x]
  {
  }

  /** The effect of one setting. */
  function Set(m: map<string, string>, setting: Setting): map<string, string> {
    if setting.Some? then m[setting.value.0 := setting.value.1] else m
  }

  lemma ReplacedLine(
    key: string -> Setting, read: string -> Setting, table: map<string, string>, wanted: map<string, string>,
    line: string, m: map<string, string>, touched: set<string>)
    requires ReadAsWanted(read, table, wanted) && Agree(key, read, table, line) && Hits(key, table, line)
    ensures Set((m - table.Keys) + Restrict(wanted, touched), read(RewriteLine(key, table, line)))
         == (Set(m, read(line)) - table.Keys) + Restrict(wanted, touched + {key(line).value.0})
  {
    var k := key(line).value.0;
    RestrictMore(m - table.Keys, wanted, touched, k);
    if read(line).Some? {
      UpdateRemoved(m, table.Keys, k, read(line).value.1);
    }
  }

  lemma KeptLine(
    key: string -> Setting, read: string -> Setting, table: map<string, string>, wanted: map<string, string>,
    line: string, m: map<string, string>, touched: set<string>)
    requires ReadAsWanted(read, table, wanted) && Agree(key, read, table, line) && !Hits(key, table, line)
    ensures Set((m - table.Keys) + Restrict(wanted, touched), read(line))
         == (Set(m, read(line)) - table.Keys) + Restrict(wanted, touched)
  {
    var setting := read(line);
    if setting.Some? {
      UpdateKept(m, table.Keys, Restrict(wanted, touched), setting.value.0, setting.value.1);
    }
  }

  lemma {:induction false} RewrittenValues(
    key: string -> Setting, read: string -> Setting, table: map<string, string>, wanted: map<string, string>,
    lines: seq<string>)
    requires ReadAsWanted(read, table, wanted) && AgreeOnAll(key, read, table, lines)
    ensures Values(read, RewriteAll(key, table, lines))
         == (Values(read, lines) - table.Keys) + Restrict(wanted, Touched(key, table, lines))
  {
    if lines == [] {
      assert Restrict(wanted, {}) == map[];
    } else {
      var n, line := |lines| - 1, lines[|lines| - 1];
      assert Agree(key, read, table, line);
      RewrittenValues(key, read, table, wanted, lines[..n]);
      var rewritten := RewriteAll(key, table, lines);
      assert rewritten[..n] == RewriteAll(key, table, lines[..n]) && rewritten[n] == RewriteLine(key, table, line);
      var before, touched := Values(read, lines[..n]), Touched(key, table, lines[..n]);
      assert Values(read, rewritten) == Set(Values(read, rewritten[..n]), read(rewritten[n]));
      assert Values(read, lines) == Set(before, read(line));
      if Hits(key, table, line) {
        ReplacedLine(key, read, table, wanted, line, before, touched);
      } else {
        KeptLine(key, read, table, wanted, line, before, touched);
        assert touched + {} == touched;
      }
    }
  }

  lemma {:induction false} AppendedValues(
    read: string -> Setting, table: map<string, string>, wanted: map<string, string>, touched: set<string>,
    names: seq<string>)
    requires ReadAsWanted(read, table, wanted) && forall k | k in names :: k in table
    ensures Values(read, Appended(table, touched, names)) == Restrict(wanted, Remaining(names, touched))
  {
    if names == [] {
      assert Restrict(wanted, {}) == map[];
    } else {
      var n, name := |names| - 1, names[|names| - 1];
      AppendedValues(read, table, wanted, touched, names[..n]);
      var before := Appended(table, touched, names[..n]);
      if name !in touched {
        assert (before + [table[name]])[..|before|] == before;
        RestrictMore(map[], wanted, Remaining(names[..n], touched), name);
        EmptyPlus(Restrict(wanted, Remaining(names[..n], touched)));
        EmptyPlus(Restrict(wanted, Remaining(names, touched)));
      } else {
        assert Appended(table, touched, names) == before;
        assert Remaining(names, touched) == Remaining(names[..n], touched);
      }
    }
  }

  lemma EmptyPlus(m: map<string, string>)
    ensures map[] + m == m
  {
  }

  /** The names not yet set. */
  function Remaining(names: seq<string>, touched: set<string>): (r: set<string>)
    ensures forall k :: k in r <==> k in names && k !in touched
  {
    if names == [] then {}
    else
      var name := names[|names| - 1];
      assert names == names[..|names| - 1] + [name];
      Remaining(names[..|names| - 1], touched) + if name in touched then {} else {name}
  }

  /** After the rewrite the reader sees the wanted values, and everything else as before. */
  lemma RewriteThenRead(
    key: string -> Setting, read: string -> Setting, table: map<string, string>, wanted: map<string, string>,
    names: seq<string>, lines: seq<string>)
    requires ReadAsWanted(read, table, wanted) && AgreeOnAll(key, read, table, lines)
    requires forall k :: k in names <==> k in table
    ensures Values(read, RewriteLines(key, table, names, lines)) == (Values(read, lines) - table.Keys) + wanted
  {
    var touched := Touched(key, table, lines);
    RewrittenValues(key, read, table, wanted, lines);
    AppendedValues(read, table, wanted, touched, names);
    ValuesConcat(read, RewriteAll(key, table, lines), Appended(table, touched, names));
    TouchedInTable(key, table, lines);
    Cover(Values(read, lines) - table.Keys, wanted, touched, Remaining(names, touched));
  }

  lemma Cover(base: map<string, string>, wanted: map<string, string>, a: set<string>, b: set<string>)
    requires forall k | k in wanted :: k in a || k in b
    ensures base + Restrict(wanted, a) + Restrict(wanted, b) == base + wanted
  {
  }

  // ---------- where a value comes from ----------

  lemma {:induction false} ValueHasLine(read: string -> Setting, lines: seq<string>, k: string)
    requires k in Values(read, lines)
    ensures exists i | 0 <= i < |lines| :: read(lines[i]).Some? && read(lines[i]).value.0 == k
  {
    var n := |lines| - 1;
    if !(read(lines[n]).Some? && read(lines[n]).value.0 == k) {
      ValueHasLine(read, lines[..n], k);
      var i :| 0 <= i < n && read(lines[..n][i]).Some? && read(lines[..n][i]).value.0 == k;
      assert lines[i] == lines[..n][i];
    }
  }

  /** The first line appended is for a name nothing set; the others are for other names. */
  lemma {:induction false} FirstAppended(table: map<string, string>, touched: set<string>, names: seq<string>)
    returns (k: string)
    requires (forall k | k in names :: k in table) && (forall i, j | 0 <= i < j < |names| :: names[i] != names[j])
    requires exists k | k in names :: k !in touched
    ensures k in names && k !in touched
    ensures var added := Appended(table, touched, names);
      && added != [] && added[0] == table[k]
      && forall i | 1 <= i < |added| :: exists q | q in names :: q != k && added[i] == table[q]
  {
    var n := |names| - 1;
    var before := names[..n];
    assert names == before + [names[n]];
    assert Appended(table, touched, names)
      == Appended(table, touched, before) + if names[n] in touched then [] else [table[names[n]]];
    hide Appended;
    if exists q | q in before :: q !in touched {
      k := FirstAppended(table, touched, before);
      var added := Appended(table, touched, names);
      forall i | 1 <= i < |added| ensures exists q | q in names :: q != k && added[i] == table[q] {
        if i < |Appended(table, touched, before)| {
          assert added[i] == Appended(table, touched, before)[i];
          var q :| q in before && q != k && added[i] == table[q];
          assert q in names;
        } else {
          assert added[i] == table[names[n]] && names[n] in names;
        }
      }
    } else {
      k := names[n];
      NothingAppended(table, touched, before);
    }
  }

  /** All but the last of the rewritten lines are terminated; a last line that is not hit stays. */
  lemma KeptFront(key: string -> Setting, table: map<string, string>, lines: seq<string>)
    requires lines != [] && AreLines(lines) && forall k | k in table :: IsLine(table[k])
    requires !Hits(key, table, lines[|lines| - 1])
    ensures var rewritten := RewriteAll(key, table, lines);
      && rewritten[|lines| - 1] == lines[|lines| - 1]
      && forall i | 0 <= i < |lines| - 1 :: IsLine(rewritten[i])
  {
    hide IsLine, IsFragment;
    var rewritten := RewriteAll(key, table, lines);
    forall i | 0 <= i < |lines| - 1 ensures IsLine(rewritten[i]) {
      assert rewritten[i] == RewriteLine(key, table, lines[i]);
    }
  }

  // ---------- the new lines are lines ----------

  lemma {:induction false} AppendedAreLines(table: map<string, string>, touched: set<string>, names: seq<string>)
    requires (forall k | k in names :: k in table) && forall k | k in table :: IsLine(table[k])
    ensures forall i | 0 <= i < |Appended(table, touched, names)| :: IsLine(Appended(table, touched, names)[i])
    ensures Appended(table, touched, names) == [] <==> forall k | k in names :: k in touched
  {
    if names != [] {
      var n := |names| - 1;
      AppendedAreLines(table, touched, names[..n]);
      assert names == names[..n] + [names[n]];
    }
  }

  /** An unterminated last line is harmless if it is replaced, or if nothing comes after it. */
  lemma NewLinesAreLines(key: string -> Setting, table: map<string, string>, names: seq<string>, lines: seq<string>)
    requires AreLines(lines) && (forall k | k in names :: k in table) && forall k | k in table :: IsLine(table[k])
    requires lines == [] || IsLine(lines[|lines| - 1]) || Hits(key, table, lines[|lines| - 1])
      || forall k | k in names :: k in Touched(key, table, lines)
    ensures AreLines(RewriteLines(key, table, names, lines))
  {
    var rewritten, added := RewriteAll(key, table, lines), Appended(table, Touched(key, table, lines), names);
    AppendedAreLines(table, Touched(key, table, lines), names);
    assert forall i | 0 <= i < |lines| :: rewritten[i] == lines[i] || IsLine(rewritten[i]);
    if added == [] {
      assert rewritten + added == rewritten;
    }
  }

  // ---------- rewriting again ----------

  /** Each line of the table sets its own name. */
  ghost predicate KeyedByName(key: string -> Setting, table: map<string, string>) {
    forall k | k in table :: key(table[k]).Some? && key(table[k]).value.0 == k
  }

  lemma RewriteLineTwice(key: string -> Setting, table: map<string, string>, line: string)
    requires KeyedByName(key, table)
    ensures RewriteLine(key, table, RewriteLine(key, table, line)) == RewriteLine(key, table, line)
    ensures Hits(key, table, RewriteLine(key, table, line)) <==> Hits(key, table, line)
  {
  }

  lemma {:induction false} TouchedIff(key: string -> Setting, table: map<string, string>, lines: seq<string>, k: string)
    ensures k in Touched(key, table, lines) <==>
      exists i | 0 <= i < |lines| :: Hits(key, table, lines[i]) && key(lines[i]).value.0 == k
  {
    if lines != [] {
      var n := |lines| - 1;
      TouchedIff(key, table, lines[..n], k);
      if k in Touched(key, table, lines[..n]) {
        var i :| 0 <= i < n && Hits(key, table, lines[..n][i]) && key(lines[..n][i]).value.0 == k;
        assert Hits(key, table, lines[i]);
      }
      if i :| 0 <= i < |lines| && Hits(key, table, lines[i]) && key(lines[i]).value.0 == k {
        assert i < n ==> lines[..n][i] == lines[i];
      }
    }
  }

  lemma {:induction false} AppendedNames(
    table: map<string, string>, touched: set<string>, names: seq<string>, k: string)
    requires (forall k | k in names :: k in table) && k in names
    ensures k !in touched ==> table[k] in Appended(table, touched, names)
    ensures forall line | line in Appended(table, touched, names) :: exists k | k in table :: line == table[k]
  {
    var n := |names| - 1;
    if names[..n] != [] && (exists j | 0 <= j < n :: names[j] == k) {
      AppendedNames(table, touched, names[..n], k);
    } else if names[..n] != [] {
      AppendedNames(table, touched, names[..n], names[0]);
    }
  }

  lemma NewLinesAreKept(key: string -> Setting, table: map<string, string>, names: seq<string>, lines: seq<string>)
    requires KeyedByName(key, table) && forall k :: k in names <==> k in table
    ensures var once := RewriteLines(key, table, names, lines); RewriteAll(key, table, once) == once
  {
    var touched := Touched(key, table, lines);
    var added := Appended(table, touched, names);
    var once := RewriteLines(key, table, names, lines);
    forall i | 0 <= i < |once| ensures RewriteLine(key, table, once[i]) == once[i] {
      if i < |lines| {
        RewriteLineTwice(key, table, lines[i]);
      } else {
        var line := once[i];
        assert line == added[i - |lines|] && line in added;
        AppendedNames(table, touched, names, if names == [] then "" else names[0]);
      }
    }
  }

  lemma NewLinesTouchAll(
    key: string -> Setting, table: map<string, string>, names: seq<string>, lines: seq<string>, k: string)
    requires KeyedByName(key, table) && (forall k :: k in names <==> k in table) && k in table
    ensures k in Touched(key, table, RewriteLines(key, table, names, lines))
  {
    hide Touched, Appended;
    var touched := Touched(key, table, lines);
    var once := RewriteLines(key, table, names, lines);
    TouchedIff(key, table, lines, k);
    TouchedIff(key, table, once, k);
    if k in touched {
      var i :| 0 <= i < |lines| && Hits(key, table, lines[i]) && key(lines[i]).value.0 == k;
      assert once[i] == table[k];
    } else {
      AppendedNames(table, touched, names, k);
      var j :| 0 <= j < |Appended(table, touched, names)| && Appended(table, touched, names)[j] == table[k];
      assert once[|lines| + j] == table[k];
    }
  }

  /** Rewriting a second time changes nothing. */
  lemma RewriteTwice(key: string -> Setting, table: map<string, string>, names: seq<string>, lines: seq<string>)
    requires KeyedByName(key, table) && forall k :: k in names <==> k in table
    ensures var once := RewriteLines(key, table, names, lines); RewriteLines(key, table, names, once) == once
  {
    hide Touched, RewriteAll, RewriteLine, Hits, Appended;
    var once := RewriteLines(key, table, names, lines);
    NewLinesAreKept(key, table, names, lines);
    forall k | k in table ensures k in Touched(key, table, once) {
      NewLinesTouchAll(key, table, names, lines, k);
    }
    NothingAppended(table, Touched(key, table, once), names);
  }

  lemma {:induction false} NothingAppended(table: map<string, string>, touched: set<string>, names: seq<string>)
    requires (forall k | k in names :: k in table) && forall k | k in names :: k in touched
    ensures Appended(table, touched, names) == []
  {
    if names != [] {
      NothingAppended(table, touched, names[..|names| - 1]);
    }
  }
}

/** The in-file rewriter, the reader and the validator of `.config` files. */
module KconfigFile {
  import opened Options
  import opened Numerals
  import opened LineRewriting
  import opened Text
  import opened Lines
  import opened KconfigLine

  /** The `kv` overrides: a dictionary with its insertion order. */
  datatype Overrides = Overrides(keys: seq<string>, values: map<string, Value>)
  {
    ghost predicate Valid() {
      && (forall i, j | 0 <= i < j < |keys| :: keys[i] != keys[j])
      && (forall k :: k in keys <==> k in values)
      && (forall k | k in values :: IsKey(k) && OneLine(values[k]))
    }
  }

  // ---------- matching a line with and without its newline ----------

  lemma AssignedKey(s: string, key: string)
    requires IsKey(key)
    ensures StartsWith(s, key + "=") <==> Sets(s).Some? && Sets(s).value.0 == key && s[0] != '#'
  {
    assert key[0] == key[..7][0] == 'C';
    if StartsWith(s, key + "=") {
      assert s[|key|] == s[..|key| + 1][|key|] == '=' && s[0] == s[..|key| + 1][0];
      assert forall k | 0 <= k < |key| :: s[k] == s[..|key| + 1][k] == key[k];
      SkipStopsAt(NotEquals, s, 0, |key|);
      assert s[..|key|] == key;
    }
    if Sets(s).Some? && Sets(s).value.0 == key && s[0] != '#' {
      assert s[..|key| + 1] == key + "=";
    }
  }

  lemma SkipWithNewline(p: char -> bool, s: string, i: nat)
    requires i <= |s|
    ensures var n := Skip(p, s, i); Skip(p, s + "\n", i) == if n < |s| || !p('\n') then n else n + 1
  {
    var n := Skip(p, s, i);
    SkipStopsAt(p, s + "\n", i, if n < |s| || !p('\n') then n else n + 1);
  }

  lemma OccursWithNewline(word: string, s: string, m: nat)
    requires word != "" && word[|word| - 1] != '\n'
    ensures OccursAt(word, s + "\n", m) <==> OccursAt(word, s, m)
  {
    var t := s + "\n";
    if OccursAt(word, t, m) {
      assert t[m..m + |word|][|word| - 1] == t[m + |word| - 1];
      assert s[m..m + |word|] == t[m..m + |word|];
    }
    if OccursAt(word, s, m) {
      assert t[m..m + |word|] == s[m..m + |word|];
    }
  }

  lemma NewlineIsSpace()
    ensures !IsKeyChar('\n') && IsSpace('\n')
  {
  }

  lemma DisabledWithNewline(s: string)
    ensures DisabledKey(s + "\n") == DisabledKey(s)
  {
    var t := s + "\n";
    hide Skip, IsSpace, IsKeyChar;
    assert !IsKeyChar('\n') && IsSpace('\n') by { NewlineIsSpace(); }
    if s != "" && s[0] == '#' {
      var i := Spaces(s, 1);
      SkipWithNewline(IsSpace, s, 1);
      var n := KeyEnd(s, i);
      SkipWithNewline(IsKeyChar, s, i);
      SkipWithNewline(IsSpace, s, n);
      assert NOT_SET[|NOT_SET| - 1] == 't';
      OccursWithNewline(NOT_SET, s, Spaces(s, n));
      assert t[i..n] == s[i..n];
    }
  }

  /** What a raw line sets, as the reader sees it. */
  function KeySetting(line: string): Setting {
    Sets(Chomp(line))
  }

  /** The test `_replace_kconfig_line` makes on a raw line. */
  predicate MatchesKey(line: string, key: string) {
    StartsWith(line, key + "=") || DisabledKey(line) == Some(key)
  }

  lemma SetsKeyIff(s: string, key: string)
    requires IsKey(key)
    ensures Sets(s).Some? && Sets(s).value.0 == key <==> StartsWith(s, key + "=") || DisabledKey(s) == Some(key)
  {
    AssignedKey(s, key);
    assert key[..7][0] == key[0];
  }

  lemma StartsWithNewline(s: string, key: string)
    ensures StartsWith(s + "\n", key + "=") <==> StartsWith(s, key + "=")
  {
    var line, n := s + "\n", |key| + 1;
    if StartsWith(line, key + "=") {
      assert line[n - 1] == line[..n][n - 1] == '=';
      assert s[..n] == line[..n];
    }
    if StartsWith(s, key + "=") {
      assert line[..n] == s[..n];
    }
  }

  lemma MatchesItsKey(line: string, key: string)
    requires IsKey(key) && (IsLine(line) || IsFragment(line))
    ensures MatchesKey(line, key) <==> KeySetting(line).Some? && KeySetting(line).value.0 == key
  {
    var s := Chomp(line);
    SetsKeyIff(s, key);
    if IsLine(line) {
      assert line == s + "\n";
      DisabledWithNewline(s);
      StartsWithNewline(s, key);
    } else {
      assert line[|line| - 1] in line;
    }
  }

  // ---------- rewriting ----------

  /** The line each override writes. */
  function Table(ov: Overrides): (t: map<string, string>)
    ensures t.Keys == ov.values.Keys
  {
    map k | k in ov.values :: FormatKconfigLine(k, ov.values[k])
  }

  function NewLines(ov: Overrides, lines: seq<string>): seq<string>
    requires forall k | k in ov.keys :: k in ov.values
  {
    RewriteLines(KeySetting, Table(ov), ov.keys, lines)
  }

  /** The text of the rewritten file. */
  function Rewrite(ov: Overrides, content: string): string
    requires forall k | k in ov.keys :: k in ov.values
  {
    if ov.keys == [] then content else WriteLines(NewLines(ov, ReadLines(content)))
  }

  /** `_replace_kconfig_line`: the first override that matches takes the line. */
  method ReplaceKconfigLine(ov: Overrides, line: string, replaced: set<string>, updated: seq<string>)
    returns (hit: bool, replaced': set<string>, updated': seq<string>)
    requires ov.Valid() && (IsLine(line) || IsFragment(line))
    ensures hit == Hits(KeySetting, Table(ov), line)
    ensures hit ==> replaced' == replaced + {KeySetting(line).value.0}
    ensures hit ==> updated' == updated + [RewriteLine(KeySetting, Table(ov), line)]
    ensures !hit ==> replaced' == replaced && updated' == updated
  {
    hide Sets, KeySetting, MatchesKey, FormatKconfigLine, IsLine, IsFragment, IsKey, OneLine;
    replaced', updated' := replaced, updated;
    for i := 0 to |ov.keys|
      invariant forall j | 0 <= j < i :: !(KeySetting(line).Some? && KeySetting(line).value.0 == ov.keys[j])
    {
      var key := ov.keys[i];
      MatchesItsKey(line, key);
      if MatchesKey(line, key) {
        updated' := updated + [FormatKconfigLine(key, ov.values[key])];
        replaced' := replaced + {key};
        return true, replaced', updated';
      }
    }
    hit := false;
  }

  /** The loop over the existing lines. */
  method ReplaceLines(ov: Overrides, lines: seq<string>) returns (updated: seq<string>, replaced: set<string>)
    requires ov.Valid() && AreLines(lines)
    ensures updated == RewriteAll(KeySetting, Table(ov), lines)
    ensures replaced == Touched(KeySetting, Table(ov), lines)
  {
    hide Sets, KeySetting, FormatKconfigLine, Table, IsLine, IsFragment;
    updated, replaced := [], {};
    for i := 0 to |lines|
      invariant updated == RewriteAll(KeySetting, Table(ov), lines[..i])
      invariant replaced == Touched(KeySetting, Table(ov), lines[..i])
    {
      ghost var sofar := lines[..i + 1];
      assert sofar[..i] == lines[..i] && sofar[i] == lines[i];
      var hit;
      hit, replaced, updated := ReplaceKconfigLine(ov, lines[i], replaced, updated);
      if !hit {
        updated := updated + [lines[i]];
      }
    }
    assert lines[..|lines|] == lines;
  }

  /** The loop over the overrides no line was found for. */
  method AppendMissing(ov: Overrides, replaced: set<string>) returns (added: seq<string>)
    requires ov.Valid()
    ensures added == Appended(Table(ov), replaced, ov.keys)
  {
    hide FormatKconfigLine, IsKey, OneLine;
    added := [];
    for i := 0 to |ov.keys|
      invariant added == Appended(Table(ov), replaced, ov.keys[..i])
    {
      var key := ov.keys[i];
      ghost var sofar := ov.keys[..i + 1];
      assert sofar[..i] == ov.keys[..i] && sofar[i] == key;
      if key !in replaced {
        added := added + [FormatKconfigLine(key, ov.values[key])];
      }
    }
    assert ov.keys[..|ov.keys|] == ov.keys;
  }

  /** `_apply_kconfig_overrides` without an external tool. */
  method ApplyKconfigOverrides(ov: Overrides, content: string) returns (r: string)
    requires ov.Valid()
    ensures r == Rewrite(ov, content)
  {
    if ov.keys == [] { return content; }
    var lines := ReadLines(content);
    ReadGivesLines(content);
    var updated, replaced := ReplaceLines(ov, lines);
    var added := AppendMissing(ov, replaced);
    r := WriteLines(updated + added);
  }

  // ---------- reading ----------

  method ReadKconfigValues(content: string) returns (values: map<string, string>)
    ensures values == Values(KeySetting, ReadLines(content))
  {
    values := map[];
    var lines := ReadLines(content);
    for i := 0 to |lines|
      invariant values == Values(KeySetting, lines[..i])
    {
      hide Values, DisabledKey, Assigned, Chomp;
      OneMoreLine(KeySetting, lines, i);
      var line := Chomp(lines[i]);
      var disabled := DisabledKey(line);
      if disabled.Some? {
        values := values[disabled.value := "n"];
      } else {
        var assignment := Assigned(line);
        if assignment.Some? {
          values := values[assignment.value.0 := assignment.value.1];
        }
      }
    }
    assert lines[..|lines|] == lines;
  }

  /** What the overrides ask for. */
  ghost function Requests(ov: Overrides): (r: map<string, string>)
    ensures r.Keys == ov.values.Keys
  {
    map k | k in ov.values :: Requested(ov.values[k])
  }

  lemma TableHasLines(ov: Overrides)
    requires ov.Valid()
    ensures forall k | k in Table(ov) :: IsLine(Table(ov)[k])
  {
    forall k | k in ov.values ensures IsLine(Table(ov)[k]) {
      FormattedLineSets(k, ov.values[k]);
    }
  }

  lemma TableReadsAsRequested(ov: Overrides)
    requires ov.Valid()
    ensures ReadAsWanted(KeySetting, Table(ov), Requests(ov)) && KeyedByName(KeySetting, Table(ov))
    ensures forall k | k in Table(ov) :: IsLine(Table(ov)[k])
  {
    forall k | k in ov.values
      ensures IsLine(Table(ov)[k]) && KeySetting(Table(ov)[k]) == Some((k, Requested(ov.values[k])))
    {
      FormattedLineSets(k, ov.values[k]);
    }
  }

  // ---------- when the file can be rewritten safely ----------

  predicate Terminated(content: string) {
    content == "" || content[|content| - 1] == '\n'
  }

  /** Some override is set nowhere in the file, so a line is appended for it. */
  predicate Appends(ov: Overrides, lines: seq<string>) {
    exists k | k in ov.keys :: k !in Touched(KeySetting, Table(ov), lines)
  }

  /** Nothing is appended to an unterminated last line that stays. */
  predicate Intact(ov: Overrides, content: string) {
    var lines := ReadLines(content);
    Terminated(content) || Hits(KeySetting, Table(ov), lines[|lines| - 1]) || !Appends(ov, lines)
  }

  lemma {:induction false} LastLineDecides(content: string)
    ensures (content == "" <==> ReadLines(content) == [])
    ensures content != "" ==> (Terminated(content) <==> IsLine(ReadLines(content)[|ReadLines(content)| - 1]))
    decreases |content|
  {
    if content != "" {
      var line, rest := FirstLine(content);
      LastLineDecides(rest);
      assert ReadLines("") == [];
      hide ReadLines;
      if rest == "" {
        assert content == line && line[|line| - 1] in line;
      } else {
        assert content[|content| - 1] == rest[|rest| - 1];
      }
    }
  }

  /** Then the rewritten file has exactly the new lines. */
  lemma RewriteReadsBack(ov: Overrides, content: string)
    requires ov.Valid() && ov.keys != [] && Intact(ov, content)
    ensures ReadLines(Rewrite(ov, content)) == NewLines(ov, ReadLines(content))
  {
    hide KeySetting, FormatKconfigLine;
    var lines := ReadLines(content);
    ReadGivesLines(content);
    LastLineDecides(content);
    TableReadsAsRequested(ov);
    NewLinesAreLines(KeySetting, Table(ov), ov.keys, lines);
    ReadBack(NewLines(ov, lines));
  }

  lemma AgreesWithItself(ov: Overrides, lines: seq<string>)
    ensures AgreeOnAll(KeySetting, KeySetting, Table(ov), lines)
  {
  }

  /**
   * Rewriting then reading gives every override its requested value, and every other symbol the
   * value it had before.
   */
  lemma RewriteThenReadBack(ov: Overrides, content: string)
    requires ov.Valid() && Intact(ov, content)
    ensures Values(KeySetting, ReadLines(Rewrite(ov, content)))
         == Values(KeySetting, ReadLines(content)) + Requests(ov)
  {
    hide KeySetting, FormatKconfigLine, Requested, Values, RewriteAll, Touched, Appended, ReadLines;
    hide IsKey, OneLine, Intact;
    var lines, table, wanted := ReadLines(content), Table(ov), Requests(ov);
    if ov.keys == [] {
      assert wanted == map[] by {
        assert forall k | k in wanted :: k in ov.keys;
      }
    } else {
      RewriteReadsBack(ov, content);
      TableReadsAsRequested(ov);
      AgreesWithItself(ov, lines);
      RewriteThenRead(KeySetting, KeySetting, table, wanted, ov.keys, lines);
    }
  }

  /** Rewriting twice equals rewriting once, even with several lines for one symbol. */
  lemma RewriteIsIdempotent(ov: Overrides, content: string)
    requires ov.Valid() && Intact(ov, content)
    ensures Rewrite(ov, Rewrite(ov, content)) == Rewrite(ov, content)
  {
    hide Sets, FormatKconfigLine;
    if ov.keys != [] {
      RewriteReadsBack(ov, content);
      TableReadsAsRequested(ov);
      RewriteTwice(KeySetting, Table(ov), ov.keys, ReadLines(content));
    }
  }

  // ---------- the rewrite of a file that is not intact ----------

  /** A text glued to an unterminated line that does not set `key` does not set it either. */
  lemma GluedAssignment(part: string, key: string, rest: string)
    requires part != "" && IsKey(key) && !StartsWith(part, key + "=")
    requires StartsWith(rest, key + "=") || (rest != "" && rest[0] == '#')
    ensures !StartsWith(part + rest, key + "=")
  {
    var whole, want := part + rest, key + "=";
    if |part| >= |want| {
      assert whole[..|want|] == part[..|want|];
    } else if |whole| >= |want| {
      var k := if rest[0] == '#' then |part| else |key|;
      assert rest[0] != '#' ==> rest[k - |part|] == rest[..|want|][k - |part|] == key[k - |part|];
      assert whole[..|want|][k] == whole[k] == rest[k - |part|] != want[k];
    }
  }

  /** A disabling comment in `s`: where its parts are. */
  ghost predicate CommentAt(s: string, i: nat, n: nat, m: nat) {
    && 1 < i <= n < m <= |s| && s[0] == '#'
    && i == Spaces(s, 1) && n == KeyEnd(s, i) && m == Spaces(s, n) && OccursAt(NOT_SET, s, m)
  }

  lemma NotSetLetters(s: string, m: nat)
    requires OccursAt(NOT_SET, s, m)
    ensures forall k | m <= k < m + |NOT_SET| :: s[k] != '#' && s[k] != 'C'
  {
    forall k | m <= k < m + |NOT_SET| ensures s[k] == NOT_SET[k - m] {
      assert s[m..m + |NOT_SET|][k - m] == s[k];
    }
  }

  lemma CommentInside(part: string, rest: string, i: nat, n: nat, m: nat)
    requires CommentAt(part + rest, i, n, m) && m + |NOT_SET| <= |part|
    ensures DisabledKey(part) == DisabledKey(part + rest)
  {
    var whole := part + rest;
    assert forall k | 0 <= k < |part| :: part[k] == whole[k];
    SkipStopsAt(IsSpace, part, 1, i);
    SkipStopsAt(IsKeyChar, part, i, n);
    SkipStopsAt(IsSpace, part, n, m);
    assert part[m..m + |NOT_SET|] == whole[m..m + |NOT_SET|];
    assert part[i..n] == whole[i..n];
    hide Skip, IsKey, IsSpace, IsKeyChar;
  }

  lemma NoCommentAcrossHash(part: string, rest: string, i: nat, n: nat, m: nat)
    requires part != "" && rest != "" && rest[0] == '#' && |part| < m + |NOT_SET|
    ensures !CommentAt(part + rest, i, n, m)
  {
    var whole := part + rest;
    assert whole[|part|] == '#';
    if CommentAt(whole, i, n, m) {
      NotSetLetters(whole, m);
    }
  }

  lemma NoCommentAcrossKey(part: string, key: string, rest: string, i: nat, n: nat, m: nat)
    requires part != "" && IsKey(key) && StartsWith(rest, key + "=") && |part| < m + |NOT_SET|
    ensures !CommentAt(part + rest, i, n, m)
  {
    var whole := part + rest;
    forall j | |part| <= j <= |part| + |key| ensures whole[j] == (key + "=")[j - |part|] {
      assert rest[..|key| + 1][j - |part|] == rest[j - |part|] == whole[j];
    }
    assert key[..7][0] == key[0] == 'C';
    assert whole[|part|] == 'C' && whole[|part| + |key|] == '=';
    if CommentAt(whole, i, n, m) {
      NotSetLetters(whole, m);
    }
  }

  lemma DisabledHasComment(s: string)
    requires DisabledKey(s).Some?
    ensures var i := Spaces(s, 1);
      var n := KeyEnd(s, i);
      CommentAt(s, i, n, Spaces(s, n))
  {
  }

  lemma GluedComment(part: string, key: string, rest: string)
    requires part != "" && IsKey(key) && DisabledKey(part) != Some(key)
    requires StartsWith(rest, key + "=") || (rest != "" && rest[0] == '#')
    ensures DisabledKey(part + rest) != Some(key)
  {
    var whole := part + rest;
    if DisabledKey(whole).Some? {
      DisabledHasComment(whole);
      var i := Spaces(whole, 1);
      var n := KeyEnd(whole, i);
      var m := Spaces(whole, n);
      hide DisabledKey, Skip, OccursAt;
      if m + |NOT_SET| <= |part| {
        CommentInside(part, rest, i, n, m);
      } else if rest[0] == '#' {
        NoCommentAcrossHash(part, rest, i, n, m);
      } else {
        NoCommentAcrossKey(part, key, rest, i, n, m);
      }
    }
  }

  lemma FormattedStarts(key: string, v: Value)
    requires IsKey(key) && OneLine(v)
    ensures var rest := Chomp(FormatKconfigLine(key, v));
      StartsWith(rest, key + "=") || (rest != "" && rest[0] == '#')
  {
    FormattedLineSets(key, v);
    hide Sets, Assigned, OneLine, IsKey;
    var rest := Chomp(FormatKconfigLine(key, v));
    if Disables(v) {
      assert rest[0] == '#';
    } else {
      assert rest[..|key| + 1] == key + "=";
    }
  }

  lemma ChompGlued(part: string, line: string)
    requires IsFragment(part) && IsLine(line)
    ensures IsLine(part + line) && Chomp(part) == part && Chomp(part + line) == part + Chomp(line)
  {
    assert part[|part| - 1] in part;
    assert (part + line)[..|part + line| - 1] == part + line[..|line| - 1];
  }

  lemma GluedLine(part: string, key: string, v: Value)
    requires IsFragment(part) && IsKey(key) && OneLine(v)
    requires !(KeySetting(part).Some? && KeySetting(part).value.0 == key)
    ensures var line := part + FormatKconfigLine(key, v);
      IsLine(line) && !(KeySetting(line).Some? && KeySetting(line).value.0 == key)
  {
    var line := FormatKconfigLine(key, v);
    FormattedLineSets(key, v);
    FormattedStarts(key, v);
    ChompGlued(part, line);
    hide Sets, Chomp, FormatKconfigLine, IsKey, OneLine, IsLine, DisabledKey, StartsWith;
    var rest := Chomp(line);
    SetsKeyIff(part, key);
    SetsKeyIff(part + rest, key);
    GluedAssignment(part, key, rest);
    GluedComment(part, key, rest);
  }

  /** The lines of `all` with the last of `front` and the first of `back` glued together. */
  lemma WriteGlued(front: seq<string>, part: string, line: string, back: seq<string>)
    ensures WriteLines(front + [part] + ([line] + back)) == WriteLines(front + [part + line] + back)
  {
    assert WriteLines([part]) == part + "" && WriteLines([part + line]) == part + line + "";
    assert WriteLines([line] + back) == line + WriteLines(back) by {
      assert ([line] + back)[1..] == back;
    }
    hide WriteLines;
    WriteConcat(front + [part], [line] + back);
    WriteConcat(front, [part]);
    WriteConcat(front + [part + line], back);
    WriteConcat(front, [part + line]);
  }

  /** No line of `lines` sets `k`. */
  ghost predicate NoneSets(lines: seq<string>, k: string) {
    forall i | 0 <= i < |lines| :: !(KeySetting(lines[i]).Some? && KeySetting(lines[i]).value.0 == k)
  }

  lemma UntouchedKeptUnset(ov: Overrides, lines: seq<string>, k: string)
    requires ov.Valid() && k in ov.values && k !in Touched(KeySetting, Table(ov), lines)
    ensures NoneSets(lines, k) && NoneSets(RewriteAll(KeySetting, Table(ov), lines), k)
  {
    hide Sets, FormatKconfigLine;
    TouchedIff(KeySetting, Table(ov), lines, k);
    TableReadsAsRequested(ov);
    assert forall i | 0 <= i < |lines| :: !(Hits(KeySetting, Table(ov), lines[i]) && KeySetting(lines[i]).value.0 == k);
  }

  lemma GluedAreLines(front: seq<string>, part: string, line: string, back: seq<string>)
    requires (forall i | 0 <= i < |front| :: IsLine(front[i])) && forall i | 0 <= i < |back| :: IsLine(back[i])
    requires IsFragment(part) && IsLine(line)
    ensures AreLines(front + [part + line] + back)
  {
    var glued := part + line;
    assert glued[..|glued| - 1] == part + line[..|line| - 1];
  }

  /** Reading a file in which `part` and the new line of `k` were glued together does not find `k`. */
  lemma GluedReadsWithout(front: seq<string>, part: string, k: string, v: Value, back: seq<string>)
    requires (forall i | 0 <= i < |front| :: IsLine(front[i])) && forall i | 0 <= i < |back| :: IsLine(back[i])
    requires IsFragment(part) && IsKey(k) && OneLine(v)
    requires NoneSets(front + [part], k) && NoneSets(back, k)
    ensures k !in Values(KeySetting, ReadLines(WriteLines(front + [part] + ([FormatKconfigLine(k, v)] + back))))
  {
    hide Sets, FormatKconfigLine, IsLine, IsFragment, ReadLines, WriteLines;
    var line := FormatKconfigLine(k, v);
    var glued := front + [part + line] + back;
    assert (front + [part])[|front|] == part;
    FormattedLineSets(k, v);
    GluedLine(part, k, v);
    WriteGlued(front, part, line, back);
    GluedAreLines(front, part, line, back);
    ReadBack(glued);
    forall i | 0 <= i < |glued| ensures !(KeySetting(glued[i]).Some? && KeySetting(glued[i]).value.0 == k) {
      if i < |front| {
        assert glued[i] == (front + [part])[i];
      } else if i > |front| {
        assert glued[i] == back[i - |front| - 1];
      }
    }
    if k in Values(KeySetting, glued) {
      ValueHasLine(KeySetting, glued, k);
    }
  }

  /** How the new lines of a file that is not intact fall apart around the glued place. */
  lemma NotIntactSplit(ov: Overrides, lines: seq<string>)
    returns (front: seq<string>, part: string, k: string, back: seq<string>)
    requires ov.Valid() && lines != [] && AreLines(lines)
    requires !Hits(KeySetting, Table(ov), lines[|lines| - 1])
    requires exists k | k in ov.keys :: k !in Touched(KeySetting, Table(ov), lines)
    ensures k in ov.values && NoneSets(front + [part], k) && part == lines[|lines| - 1]
    ensures NewLines(ov, lines) == front + [part] + ([Table(ov)[k]] + back)
    ensures forall i | 0 <= i < |front| :: IsLine(front[i])
    ensures forall i | 0 <= i < |back| :: exists q | q in ov.keys :: q != k && back[i] == Table(ov)[q]
  {
    hide KeySetting, FormatKconfigLine, IsLine, IsFragment, Requested, RewriteAll, Touched, Appended;
    var table := Table(ov);
    var n, touched := |lines| - 1, Touched(KeySetting, table, lines);
    TableHasLines(ov);
    KeptFront(KeySetting, table, lines);
    k := FirstAppended(table, touched, ov.keys);
    var rewritten, added := RewriteAll(KeySetting, table, lines), Appended(table, touched, ov.keys);
    front, part, back := rewritten[..n], lines[n], added[1..];
    assert rewritten == front + [part] && added == [table[k]] + back;
    UntouchedKeptUnset(ov, lines, k);
  }

  /** In a file that is not intact the first appended override is lost: the reader does not see it. */
  lemma NotIntactLosesOverride(ov: Overrides, content: string)
    requires ov.Valid() && !Intact(ov, content)
    ensures exists k | k in ov.values :: k !in Values(KeySetting, ReadLines(Rewrite(ov, content)))
  {
    hide KeySetting, FormatKconfigLine, Intact, IsLine, IsFragment, ReadLines, WriteLines, Values, NewLines;
    NotIntactShape(ov, content);
    var front, part, k, back := NotIntactSplit(ov, ReadLines(content));
    OtherAppended(ov, back, k);
    GluedReadsWithout(front, part, k, ov.values[k], back);
  }

  lemma OtherAppended(ov: Overrides, back: seq<string>, k: string)
    requires ov.Valid()
    requires forall i | 0 <= i < |back| :: exists q | q in ov.keys :: q != k && back[i] == Table(ov)[q]
    ensures NoneSets(back, k) && forall i | 0 <= i < |back| :: IsLine(back[i])
  {
    hide KeySetting, FormatKconfigLine;
    TableReadsAsRequested(ov);
    assert forall q | q in Table(ov) && q != k ::
      IsLine(Table(ov)[q]) && KeySetting(Table(ov)[q]).Some? && KeySetting(Table(ov)[q]).value.0 != k;
  }

  lemma NotIntactShape(ov: Overrides, content: string)
    requires ov.Valid() && !Intact(ov, content)
    ensures var lines := ReadLines(content);
      && lines != [] && AreLines(lines) && IsFragment(lines[|lines| - 1]) && ov.keys != []
      && !Hits(KeySetting, Table(ov), lines[|lines| - 1])
      && exists k | k in ov.keys :: k !in Touched(KeySetting, Table(ov), lines)
  {
    hide Sets, FormatKconfigLine;
    ReadGivesLines(content);
    LastLineDecides(content);
  }

  /** A file whose only line is not terminated: the appended override is glued to it and not read back. */
  lemma UnterminatedLosesOverride(ov: Overrides)
    requires ov.keys == ["CONFIG_B"] && ov.values == map["CONFIG_B" := BoolValue(true)]
    ensures ov.Valid() && !Intact(ov, "CONFIG_A=y")
    ensures "CONFIG_B" !in Values(KeySetting, ReadLines(Rewrite(ov, "CONFIG_A=y")))
  {
    ValidWitness(ov);
    NotIntactWitness(ov);
    hide Sets, FormatKconfigLine, Intact, Rewrite, IsLine, ReadLines, Values;
    NotIntactLosesOverride(ov, "CONFIG_A=y");
  }

  lemma ValidWitness(ov: Overrides)
    requires ov.keys == ["CONFIG_B"] && ov.values == map["CONFIG_B" := BoolValue(true)]
    ensures ov.Valid() && IsKey("CONFIG_A")
  {
    assert ov.keys[0] == "CONFIG_B";
    assert "CONFIG_A"[..7] == "CONFIG_" == "CONFIG_B"[..7];
    assert AllKeyChars("CONFIG_A") && AllKeyChars("CONFIG_B");
  }

  lemma NotIntactWitness(ov: Overrides)
    requires ov.keys == ["CONFIG_B"] && ov.values == map["CONFIG_B" := BoolValue(true)] && IsKey("CONFIG_A")
    ensures !Intact(ov, "CONFIG_A=y")
  {
    hide *;
    assert "CONFIG_A=y" == "CONFIG_A" + "=" + "y";
    assert "CONFIG_A"[7] != "CONFIG_B"[7];
    assert ov.keys[0] == "CONFIG_B";
    NotIntactAlone(ov, "CONFIG_A", "CONFIG_B");
  }

  lemma NotIntactAlone(ov: Overrides, a: string, b: string)
    requires (forall k | k in ov.keys :: k in ov.values) && a !in ov.values && b in ov.keys && IsKey(a)
    ensures !Intact(ov, a + "=" + "y")
  {
    AloneSets(a);
    hide KeySetting, FormatKconfigLine, IsKey, ReadLines, Terminated, Touched;
    TouchedIff(KeySetting, Table(ov), [a + "=" + "y"], b);
  }

  lemma AloneSets(a: string)
    requires IsKey(a)
    ensures var line := a + "=" + "y";
      ReadLines(line) == [line] && !Terminated(line) && KeySetting(line) == Some((a, "y"))
  {
    var line := a + "=" + "y";
    assert line[|line| - 1] == 'y' && '\n' !in line;
    assert Chomp(line) == line;
    AssignmentSets(a, "y");
    hide Sets, Assigned, IsKey;
    ReadBack([line]);
    assert WriteLines([line]) == line + "";
  }

  /** So the round trip holds exactly for the intact files. */
  lemma RoundTripIffIntact(ov: Overrides, content: string)
    requires ov.Valid()
    ensures Intact(ov, content) <==>
      Values(KeySetting, ReadLines(Rewrite(ov, content))) == Values(KeySetting, ReadLines(content)) + Requests(ov)
  {
    hide Sets, FormatKconfigLine, Intact, Rewrite;
    if Intact(ov, content) {
      RewriteThenReadBack(ov, content);
    } else {
      NotIntactLosesOverride(ov, content);
    }
  }

  /** The last new line of a file that is not intact is an appended one, so the rewritten file is terminated. */
  lemma NotIntactIsTerminated(ov: Overrides, content: string)
    requires ov.Valid() && !Intact(ov, content)
    ensures Terminated(Rewrite(ov, content))
  {
    hide KeySetting, FormatKconfigLine, Intact, IsFragment, ReadLines, Values, NewLines, IsLine;
    NotIntactShape(ov, content);
    var front, part, k, back := NotIntactSplit(ov, ReadLines(content));
    OtherAppended(ov, back, k);
    TableHasLines(ov);
    var all := front + [part] + ([Table(ov)[k]] + back);
    assert all[|all| - 1] == if back == [] then Table(ov)[k] else back[|back| - 1];
    EndsLikeLastLine(all);
  }

  lemma EndsLikeLastLine(lines: seq<string>)
    requires lines != [] && IsLine(lines[|lines| - 1])
    ensures Terminated(WriteLines(lines))
  {
    var n := |lines| - 1;
    assert lines == lines[..n] + [lines[n]];
    WriteConcat(lines[..n], [lines[n]]);
    assert WriteLines([lines[n]]) == lines[n] + "";
  }

  /** Rewriting twice equals rewriting once exactly for the intact files: only then nothing is left to append. */
  lemma IdempotentIffIntact(ov: Overrides, content: string)
    requires ov.Valid()
    ensures Intact(ov, content) <==> Rewrite(ov, Rewrite(ov, content)) == Rewrite(ov, content)
  {
    hide Sets, FormatKconfigLine, Rewrite, Terminated, KeySetting;
    if Intact(ov, content) {
      RewriteIsIdempotent(ov, content);
    } else {
      var once := Rewrite(ov, content);
      NotIntactIsTerminated(ov, content);
      assert Intact(ov, once);
      RewriteThenReadBack(ov, once);
      NotIntactLosesOverride(ov, content);
    }
  }

  // ---------- the validator ----------

  /** `_kconfig_values_equal`. */
  predicate ValuesEqual(requested: string, actual: string) {
    || requested == actual
    || (IntLiteral(requested).Some? && IntLiteral(actual).Some? && IntLiteral(requested) == IntLiteral(actual))
  }

  /** The value asked for, read off the line that the override writes. */
  function LineValue(line: string): string {
    var assignment := Assigned(Chomp(line));
    if assignment.Some? then assignment.value.1 else "n"
  }

  lemma LineAsksFor(key: string, v: Value)
    requires IsKey(key) && OneLine(v)
    ensures LineValue(FormatKconfigLine(key, v)) == Requested(v)
  {
    FormattedLineSets(key, v);
    hide IsKey, OneLine, FormatKconfigLine, Sets, Assigned, IsLine;
  }

  /**
   * `_check_kconfig_overrides`: the overrides that do not hold, for which the caller raises. An
   * override is missing although it does not ask for "n", or the file has another text for it
   * that is not another way to write the same number.
   */
  method CheckKconfigOverrides(ov: Overrides, content: string) returns (failed: seq<string>)
    requires ov.Valid()
    ensures var values := Values(KeySetting, ReadLines(content));
      forall k :: k in failed <==>
        && k in ov.values
        && if k !in values then Requested(ov.values[k]) != "n"
           else && values[k] != Requested(ov.values[k])
                && (IntLiteral(values[k]).None? || IntLiteral(values[k]) != IntLiteral(Requested(ov.values[k])))
  {
    hide Values, ReadLines, LineValue, FormatKconfigLine, IsKey, OneLine, KeySetting, IntLiteral, Requested;
    var values := ReadKconfigValues(content);
    failed := [];
    for i := 0 to |ov.keys|
      invariant forall k :: k in failed <==>
        && k in ov.keys[..i]
        && if k !in values then Requested(ov.values[k]) != "n" else !ValuesEqual(Requested(ov.values[k]), values[k])
    {
      var key := ov.keys[i];
      var requested := LineValue(FormatKconfigLine(key, ov.values[key]));
      LineAsksFor(key, ov.values[key]);
      assert ov.keys[..i + 1] == ov.keys[..i] + [key];
      if key !in values {
        if requested != "n" {
          failed := failed + [key];
        }
      } else if !ValuesEqual(requested, values[key]) {
        failed := failed + [key];
      }
    }
    assert ov.keys[..|ov.keys|] == ov.keys;
  }

  /** The override reads back as the text it wrote, or as the same number. */
  ghost predicate ReadsBack(values: map<string, string>, key: string, v: Value) {
    if key !in values then v == BoolValue(false) || v == StrValue("n")
    else
      || values[key] == Requested(v)
      || (IntLiteral(values[key]).Some? && IntLiteral(values[key]) == IntLiteral(Requested(v)))
  }

  lemma OnlyDisablesAskForN(v: Value)
    ensures Requested(v) == "n" <==> v == BoolValue(false) || v == StrValue("n")
  {
    if v.IntValue? {
      TextHasDigits(10, if v.i < 0 then -v.i else v.i);
      assert IntText(v.i)[0] != 'n';
    } else if v.Other? {
      assert Requested(v)[0] == '"';
    } else if v.StrValue? {
      assert ("\"" + v.s + "\"")[0] == '"';
    }
  }

  /** Nothing is reported iff every override reads back. */
  method AcceptConfiguration(ov: Overrides, content: string) returns (accepted: bool)
    requires ov.Valid()
    ensures accepted <==>
      forall k | k in ov.values :: ReadsBack(Values(KeySetting, ReadLines(content)), k, ov.values[k])
  {
    hide Values, ReadLines, IsKey, OneLine, KeySetting, IntLiteral, Requested;
    var failed := CheckKconfigOverrides(ov, content);
    accepted := failed == [];
    assert !accepted ==> failed[0] in failed;
    forall k | k in ov.values
      ensures k !in failed <==> ReadsBack(Values(KeySetting, ReadLines(content)), k, ov.values[k])
    {
      OnlyDisablesAskForN(ov.values[k]);
    }
  }

  /** An integer override holds iff the file has a literal of that integer, in whatever base. */
  lemma IntegerReadsBackIff(values: map<string, string>, key: string, i: int)
    ensures ReadsBack(values, key, IntValue(i)) <==> key in values && IntLiteral(values[key]) == Some(i)
  {
    LiteralOfInt(i);
    hide IntLiteral, IntText;
  }

  lemma OneLineSets(line: string, key: string, text: string)
    requires IsLine(line) && KeySetting(line) == Some((key, text))
    ensures Values(KeySetting, ReadLines(line)) == map[key := text]
  {
    hide Sets, KeySetting;
    ReadBack([line]);
    assert WriteLines([line]) == line + "" == line;
    hide ReadLines, WriteLines, IsLine;
    OneMoreLine(KeySetting, [line], 0);
    assert [line][..1] == [line];
  }

  lemma OneAssignment(key: string, text: string)
    requires IsKey(key) && '\n' !in text
    ensures Values(KeySetting, ReadLines(key + "=" + text + "\n")) == map[key := text]
  {
    AssignmentSets(key, text);
    hide Sets, Assigned, IsKey, IsLine, ReadLines, Values, Chomp;
    OneLineSets(key + "=" + text + "\n", key, text);
  }

  /** A configuration of one line, checked against one integer. */
  method CheckOneNumber(key: string, i: int, text: string) returns (accepted: bool)
    requires IsKey(key) && '\n' !in text
    ensures accepted <==> IntLiteral(text) == Some(i)
  {
    var ov := Overrides([key], map[key := IntValue(i)]);
    OneOverride(key, i);
    OneAssignment(key, text);
    IntegerReadsBackIff(map[key := text], key, i);
    hide IsKey, ReadLines, KeySetting, IntLiteral, Values, ReadsBack, Overrides.Valid;
    accepted := AcceptConfiguration(ov, key + "=" + text + "\n");
  }

  lemma OneOverride(key: string, i: int)
    requires IsKey(key)
    ensures Overrides([key], map[key := IntValue(i)]).Valid()
  {
    assert [key][0] == key;
  }

  lemma TwoTexts()
    ensures TextIn(10, 64) == "64" && TextIn(16, 16) == "10"
  {
    TextOneMore(10, 6, 4);
    TextOneMore(16, 1, 0);
  }

  lemma TwoLiterals()
    ensures IntLiteral("64") == Some(64) && IntLiteral("0x10") == Some(16)
  {
    hide IntLiteral, TextIn, WellFormed, Plain, Significant, FirstDigitFits;
    TwoTexts();
    LiteralOfInt(64);
    TextIsLiteral(16, 16);
    HexLiteral("10", 16);
    assert "0x" + "10" == "0x10";
  }

  lemma HexLiteral(digits: string, n: nat)
    requires WellFormed(16, digits) && Significant(Plain(digits)) == TextIn(16, n)
    ensures IntLiteral("0x" + digits) == Some(n)
  {
    LiteralIs("", "", 16, "0x", digits, "", n);
    assert "" + ("" + ("0x" + digits)) + "" == "0x" + digits;
    hide IntLiteral, WellFormed, TextIn, Plain, Significant;
  }

  /** 64 does not stand for 128, and `0x10` stands for 16. */
  method CheckTwoNumbers(key: string) returns (wrong: bool, hex: bool)
    requires IsKey(key)
    ensures !wrong && hex
  {
    TwoLiterals();
    hide IntLiteral, IsKey;
    wrong := CheckOneNumber(key, 128, "64");
    hex := CheckOneNumber(key, 16, "0x10");
  }

  /** After an intact rewrite every override reads back. */
  lemma RewriteThenCheckAccepts(ov: Overrides, content: string)
    requires ov.Valid() && Intact(ov, content)
    ensures forall k | k in ov.values ::
      ReadsBack(Values(KeySetting, ReadLines(Rewrite(ov, content))), k, ov.values[k])
  {
    RewriteThenReadBack(ov, content);
  }
}

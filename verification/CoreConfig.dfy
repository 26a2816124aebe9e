/** The typed loader of `.config` files, and its agreement with the rewriter. */
module CoreConfig {
  import opened Options
  import opened Text
  import opened Numerals
  import opened Lines
  import opened KconfigLine
  import opened LineRewriting
  import opened KconfigFile

  datatype Loaded = LBool(b: bool) | LInt(i: int) | LStr(s: string)

  // ---------- numbers ----------

  lemma {:induction false} HexMargin(val: string) returns (digits: string, blanks: string)
    requires StartsWith(val, "0x")
    ensures StripRight(IsSpace, val) == "0x" + digits && val == "0x" + digits + blanks && AllBlank(IsSpace, blanks)
    decreases |val|
  {
    var n := |val| - 1;
    assert val[1] == val[..2][1] == 'x';
    if IsSpace(val[n]) {
      digits, blanks := HexMargin(val[..n]);
      blanks := blanks + [val[n]];
    } else {
      digits, blanks := val[2..], "";
    }
  }

  lemma HexStays(val: string)
    requires StartsWith(val, "0x")
    ensures StartsWith(StripRight(IsSpace, val), "0x")
  {
    var digits, _ := HexMargin(val);
  }

  /** `int(val, 16)` of a text that starts with `0x`; None for its ValueError. */
  function HexValue(val: string): Option<nat>
    requires StartsWith(val, "0x")
  {
    HexStays(val);
    Numeral(16, StripRight(IsSpace, val)[2..])
  }

  /** `0x`, digits of `n` in base 16 with leading zeros and single underscores, and blanks. */
  ghost predicate HexParts(val: string, n: nat, digits: string, blanks: string) {
    && val == "0x" + digits + blanks && AllBlank(IsSpace, blanks)
    && WellFormed(16, digits) && Significant(Plain(digits)) == TextIn(16, n)
  }

  ghost predicate IsHexOf(val: string, n: nat) {
    exists digits, blanks :: HexParts(val, n, digits, blanks)
  }

  lemma HexOfParts(val: string, n: nat, digits: string, blanks: string)
    requires HexParts(val, n, digits, blanks)
    ensures StartsWith(val, "0x") && HexValue(val) == Some(n)
  {
    var s := "0x" + digits;
    assert val[..2] == "0x" && s[2..] == digits;
    NumeralIff(16, digits, n);
    assert IsDigitIn(16, digits[|digits| - 1]) && s[|s| - 1] == digits[|digits| - 1];
    StripRightDrops(IsSpace, s, blanks);
  }

  lemma HexValueIff(val: string, n: nat)
    requires StartsWith(val, "0x")
    ensures HexValue(val) == Some(n) <==> IsHexOf(val, n)
  {
    if HexValue(val) == Some(n) {
      var digits, blanks := HexMargin(val);
      NumeralIff(16, digits, n);
      assert HexParts(val, n, digits, blanks);
    }
    if IsHexOf(val, n) {
      var digits, blanks :| HexParts(val, n, digits, blanks);
      HexOfParts(val, n, digits, blanks);
    }
  }

  // ---------- the loader ----------

  /** `val[1:-1]`. */
  function Unquote(val: string): string {
    if |val| < 2 then "" else val[1..|val| - 1]
  }

  /** `_parse_config_value`. */
  function ParseConfigValue(val: string): Loaded {
    if val == "y" then LBool(true)
    else if val == "n" then LBool(false)
    else if Quoted(val) then LStr(Unquote(val))
    else if StartsWith(val, "0x") then
      var number := HexValue(val);
      if number.Some? then LInt(number.value) else LStr(val)
    else if AllDigits(val) then LInt(Decimal(val))
    else LStr(val)
  }

  /** What the loader takes from a raw line: the texts around the first `=`. */
  function LoadSetting(line: string): Setting {
    var s := Chomp(line);
    if s == "" || s[0] == '#' then None
    else
      var n := EqualsAt(s);
      if n == |s| then None else Some((s[..n], s[n + 1..]))
  }

  /** The loader takes a setting from a line iff it is no comment and has this name before the first `=`. */
  lemma LoadSettingIff(line: string, name: string, text: string)
    ensures LoadSetting(line) == Some((name, text)) <==>
      Chomp(line) == name + "=" + text && '=' !in name && (name == "" || name[0] != '#')
  {
    var s := Chomp(line);
    if s == name + "=" + text && '=' !in name {
      assert forall k | 0 <= k < |name| :: s[k] == name[k];
      assert s[|name|] == '=';
      SkipStopsAt(NotEquals, s, 0, |name|);
      assert s[..|name|] == name && s[|name| + 1..] == text;
    }
    if LoadSetting(line) == Some((name, text)) {
      assert s == s[..|name|] + [s[|name|]] + s[|name| + 1..];
    }
  }

  /** The values the loader stores. */
  function Typed(texts: map<string, string>): (r: map<string, Loaded>)
    ensures r.Keys == texts.Keys
  {
    map k | k in texts :: ParseConfigValue(texts[k])
  }

  lemma NoneLoaded()
    ensures Typed(Values(LoadSetting, [])) == map[]
  {
  }

  lemma OneMoreLoaded(lines: seq<string>, i: nat)
    requires i < |lines|
    ensures var before, setting := Typed(Values(LoadSetting, lines[..i])), LoadSetting(lines[i]);
      Typed(Values(LoadSetting, lines[..i + 1])) ==
      if setting.Some? then before[setting.value.0 := ParseConfigValue(setting.value.1)] else before
  {
    hide LoadSetting, ParseConfigValue, Values;
    OneMoreLine(LoadSetting, lines, i);
  }

  class CoreConfig {
    var kvValues: map<string, Loaded>

    constructor ()
      ensures kvValues == map[]
    {
      kvValues := map[];
    }

    /** `_load_core_config` into an empty table. */
    method LoadCoreConfig(content: string)
      requires kvValues == map[]
      modifies this
      ensures kvValues == Typed(Values(LoadSetting, ReadLines(content)))
    {
      var lines := ReadLines(content);
      NoneLoaded();
      for i := 0 to |lines|
        invariant kvValues == Typed(Values(LoadSetting, lines[..i]))
      {
        hide Typed, Values, ParseConfigValue;
        OneMoreLoaded(lines, i);
        var line := Chomp(lines[i]);
        if line == "" || line[0] == '#' { continue; }
        var sep := EqualsAt(line);
        if sep == |line| { continue; }
        kvValues := kvValues[line[..sep] := ParseConfigValue(line[sep + 1..])];
      }
      assert lines[..|lines|] == lines;
    }

    /** `kv_check`. */
    function KvCheck(cfg: string): Loaded
      reads this
    {
      if kvValues == map[] then LBool(false)
      else if cfg in kvValues then kvValues[cfg]
      else LBool(false)
    }
  }

  // ---------- loading a rewritten file ----------

  /** The texts the loader finds for the overrides; a disabled symbol is only a comment. */
  ghost function LoadedTexts(ov: Overrides): map<string, string> {
    map k | k in ov.values && !Disables(ov.values[k]) :: ValueText(ov.values[k])
  }

  lemma LoadsAssignment(key: string, text: string)
    requires IsKey(key) && '\n' !in text
    ensures LoadSetting(key + "=" + text + "\n") == Some((key, text))
  {
    var s := key + "=" + text;
    AssignmentSets(key, text);
    assert s[0] == key[..7][0] == 'C';
    assert s[|key|] == '=';
    SkipStopsAt(NotEquals, s, 0, |key|);
    assert s[..|key|] == key && s[|key| + 1..] == text;
  }

  lemma LoaderReadsTable(ov: Overrides)
    requires ov.Valid()
    ensures ReadAsWanted(LoadSetting, Table(ov), LoadedTexts(ov))
  {
    forall k | k in ov.values
      ensures LoadSetting(Table(ov)[k]) ==
        if Disables(ov.values[k]) then None else Some((k, ValueText(ov.values[k])))
    {
      if Disables(ov.values[k]) {
        CommentSets(k);
        assert ("# " + k + " is not set")[0] == '#';
      } else {
        ValueTextIsOneLine(ov.values[k]);
        LoadsAssignment(k, ValueText(ov.values[k]));
      }
    }
  }

  /** Whatever the loader takes for a Kconfig symbol, the rewriter sees too. */
  lemma LoaderAgrees(ov: Overrides, line: string)
    requires ov.Valid()
    ensures Agree(KeySetting, LoadSetting, Table(ov), line)
  {
    var s := Chomp(line);
    if LoadSetting(line).Some? {
      assert DisabledKey(s).None?;
    }
  }

  /**
   * Loading a rewritten file stores the typed value of every enabled override and nothing for a
   * disabled one, and leaves every other name as it was.
   */
  lemma RewriteThenLoad(ov: Overrides, content: string)
    requires ov.Valid() && Intact(ov, content)
    ensures Values(LoadSetting, ReadLines(Rewrite(ov, content)))
         == (Values(LoadSetting, ReadLines(content)) - ov.values.Keys) + LoadedTexts(ov)
  {
    hide KeySetting, LoadSetting, FormatKconfigLine;
    var lines := ReadLines(content);
    if ov.keys == [] {
      assert ov.values == map[] by {
        assert forall k | k in ov.values :: k in ov.keys;
      }
    } else {
      RewriteReadsBack(ov, content);
      LoaderReadsTable(ov);
      forall i | 0 <= i < |lines| ensures Agree(KeySetting, LoadSetting, Table(ov), lines[i]) {
        LoaderAgrees(ov, lines[i]);
      }
      RewriteThenRead(KeySetting, LoadSetting, Table(ov), LoadedTexts(ov), ov.keys, lines);
    }
  }

  // ---------- the typed round trip ----------

  /** What is asked for by a text and what `kv_check` answers: the number it stands for, if it does for one. */
  ghost predicate Reads(text: string, answer: Loaded) {
    if text == "y" then answer == LBool(true)
    else if text == "n" then answer == LBool(false)
    else if exists t :: text == "\"" + t + "\"" then answer.LStr? && text == "\"" + answer.s + "\""
    else if text == "\"" then answer == LStr("")
    else if exists n: nat :: IsHexOf(text, n) then answer.LInt? && answer.i >= 0 && IsHexOf(text, answer.i)
    else if AllDigits(text) then answer.LInt? && answer.i >= 0 && Significant(text) == TextIn(10, answer.i)
    else answer == LStr(text)
  }

  /** What `kv_check` should answer for an override. */
  ghost predicate Answers(v: Value, answer: Loaded) {
    match v
    case BoolValue(b) => answer == LBool(b)
    case IntValue(i) => answer == if i >= 0 then LInt(i) else LStr(IntText(i))
    case Other(text) => answer == LStr(text)
    case StrValue(s) => Reads(s, answer)
  }

  lemma QuotedIff(text: string)
    ensures Quoted(text) <==> text == "\"" || exists t :: text == "\"" + t + "\""
    ensures Quoted(text) && text != "\"" ==> text == "\"" + Unquote(text) + "\""
  {
    forall t | text == "\"" + t + "\"" ensures Quoted(text) && |text| >= 2 {
      assert text[|text| - 1] == '"';
    }
    if Quoted(text) && text != "\"" {
      assert text == "\"" + text[1..|text| - 1] + "\"";
    }
  }

  lemma HexIsPrefixed(text: string, n: nat)
    requires IsHexOf(text, n)
    ensures StartsWith(text, "0x") && text[0] == '0'
  {
    var digits, blanks :| HexParts(text, n, digits, blanks);
    HexOfParts(text, n, digits, blanks);
    assert text[..2][0] == text[0];
  }

  /** The loader takes every text for what it reads as. */
  lemma ParseReads(text: string)
    ensures Reads(text, ParseConfigValue(text))
  {
    QuotedIff(text);
    assert Quoted(text) ==> text[0] == '"';
    if exists n: nat :: IsHexOf(text, n) {
      var n: nat :| IsHexOf(text, n);
      HexIsPrefixed(text, n);
      HexValueIff(text, n);
    } else if StartsWith(text, "0x") {
      assert text[..2][1] == text[1];
      if HexValue(text).Some? {
        HexValueIff(text, HexValue(text).value);
      }
    }
    hide HexValue, IsHexOf, Decimal, Quoted, Significant, TextIn;
  }

  lemma QuotedTextParses(s: string)
    ensures ParseConfigValue("\"" + s + "\"") == LStr(s)
  {
    var q := "\"" + s + "\"";
    assert q[0] == '"' && q[|q| - 1] == '"' && q[1..|q| - 1] == s;
  }

  lemma DigitsParse(text: string)
    requires AllDigits(text)
    ensures ParseConfigValue(text) == LInt(Decimal(text))
  {
    hide Decimal, HexValue;
    assert IsDigit(text[0]) && (|text| >= 2 ==> IsDigit(text[1]));
    assert |text| >= 2 ==> text[..2][1] == text[1];
  }

  lemma DecimalParses(n: nat)
    ensures ParseConfigValue(TextIn(10, n)) == LInt(n)
  {
    var text := TextIn(10, n);
    TextHasDigits(10, n);
    TextIsLiteral(10, n);
    PlainOfDigits(text) by {
      hide TextIn;
    }
    DigitsParse(text);
    hide *;
    TextTellsNumber(10, Decimal(text), n);
  }

  lemma OtherTextParses(text: string)
    requires |text| >= 1 && text[0] == '-'
    ensures ParseConfigValue(text) == LStr(text)
  {
    hide Decimal, HexValue;
    assert |text| >= 2 ==> text[..2][0] == text[0];
  }

  lemma IntTextParses(i: int)
    ensures ParseConfigValue(IntText(i)) == if i >= 0 then LInt(i) else LStr(IntText(i))
  {
    hide ParseConfigValue, TextIn;
    if i >= 0 {
      DecimalParses(i);
    } else {
      OtherTextParses(IntText(i));
    }
  }

  /** The text written for an enabled value is parsed to the same value. */
  lemma ValueTextParses(v: Value)
    requires !Disables(v)
    ensures Answers(v, ParseConfigValue(ValueText(v)))
  {
    match v {
      case BoolValue(_) =>
      case IntValue(i) => IntTextParses(i);
      case Other(text) => QuotedTextParses(text);
      case StrValue(s) =>
        if s == "y" || s == "m" || s == "n" || Quoted(s) || StartsWith(s, "0x") || AllDigits(s) {
          ParseReads(s);
        } else {
          QuotedTextParses(s);
          QuotedIff(s);
          forall n: nat | IsHexOf(s, n) ensures false {
            HexIsPrefixed(s, n);
          }
        }
    }
  }

  /** `kv_check` on a loaded table. */
  function Check(kv: map<string, Loaded>, cfg: string): Loaded {
    if kv != map[] && cfg in kv then kv[cfg] else LBool(false)
  }

  /**
   * The typed round trip: after an intact rewrite, loading the file and asking for an overridden
   * symbol gives the override's value back (a negative integer comes back as its text).
   */
  lemma TypedRoundTrip(ov: Overrides, content: string, key: string)
    requires ov.Valid() && Intact(ov, content) && key in ov.values
    ensures Answers(ov.values[key], Check(Typed(Values(LoadSetting, ReadLines(Rewrite(ov, content)))), key))
  {
    hide Rewrite, Intact;
    RewriteThenLoad(ov, content);
    if !Disables(ov.values[key]) {
      ValueTextParses(ov.values[key]);
    }
  }

  /** A symbol that is not overridden is answered as before. */
  lemma OthersUnchanged(ov: Overrides, content: string, key: string)
    requires ov.Valid() && Intact(ov, content) && key !in ov.values
    ensures Check(Typed(Values(LoadSetting, ReadLines(Rewrite(ov, content)))), key)
         == Check(Typed(Values(LoadSetting, ReadLines(content))), key)
  {
    hide Rewrite, Intact;
    RewriteThenLoad(ov, content);
    var before, after := Values(LoadSetting, ReadLines(content)), Values(LoadSetting, ReadLines(Rewrite(ov, content)));
    assert key in after <==> key in before;
    assert key in before ==> after[key] == before[key] && key in Typed(before) && key in Typed(after);
  }

  /** An integer override survives as an integer iff it is not negative. */
  lemma IntegersSurviveIff(ov: Overrides, content: string, key: string)
    requires ov.Valid() && Intact(ov, content) && key in ov.values && ov.values[key].IntValue?
    ensures Check(Typed(Values(LoadSetting, ReadLines(Rewrite(ov, content)))), key) == LInt(ov.values[key].i)
       <==> ov.values[key].i >= 0
  {
    hide Rewrite, Intact;
    TypedRoundTrip(ov, content, key);
  }

  lemma HexTextIsHex(n: nat)
    ensures IsHexOf("0x" + TextIn(16, n), n)
  {
    TextIsLiteral(16, n);
    assert HexParts("0x" + TextIn(16, n), n, TextIn(16, n), "") by {
      assert "0x" + TextIn(16, n) + "" == "0x" + TextIn(16, n);
    }
  }

  /** A number requested in hex is answered as that number. */
  lemma HexSurvives(ov: Overrides, content: string, key: string, n: nat)
    requires ov.Valid() && Intact(ov, content) && key in ov.values
    requires ov.values[key].StrValue? && IsHexOf(ov.values[key].s, n)
    ensures Check(Typed(Values(LoadSetting, ReadLines(Rewrite(ov, content)))), key) == LInt(n)
  {
    hide Rewrite, Intact;
    RewriteThenLoad(ov, content);
    var s := ov.values[key].s;
    HexIsPrefixed(s, n);
    HexValueIff(s, n);
    assert s != "\"" && !Quoted(s) by {
      assert s[0] == '0';
    }
    hide HexValue, IsHexOf;
    assert s != "y" && s != "n" && s[..2] == "0x";
  }

  /** Rewrite a file, load it and ask. */
  method RewriteLoadAsk(ov: Overrides, content: string, key: string) returns (answer: Loaded)
    requires ov.Valid() && Intact(ov, content) && key in ov.values
    ensures Answers(ov.values[key], answer)
  {
    hide Rewrite, Intact;
    var rewritten := ApplyKconfigOverrides(ov, content);
    var config := new CoreConfig();
    config.LoadCoreConfig(rewritten);
    answer := config.KvCheck(key);
    TypedRoundTrip(ov, content, key);
  }
}

/** Numbers as text: how Python writes them and what its `int` takes for one. */
module Numerals {
  import opened Options
  import opened Text

  predicate IsBase(base: nat) {
    base == 2 || base == 8 || base == 10 || base == 16
  }

  predicate IsDigit(c: char) {
    '0' <= c <= '9'
  }

  /** `str.isdigit` on ASCII text. */
  predicate AllDigits(s: string) {
    s != "" && forall i | 0 <= i < |s| :: IsDigit(s[i])
  }

  // ---------- writing ----------

  function Digit(d: nat): char
    requires d < 16
  {
    "0123456789abcdef"[d]
  }

  /** The digits of `n`, lower case. */
  function TextIn(base: nat, n: nat): string
    requires IsBase(base)
  {
    if n < base then [Digit(n)] else TextIn(base, n / base) + [Digit(n % base)]
  }

  /** `str` of a number. */
  function IntText(i: int): string {
    if i < 0 then "-" + TextIn(10, -i) else TextIn(10, i)
  }

  // ---------- reading ----------

  function DigitValue(c: char): Option<nat> {
    if IsDigit(c) then Some(c as nat - '0' as nat)
    else if 'a' <= c <= 'f' then Some(c as nat - 'a' as nat + 10)
    else if 'A' <= c <= 'F' then Some(c as nat - 'A' as nat + 10)
    else None
  }

  predicate IsDigitIn(base: nat, c: char) {
    DigitValue(c).Some? && DigitValue(c).value < base
  }

  function Next(base: nat, n: nat, digit: nat): nat {
    base * n + digit
  }

  /** Digits with single underscores before digits, as `int` takes them after the prefix of a base. */
  function Numeral(base: nat, s: string): Option<nat> {
    if s == "" || !IsDigitIn(base, s[|s| - 1]) then None
    else
      var digit := DigitValue(s[|s| - 1]).value;
      var rest := s[..|s| - 1];
      if rest == "" || rest == "_" then Some(digit)
      else
        var front := Numeral(base, if rest[|rest| - 1] == '_' then rest[..|rest| - 1] else rest);
        if front.None? then None else Some(Next(base, front.value, digit))
  }

  /** A literal without its sign; a leading zero without a prefix is only allowed for zero. */
  function Unsigned(s: string): Option<nat> {
    if StartsWith(s, "0x") || StartsWith(s, "0X") then Numeral(16, s[2..])
    else if StartsWith(s, "0o") || StartsWith(s, "0O") then Numeral(8, s[2..])
    else if StartsWith(s, "0b") || StartsWith(s, "0B") then Numeral(2, s[2..])
    else if StartsWith(s, "_") then None
    else
      var number := Numeral(10, s);
      if number.Some? && number.value > 0 && s[0] == '0' then None else number
  }

  /** A literal without blanks around it. */
  function SignedLiteral(s: string): Option<int> {
    var negative := StartsWith(s, "-");
    var number := Unsigned(if negative || StartsWith(s, "+") then s[1..] else s);
    if number.None? then None
    else
      var size: int := number.value;
      Some(if negative then -size else size)
  }

  /** `int(text, 0)`; None for its ValueError. */
  function IntLiteral(text: string): Option<int> {
    SignedLiteral(Strip(IsSpace, text))
  }

  // ---------- which number a numeral denotes ----------

  /** Digits of the base and underscores, each underscore before a digit. */
  predicate WellFormed(base: nat, s: string) {
    && s != "" && IsDigitIn(base, s[|s| - 1])
    && (forall i | 0 <= i < |s| :: s[i] == '_' || IsDigitIn(base, s[i]))
    && (forall i | 0 < i < |s| :: !(s[i - 1] == '_' && s[i] == '_'))
  }

  function Lower(c: char): char {
    if 'A' <= c <= 'F' then c - 'A' + 'a' else c
  }

  /** The digits alone, in lower case. */
  function Plain(s: string): string {
    if s == "" then ""
    else Plain(s[..|s| - 1]) + if s[|s| - 1] == '_' then "" else [Lower(s[|s| - 1])]
  }

  /** Without leading zeros; the last digit stays. */
  function Significant(s: string): string {
    if |s| > 1 && s[0] == '0' then Significant(s[1..]) else s
  }

  /** The digits of each base, in either case. */
  lemma DigitsOfBase(c: char)
    ensures IsDigitIn(16, c) <==> IsDigitIn(10, c) || c in "abcdef" || c in "ABCDEF"
    ensures IsDigitIn(10, c) <==> IsDigitIn(8, c) || c == '8' || c == '9'
    ensures IsDigitIn(8, c) <==> c in "01234567"
    ensures IsDigitIn(2, c) <==> c == '0' || c == '1'
  {
    if 'a' <= c <= 'f' {
      assert "abcdef"[c as int - 'a' as int] == c;
    } else if 'A' <= c <= 'F' {
      assert "ABCDEF"[c as int - 'A' as int] == c;
    } else if '0' <= c <= '7' {
      assert "01234567"[c as int - '0' as int] == c;
    }
  }

  lemma DigitOfValue(base: nat, c: char)
    requires IsBase(base) && IsDigitIn(base, c)
    ensures Lower(c) == Digit(DigitValue(c).value) && c != '_' && (Lower(c) == '0' <==> DigitValue(c).value == 0)
  {
  }

  lemma ValueOfDigit(base: nat, d: nat)
    requires IsBase(base) && d < base
    ensures DigitValue(Digit(d)) == Some(d) && IsDigitIn(base, Digit(d)) && Digit(d) != '_'
    ensures base <= 10 ==> IsDigit(Digit(d))
  {
  }

  lemma {:induction false} SignificantOneMore(t: string, c: char)
    requires t != ""
    ensures Significant(t + [c]) == if Significant(t) == "0" then [c] else Significant(t) + [c]
    decreases |t|
  {
    if t[0] == '0' {
      assert (t + [c])[1..] == t[1..] + [c];
      if |t| > 1 {
        SignificantOneMore(t[1..], c);
      }
    } else {
      assert Significant(t) == t != "0";
    }
  }

  lemma DivideBack(base: nat, n: nat, d: nat)
    requires IsBase(base) && d < base
    ensures Next(base, n, d) / base == n && Next(base, n, d) % base == d && (n > 0 <==> Next(base, n, d) >= base)
  {
    if base == 2 {
    } else if base == 8 {
    } else if base == 10 {
    } else {
    }
  }

  lemma TextOneMore(base: nat, n: nat, d: nat)
    requires IsBase(base) && d < base
    ensures TextIn(base, Next(base, n, d)) == if n == 0 then [Digit(d)] else TextIn(base, n) + [Digit(d)]
  {
    DivideBack(base, n, d);
  }

  lemma {:induction false} ZeroText(base: nat, n: nat)
    requires IsBase(base)
    ensures TextIn(base, n) != "" && (TextIn(base, n) == "0" <==> n == 0)
  {
    if n >= base {
      ZeroText(base, n / base);
    } else {
      assert n > 0 ==> Digit(n) != '0';
    }
  }

  /** The text before the last digit, and before an underscore in front of that. */
  function Front(s: string): string
    requires s != ""
  {
    var rest := s[..|s| - 1];
    if rest != "" && rest[|rest| - 1] == '_' then rest[..|rest| - 1] else rest
  }

  lemma WellFormedFront(base: nat, s: string)
    requires s != "" && IsDigitIn(base, s[|s| - 1])
    ensures WellFormed(base, s) <==> Front(s) == "" || WellFormed(base, Front(s))
  {
    var f := Front(s);
    assert s[|s| - 1] != '_';
    hide IsDigitIn;
    assert forall i | 0 <= i < |f| :: f[i] == s[i];
    if |f| + 1 < |s| {
      assert s[|f|] == '_';
    }
    if f != "" && WellFormed(base, s) {
      assert f[|f| - 1] != '_';
    }
  }

  lemma {:induction false} PlainOfFront(s: string)
    requires s != "" && s[|s| - 1] != '_'
    ensures Plain(s) == Plain(Front(s)) + [Lower(s[|s| - 1])]
  {
    var rest := s[..|s| - 1];
    if rest != "" && rest[|rest| - 1] == '_' {
      assert Plain(rest) == Plain(rest[..|rest| - 1]) + "";
    }
  }

  lemma {:induction false} NumeralFront(base: nat, s: string)
    ensures Numeral(base, s) ==
      if s == "" || !IsDigitIn(base, s[|s| - 1]) then None
      else if Front(s) == "" then DigitValue(s[|s| - 1])
      else if Numeral(base, Front(s)).None? then None
      else Some(Next(base, Numeral(base, Front(s)).value, DigitValue(s[|s| - 1]).value))
  {
  }

  lemma NumeralOneMore(base: nat, s: string, q: nat, d: nat)
    requires s != "" && IsDigitIn(base, s[|s| - 1]) && DigitValue(s[|s| - 1]) == Some(d)
    requires if Front(s) == "" then q == 0 else Numeral(base, Front(s)) == Some(q)
    ensures Numeral(base, s) == Some(Next(base, q, d))
  {
    NumeralFront(base, s);
    hide Numeral, Front, DigitValue, IsDigitIn;
  }

  /** A numeral is a well-formed text, and its digits are those of the number it denotes. */
  lemma {:induction false} NumeralIs(base: nat, s: string)
    requires IsBase(base)
    ensures Numeral(base, s).Some? <==> WellFormed(base, s)
    ensures Numeral(base, s).Some? ==> Plain(s) != "" && Significant(Plain(s)) == TextIn(base, Numeral(base, s).value)
    decreases |s|
  {
    NumeralFront(base, s);
    if s != "" && IsDigitIn(base, s[|s| - 1]) {
      var f, c := Front(s), s[|s| - 1];
      WellFormedFront(base, s);
      DigitOfValue(base, c);
      PlainOfFront(s);
      hide Numeral, WellFormed, Digit, DigitValue, IsDigitIn, IsDigit, Front, Lower, IsBase;
      if f == "" {
        assert Plain(s) == [Lower(c)];
      } else {
        NumeralIs(base, f);
        if Numeral(base, f).Some? {
          var n := Numeral(base, f).value;
          SignificantOneMore(Plain(f), Lower(c));
          TextOneMore(base, n, DigitValue(c).value);
          ZeroText(base, n);
        }
      }
    }
  }

  lemma Divided(base: nat, n: nat)
    requires IsBase(base)
    ensures 0 <= n % base < base && Next(base, n / base, n % base) == n
    ensures if n < base then n % base == n else n / base < n
  {
  }

  lemma {:induction false} TextHasDigits(base: nat, n: nat)
    requires IsBase(base)
    ensures forall i | 0 <= i < |TextIn(base, n)| :: IsDigitIn(base, TextIn(base, n)[i]) && TextIn(base, n)[i] != '_'
    ensures TextIn(base, n) != "" && (base <= 10 ==> AllDigits(TextIn(base, n)))
  {
    Divided(base, n);
    var d := n % base;
    ValueOfDigit(base, d);
    hide IsDigitIn, Digit, IsDigit, DigitValue;
    if n >= base {
      var front := TextIn(base, n / base);
      TextHasDigits(base, n / base);
      assert TextIn(base, n) == front + [Digit(d)];
    } else {
      assert TextIn(base, n) == [Digit(d)];
    }
  }

  lemma TextEnds(base: nat, n: nat)
    requires IsBase(base)
    ensures var s := TextIn(base, n);
      && s != "" && s[|s| - 1] == Digit(n % base) && s[|s| - 1] != '_'
      && s[..|s| - 1] == if n < base then "" else TextIn(base, n / base)
  {
    Divided(base, n);
    var d := n % base;
    ValueOfDigit(base, d);
    hide Digit, IsDigitIn, DigitValue, IsDigit;
    if n >= base {
      var front := TextIn(base, n / base);
      assert TextIn(base, n) == front + [Digit(d)];
    }
  }

  lemma FrontOfText(base: nat, n: nat)
    requires IsBase(base)
    ensures var s := TextIn(base, n);
      s != "" && s[|s| - 1] == Digit(n % base) && Front(s) == if n < base then "" else TextIn(base, n / base)
  {
    TextEnds(base, n);
    TextEnds(base, n / base);
    hide TextIn, Digit, IsBase;
  }

  /** Reading what was written gives the number back. */
  lemma {:induction false} NumeralOfText(base: nat, n: nat)
    requires IsBase(base)
    ensures Numeral(base, TextIn(base, n)) == Some(n)
  {
    Divided(base, n);
    var q, d := n / base, n % base;
    ValueOfDigit(base, d);
    FrontOfText(base, n);
    hide *;
    if n >= base {
      FrontOfText(base, q);
      NumeralOfText(base, q);
    }
    NumeralOneMore(base, TextIn(base, n), q, d);
  }

  /** A text denotes a number iff it is well-formed and has the digits of that number. */
  lemma NumeralIff(base: nat, s: string, n: nat)
    requires IsBase(base)
    ensures Numeral(base, s) == Some(n) <==> WellFormed(base, s) && Significant(Plain(s)) == TextIn(base, n)
  {
    NumeralIs(base, s);
    NumeralOfText(base, n);
    if Numeral(base, s).Some? {
      NumeralOfText(base, Numeral(base, s).value);
    }
  }

  lemma {:induction false} PlainOfDigits(s: string)
    requires forall i | 0 <= i < |s| :: IsDigit(s[i])
    ensures Plain(s) == s
  {
    if s != "" {
      PlainOfDigits(s[..|s| - 1]);
    }
  }

  lemma DigitsWellFormed(s: string)
    requires AllDigits(s)
    ensures WellFormed(10, s) && Plain(s) == s
  {
    PlainOfDigits(s) by {
      hide DigitValue, WellFormed, Plain;
    }
    hide Plain;
    forall i | 0 <= i < |s| ensures IsDigitIn(10, s[i]) && s[i] != '_' {
      assert IsDigit(s[i]);
    }
    hide IsDigitIn, IsDigit;
  }

  lemma DigitsAreNumeral(s: string)
    requires AllDigits(s)
    ensures Numeral(10, s).Some? && Significant(s) == TextIn(10, Numeral(10, s).value)
  {
    hide *;
    DigitsWellFormed(s);
    TenIsBase();
    NumeralIs(10, s);
  }

  lemma TenIsBase()
    ensures IsBase(10)
  {
  }

  /** `int(s)` of a string of ASCII digits. */
  function Decimal(s: string): (n: nat)
    requires AllDigits(s)
    ensures Significant(s) == TextIn(10, n)
  {
    DigitsAreNumeral(s);
    Numeral(10, s).value
  }

  /** A number is told by its digits. */
  lemma TextTellsNumber(base: nat, m: nat, n: nat)
    requires IsBase(base) && TextIn(base, m) == TextIn(base, n)
    ensures m == n
  {
    NumeralOfText(base, m);
    NumeralOfText(base, n);
  }

  // ---------- which number a literal denotes ----------

  predicate IsSign(sign: string) {
    sign == "" || sign == "+" || sign == "-"
  }

  function Signed(sign: string, n: nat): int {
    var size: int := n;
    if sign == "-" then -size else size
  }

  /** The prefixes by which a literal tells its base. */
  predicate IsPrefix(base: nat, prefix: string) {
    || (base == 16 && (prefix == "0x" || prefix == "0X"))
    || (base == 8 && (prefix == "0o" || prefix == "0O"))
    || (base == 2 && (prefix == "0b" || prefix == "0B"))
    || (base == 10 && prefix == "")
  }

  /** Without a prefix the first digit stands first, and it is not zero unless all digits are. */
  predicate FirstDigitFits(prefix: string, digits: string, n: nat) {
    prefix == "" && digits != "" ==> digits[0] != '_' && (digits[0] == '0' ==> n == 0)
  }

  lemma PrefixedIs(base: nat, prefix: string, digits: string)
    requires IsPrefix(base, prefix) && prefix != ""
    ensures Unsigned(prefix + digits) == Numeral(base, digits)
  {
    var s := prefix + digits;
    hide Numeral;
    assert s[..2] == prefix && s[2..] == digits;
  }

  lemma NoPrefixIn(digits: string)
    requires WellFormed(10, digits)
    ensures |digits| >= 2 ==> digits[1] == '_' || IsDigit(digits[1])
    ensures digits[0] == '_' || IsDigit(digits[0])
  {
    assert IsDigitIn(10, digits[0]) || digits[0] == '_';
    assert |digits| >= 2 ==> IsDigitIn(10, digits[1]) || digits[1] == '_';
  }

  lemma DecimalIs(digits: string)
    requires WellFormed(10, digits) && Numeral(10, digits).Some?
    ensures Unsigned(digits)
         == if FirstDigitFits("", digits, Numeral(10, digits).value) then Numeral(10, digits) else None
  {
    NoPrefixIn(digits);
    hide Numeral, WellFormed;
    assert |digits| >= 2 ==> digits[..2] == [digits[0], digits[1]];
    assert digits[..1] == [digits[0]];
  }

  lemma UnsignedIs(base: nat, prefix: string, digits: string)
    requires IsPrefix(base, prefix) && WellFormed(base, digits)
    ensures Numeral(base, digits).Some?
    ensures Unsigned(prefix + digits)
         == if FirstDigitFits(prefix, digits, Numeral(base, digits).value) then Numeral(base, digits) else None
  {
    assert IsBase(base);
    NumeralIs(base, digits);
    hide Numeral, WellFormed, Unsigned;
    if prefix == "" {
      DecimalIs(digits);
      assert prefix + digits == digits;
    } else {
      PrefixedIs(base, prefix, digits);
    }
  }

  lemma FirstOf(base: nat, prefix: string, digits: string)
    requires IsPrefix(base, prefix) && WellFormed(base, digits)
    ensures var s := prefix + digits;
      s[0] != '-' && s[0] != '+' && !IsSpace(s[0]) && !IsSpace(s[|s| - 1])
  {
    assert digits[0] == '_' || IsDigitIn(base, digits[0]);
  }

  lemma SignSplit(sign: string, s: string)
    requires IsSign(sign) && s != "" && s[0] != '-' && s[0] != '+' && !IsSpace(s[0]) && !IsSpace(s[|s| - 1])
    ensures NoMargin(IsSpace, sign + s) && (sign + s)[|sign|..] == s
    ensures StartsWith(sign + s, "-") == (sign == "-") && StartsWith(sign + s, "+") == (sign == "+")
    ensures sign == "" ==> sign + s == s
  {
    assert (sign + s)[..1] == if sign == "" then [s[0]] else sign;
  }

  lemma SignIs(sign: string, s: string)
    requires IsSign(sign) && s != "" && s[0] != '-' && s[0] != '+' && !IsSpace(s[0]) && !IsSpace(s[|s| - 1])
    ensures SignedLiteral(sign + s) == if Unsigned(s).None? then None else Some(Signed(sign, Unsigned(s).value))
  {
    SignSplit(sign, s);
    hide Unsigned, IsSpace, StartsWith, NoMargin;
    if sign != "" {
      assert (sign + s)[1..] == s;
    }
  }

  lemma SignedUnsigned(left: string, sign: string, s: string, right: string)
    requires AllBlank(IsSpace, left) && AllBlank(IsSpace, right) && IsSign(sign)
    requires s != "" && s[0] != '-' && s[0] != '+' && !IsSpace(s[0]) && !IsSpace(s[|s| - 1])
    ensures IntLiteral(left + (sign + s) + right)
         == if Unsigned(s).None? then None else Some(Signed(sign, Unsigned(s).value))
  {
    SignSplit(sign, s);
    SignIs(sign, s);
    hide Strip, SignedLiteral, StartsWith, IsSpace, IsSign, Unsigned, NoMargin, AllBlank;
    StripIs(IsSpace, left, sign + s, right);
  }

  /** A literal between blanks denotes its sign and the number of its digits in its base. */
  lemma LiteralIs(left: string, sign: string, base: nat, prefix: string, digits: string, right: string, n: nat)
    requires AllBlank(IsSpace, left) && AllBlank(IsSpace, right) && IsSign(sign) && IsPrefix(base, prefix)
    requires WellFormed(base, digits) && Significant(Plain(digits)) == TextIn(base, n)
    ensures IntLiteral(left + (sign + (prefix + digits)) + right)
         == if FirstDigitFits(prefix, digits, n) then Some(Signed(sign, n)) else None
  {
    FirstOf(base, prefix, digits);
    UnsignedIs(base, prefix, digits);
    assert IsBase(base) && prefix + digits != "";
    hide *;
    NumeralIff(base, digits, n);
    SignedUnsigned(left, sign, prefix + digits, right);
  }

  lemma UnsignedParts(s: string) returns (base: nat, prefix: string, digits: string)
    requires Unsigned(s).Some?
    ensures IsPrefix(base, prefix) && WellFormed(base, digits) && s == prefix + digits
    ensures Significant(Plain(digits)) == TextIn(base, Unsigned(s).value)
    ensures FirstDigitFits(prefix, digits, Unsigned(s).value)
  {
    base, prefix, digits := 10, "", s;
    if StartsWith(s, "0x") || StartsWith(s, "0X") {
      base, prefix, digits := 16, s[..2], s[2..];
    } else if StartsWith(s, "0o") || StartsWith(s, "0O") {
      base, prefix, digits := 8, s[..2], s[2..];
    } else if StartsWith(s, "0b") || StartsWith(s, "0B") {
      base, prefix, digits := 2, s[..2], s[2..];
    } else if s != "" {
      assert s[..1] == [s[0]];
    }
    assert Numeral(base, digits) == Unsigned(s);
    NumeralIs(base, digits);
  }

  /** Nothing else is a literal. */
  lemma LiteralParts(text: string)
    returns (left: string, sign: string, base: nat, prefix: string, digits: string, right: string, n: nat)
    requires IntLiteral(text).Some?
    ensures AllBlank(IsSpace, left) && AllBlank(IsSpace, right) && IsSign(sign) && IsPrefix(base, prefix)
    ensures WellFormed(base, digits) && Significant(Plain(digits)) == TextIn(base, n)
    ensures FirstDigitFits(prefix, digits, n) && IntLiteral(text) == Some(Signed(sign, n))
    ensures text == left + (sign + (prefix + digits)) + right
  {
    left, right := StripMargins(IsSpace, text);
    var s := Strip(IsSpace, text);
    sign := if StartsWith(s, "-") || StartsWith(s, "+") then s[..1] else "";
    base, prefix, digits := UnsignedParts(s[|sign|..]);
    n := Unsigned(s[|sign|..]).value;
    hide Strip, Numeral, WellFormed, Unsigned, Significant, Plain, TextIn, IsPrefix, FirstDigitFits;
    assert s == sign + s[|sign|..];
  }

  /** Python reads back what it writes. */
  lemma LiteralOfInt(i: int)
    ensures IntLiteral(IntText(i)) == Some(i)
  {
    var n := if i < 0 then -i else i;
    var sign, digits := if i < 0 then "-" else "", TextIn(10, n);
    TextIsLiteral(10, n);
    assert "" + (sign + ("" + digits)) + "" == sign + digits;
    assert sign + digits == IntText(i);
    hide *;
    LiteralIs("", sign, 10, "", digits, "", n);
  }

  lemma TextIsLiteral(base: nat, n: nat)
    requires IsBase(base)
    ensures WellFormed(base, TextIn(base, n)) && Significant(Plain(TextIn(base, n))) == TextIn(base, n)
    ensures FirstDigitFits("", TextIn(base, n), n)
  {
    NumeralOfText(base, n);
    NumeralIff(base, TextIn(base, n), n);
    TextFirstDigit(base, n);
  }

  lemma {:induction false} TextFirstDigit(base: nat, n: nat)
    requires IsBase(base)
    ensures TextIn(base, n) != "" && TextIn(base, n)[0] != '_' && (TextIn(base, n)[0] == '0' ==> n == 0)
  {
    ValueOfDigit(base, n % base);
    Divided(base, n);
    if n >= base {
      TextFirstDigit(base, n / base);
    }
  }
}

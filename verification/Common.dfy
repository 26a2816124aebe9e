/** An optional value, for Python's `None`. */
module Options {

  datatype Option<+T> = None | Some(value: T)
}

/** Substring search and other small facts about text. */
module Text {

  /** `word` occurs in `text` at offset `i`. */
  predicate OccursAt(word: string, text: string, i: int) {
    0 <= i <= |text| - |word| && text[i..i + |word|] == word
  }

  /** Python's `word in text`. */
  predicate Contains(text: string, word: string) {
    exists i | 0 <= i <= |text| :: OccursAt(word, text, i)
  }

  predicate StartsWith(text: string, word: string) {
    |word| <= |text| && text[..|word|] == word
  }

  /** `bytes.strip` and `\s` of a bytes pattern know only these. */
  predicate IsByteSpace(c: char) {
    '\t' <= c <= '\r' || c == ' '
  }

  /** `str.isspace` and the class `\s` of a text pattern. */
  predicate IsSpace(c: char) {
    || IsByteSpace(c) || 0x1c as char <= c <= 0x1f as char || c == 0x85 as char || c == 0xa0 as char
    || c == 0x1680 as char || 0x2000 as char <= c <= 0x200a as char || c == 0x2028 as char || c == 0x2029 as char
    || c == 0x202f as char || c == 0x205f as char || c == 0x3000 as char
  }

  /** The blanks of bytes, and those that only text has. */
  lemma BlanksAre(c: char)
    ensures IsByteSpace(c) <==> c in " \t\n\r\U{0b}\U{0c}"
    ensures IsSpace(c) <==>
      || IsByteSpace(c) || c in "\U{1c}\U{1d}\U{1e}\U{1f}\U{85}\U{a0}\U{1680}\U{2028}\U{2029}\U{202f}\U{205f}\U{3000}"
      || c in "\U{2000}\U{2001}\U{2002}\U{2003}\U{2004}\U{2005}\U{2006}\U{2007}\U{2008}\U{2009}\U{200a}"
  {
    var bytes := " \t\n\r\U{0b}\U{0c}";
    var text := "\U{1c}\U{1d}\U{1e}\U{1f}\U{85}\U{a0}\U{1680}\U{2028}\U{2029}\U{202f}\U{205f}\U{3000}";
    var wide := "\U{2000}\U{2001}\U{2002}\U{2003}\U{2004}\U{2005}\U{2006}\U{2007}\U{2008}\U{2009}\U{200a}";
    assert bytes[0] == ' ' && bytes[1] == '\t' && bytes[2] == '\n' && bytes[3] == '\r';
    assert bytes[4] == 0x0b as char && bytes[5] == 0x0c as char;
    assert text[0] == 0x1c as char && text[1] == 0x1d as char && text[2] == 0x1e as char && text[3] == 0x1f as char;
    assert text[4] == 0x85 as char && text[5] == 0xa0 as char && text[6] == 0x1680 as char && text[7] == 0x2028 as char;
    assert text[8] == 0x2029 as char && text[9] == 0x202f as char && text[10] == 0x205f as char;
    assert text[11] == 0x3000 as char;
    if 0x2000 as char <= c <= 0x200a as char {
      assert wide[c as int - 0x2000] == c;
    }
  }

  // ---------- stripping ----------

  function StripLeft(blank: char -> bool, text: string): string {
    if text != "" && blank(text[0]) then StripLeft(blank, text[1..]) else text
  }

  function StripRight(blank: char -> bool, text: string): string {
    if text != "" && blank(text[|text| - 1]) then StripRight(blank, text[..|text| - 1]) else text
  }

  /** `strip`, for what counts as blank in a text or in bytes. */
  function Strip(blank: char -> bool, text: string): string {
    StripRight(blank, StripLeft(blank, text))
  }

  predicate AllBlank(blank: char -> bool, text: string) {
    forall k | 0 <= k < |text| :: blank(text[k])
  }

  predicate NoMargin(blank: char -> bool, text: string) {
    text != "" ==> !blank(text[0]) && !blank(text[|text| - 1])
  }

  lemma {:induction false} StripLeftDrops(blank: char -> bool, left: string, text: string)
    requires AllBlank(blank, left) && (text != "" ==> !blank(text[0]))
    ensures StripLeft(blank, left + text) == text
  {
    if left == "" {
      assert left + text == text;
    } else {
      assert (left + text)[1..] == left[1..] + text;
      StripLeftDrops(blank, left[1..], text);
    }
  }

  lemma {:induction false} StripRightDrops(blank: char -> bool, text: string, right: string)
    requires AllBlank(blank, right) && (text != "" ==> !blank(text[|text| - 1]))
    ensures StripRight(blank, text + right) == text
  {
    if right == "" {
      assert text + right == text;
    } else {
      var n := |right| - 1;
      assert (text + right)[..|text| + n] == text + right[..n];
      StripRightDrops(blank, text, right[..n]);
    }
  }

  /** Stripping takes off exactly the blanks at both ends. */
  lemma StripIs(blank: char -> bool, left: string, text: string, right: string)
    requires AllBlank(blank, left) && AllBlank(blank, right) && NoMargin(blank, text)
    ensures Strip(blank, left + text + right) == text
  {
    if text == "" {
      assert left + text + right == (left + right) + "";
      StripLeftDrops(blank, left + right, "");
    } else {
      assert left + text + right == left + (text + right);
      StripLeftDrops(blank, left, text + right);
      StripRightDrops(blank, text, right);
    }
  }

  /** Every text is what is left of it between two blank margins. */
  lemma {:induction false} StripMargins(blank: char -> bool, text: string) returns (left: string, right: string)
    ensures AllBlank(blank, left) && AllBlank(blank, right) && NoMargin(blank, Strip(blank, text))
    ensures text == left + Strip(blank, text) + right
    decreases |text|
  {
    if text != "" && blank(text[0]) {
      left, right := StripMargins(blank, text[1..]);
      left := [text[0]] + left;
    } else if text != "" && blank(text[|text| - 1]) {
      var n := |text| - 1;
      left, right := StripMargins(blank, text[..n]);
      right := right + [text[n]];
      assert text == text[..n] + [text[n]];
      StripIs(blank, left, Strip(blank, text[..n]), right);
    } else {
      left, right := "", "";
    }
  }
}

/** Python's stable `sorted`, with the ordering as a parameter. */
module Sorting {

  ghost predicate TotalPreorder<T(!new)>(leq: (T, T) -> bool) {
    && (forall x, y :: leq(x, y) || leq(y, x))
    && (forall x, y, z :: leq(x, y) && leq(y, z) ==> leq(x, z))
  }

  ghost predicate SortedBy<T>(leq: (T, T) -> bool, xs: seq<T>) {
    forall i, j | 0 <= i < j < |xs| :: leq(xs[i], xs[j])
  }

  /** Places `x` before the elements it may precede. */
  function Insert<T>(leq: (T, T) -> bool, x: T, xs: seq<T>): (r: seq<T>)
    ensures multiset(r) == multiset{x} + multiset(xs)
  {
    if xs == [] then [x]
    else if leq(x, xs[0]) then
      assert multiset([x] + xs) == multiset{x} + multiset(xs);
      [x] + xs
    else
      assert xs == [xs[0]] + xs[1..];
      [xs[0]] + Insert(leq, x, xs[1..])
  }

  function Sort<T>(leq: (T, T) -> bool, xs: seq<T>): (r: seq<T>)
    ensures multiset(r) == multiset(xs)
  {
    if xs == [] then []
    else
      assert xs == [xs[0]] + xs[1..];
      Insert(leq, xs[0], Sort(leq, xs[1..]))
  }

  lemma {:induction false} InsertKeepsSorted<T(!new)>(leq: (T, T) -> bool, x: T, xs: seq<T>)
    requires TotalPreorder(leq) && SortedBy(leq, xs)
    ensures SortedBy(leq, Insert(leq, x, xs))
  {
    if xs != [] && !leq(x, xs[0]) {
      var rest := Insert(leq, x, xs[1..]);
      InsertKeepsSorted(leq, x, xs[1..]);
      forall y | y in rest ensures leq(xs[0], y) {
        assert y in multiset(rest);
        assert y == x || y in multiset(xs[1..]);
      }
    }
  }

  lemma {:induction false} SortSorts<T(!new)>(leq: (T, T) -> bool, xs: seq<T>)
    requires TotalPreorder(leq)
    ensures SortedBy(leq, Sort(leq, xs))
  {
    if xs != [] {
      SortSorts(leq, xs[1..]);
      InsertKeepsSorted(leq, xs[0], Sort(leq, xs[1..]));
    }
  }

  ghost predicate StrictlySortedBy<T>(leq: (T, T) -> bool, xs: seq<T>) {
    forall i, j | 0 <= i < j < |xs| :: leq(xs[i], xs[j]) && !leq(xs[j], xs[i])
  }

  lemma SameHead<T(!new)>(leq: (T, T) -> bool, xs: seq<T>, ys: seq<T>)
    requires SortedBy(leq, xs) && StrictlySortedBy(leq, ys)
    requires multiset(xs) == multiset(ys) && xs != [] && ys != []
    ensures xs[0] == ys[0]
  {
    assert xs[0] in multiset(ys) && ys[0] in multiset(xs);
    var j :| 0 <= j < |ys| && ys[j] == xs[0];
    var i :| 0 <= i < |xs| && xs[i] == ys[0];
  }

  lemma MultisetTail<T>(xs: seq<T>)
    requires xs != []
    ensures multiset(xs[1..]) == multiset(xs) - multiset{xs[0]}
  {
    assert xs == [xs[0]] + xs[1..];
  }

  lemma SameLength<T>(xs: seq<T>, ys: seq<T>)
    requires multiset(xs) == multiset(ys)
    ensures |xs| == |ys|
  {
    assert |xs| == |multiset(xs)| == |ys|;
  }

  lemma SameTails<T>(xs: seq<T>, ys: seq<T>)
    requires multiset(xs) == multiset(ys) && xs != [] && ys != [] && xs[0] == ys[0]
    ensures multiset(xs[1..]) == multiset(ys[1..])
  {
    MultisetTail(xs);
    MultisetTail(ys);
  }

  /** A sequence sorted on distinct keys is the only sorted arrangement of its elements. */
  lemma {:induction false} SortedIsUnique<T(!new)>(leq: (T, T) -> bool, xs: seq<T>, ys: seq<T>)
    requires SortedBy(leq, xs) && StrictlySortedBy(leq, ys)
    requires multiset(xs) == multiset(ys)
    ensures xs == ys
  {
    SameLength(xs, ys);
    if xs != [] {
      SameHead(leq, xs, ys);
      SameTails(xs, ys);
      assert SortedBy(leq, xs[1..]) && StrictlySortedBy(leq, ys[1..]);
      hide SortedBy, StrictlySortedBy;
      SortedIsUnique(leq, xs[1..], ys[1..]);
      assert xs == [xs[0]] + xs[1..] && ys == [ys[0]] + ys[1..];
    }
  }

  predicate NoDuplicates<T(==)>(xs: seq<T>) {
    forall i, j | 0 <= i < j < |xs| :: xs[i] != xs[j]
  }

  lemma {:induction false} CountOnce<T>(xs: seq<T>, x: T)
    requires NoDuplicates(xs)
    ensures multiset(xs)[x] == if x in xs then 1 else 0
  {
    if xs != [] {
      CountOnce(xs[1..], x);
      assert xs == [xs[0]] + xs[1..];
    }
  }

  lemma NoDuplicatesPermuted<T>(xs: seq<T>, ys: seq<T>)
    requires NoDuplicates(xs) && multiset(xs) == multiset(ys)
    ensures NoDuplicates(ys)
  {
    forall i, j | 0 <= i < j < |ys| ensures ys[i] != ys[j] {
      CountOnce(xs, ys[i]);
      assert ys == ys[..j] + ys[j..];
      assert ys[..j][i] == ys[i] && ys[j..][0] == ys[j];
    }
  }

  function MapSeq<A, B>(f: A -> B, xs: seq<A>): (r: seq<B>)
    ensures |r| == |xs| && forall i | 0 <= i < |xs| :: r[i] == f(xs[i])
  {
    if xs == [] then [] else [f(xs[0])] + MapSeq(f, xs[1..])
  }

  lemma {:induction false} MapConcat<A, B>(f: A -> B, xs: seq<A>, ys: seq<A>)
    ensures MapSeq(f, xs + ys) == MapSeq(f, xs) + MapSeq(f, ys)
  {
    hide MapSeq;
    var both, all := MapSeq(f, xs + ys), MapSeq(f, xs) + MapSeq(f, ys);
    forall i | 0 <= i < |both| ensures both[i] == all[i] {
      assert both[i] == f((xs + ys)[i]);
    }
  }

  lemma {:induction false} MapWithout<A, B>(f: A -> B, xs: seq<A>, j: nat)
    requires j < |xs|
    ensures multiset(MapSeq(f, xs)) == multiset{f(xs[j])} + multiset(MapSeq(f, xs[..j] + xs[j + 1..]))
  {
    var front, back := xs[..j], xs[j + 1..];
    assert xs == front + ([xs[j]] + back);
    assert MapSeq(f, [xs[j]]) == [f(xs[j])];
    hide MapSeq;
    MapConcat(f, front, [xs[j]] + back);
    MapConcat(f, [xs[j]], back);
    MapConcat(f, front, back);
    OneInTheMiddle(MapSeq(f, front), f(xs[j]), MapSeq(f, back));
  }

  lemma OneInTheMiddle<T>(front: seq<T>, x: T, back: seq<T>)
    ensures multiset(front + ([x] + back)) == multiset{x} + multiset(front + back)
  {
  }

  lemma MultisetWithout<T>(xs: seq<T>, j: nat)
    requires j < |xs|
    ensures multiset(xs[..j] + xs[j + 1..]) == multiset(xs) - multiset{xs[j]}
  {
    assert xs == xs[..j] + [xs[j]] + xs[j + 1..];
  }

  /** Mapping permuted sequences gives permuted results. */
  lemma {:induction false} MapPermuted<A, B>(f: A -> B, xs: seq<A>, ys: seq<A>)
    requires multiset(xs) == multiset(ys)
    ensures multiset(MapSeq(f, xs)) == multiset(MapSeq(f, ys))
  {
    assert |xs| == |multiset(xs)| == |ys|;
    if xs != [] {
      assert xs[0] in multiset(ys);
      var j :| 0 <= j < |ys| && ys[j] == xs[0];
      MultisetTail(xs);
      MultisetWithout(ys, j);
      MapWithout(f, ys, j);
      MapPermuted(f, xs[1..], ys[..j] + ys[j + 1..]);
    }
  }
}

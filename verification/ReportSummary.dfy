/** Grouping a list by a key and adding up a measure, group by group. */
module Grouping {
  import opened Sorting

  /** The counts of a list of testcases. */
  datatype Totals = Totals(tests: int, failures: int, errors: int, skipped: int, time: real) {
    function Plus(t: Totals): Totals {
      Totals(tests + t.tests, failures + t.failures, errors + t.errors, skipped + t.skipped, time + t.time)
    }
  }

  const NO_TOTALS := Totals(0, 0, 0, 0, 0.0)

  function Select<T>(key: T -> string, xs: seq<T>, name: string): seq<T> {
    if xs == [] then []
    else Select(key, xs[..|xs| - 1], name) + if key(xs[|xs| - 1]) == name then [xs[|xs| - 1]] else []
  }

  lemma {:induction false} SelectedBelong<T>(key: T -> string, xs: seq<T>, name: string)
    ensures forall i | 0 <= i < |Select(key, xs, name)| ::
      Select(key, xs, name)[i] in xs && key(Select(key, xs, name)[i]) == name
    ensures forall x | x in xs && key(x) == name :: x in Select(key, xs, name)
  {
    if xs != [] {
      var n := |xs| - 1;
      SelectedBelong(key, xs[..n], name);
      assert xs == xs[..n] + [xs[n]];
    }
  }

  function Gather<T>(key: T -> string, names: seq<string>, xs: seq<T>): seq<T> {
    if names == [] then []
    else Gather(key, names[..|names| - 1], xs) + Select(key, xs, names[|names| - 1])
  }

  /** The names are exactly the keys of the list, each once. */
  predicate AreKeys<T>(key: T -> string, names: seq<string>, xs: seq<T>) {
    && NoDuplicates(names)
    && (forall k | 0 <= k < |xs| :: key(xs[k]) in names)
    && (forall i | 0 <= i < |names| :: Select(key, xs, names[i]) != [])
  }

  lemma SelectOneMore<T>(key: T -> string, xs: seq<T>, x: T, name: string)
    ensures Select(key, xs + [x], name) == Select(key, xs, name) + if key(x) == name then [x] else []
  {
    var all := xs + [x];
    assert all[..|all| - 1] == xs && all[|all| - 1] == x;
  }

  lemma LastName(names: seq<string>, x: string)
    requires names != [] && NoDuplicates(names)
    ensures NoDuplicates(names[..|names| - 1])
    ensures x in names <==> x in names[..|names| - 1] || x == names[|names| - 1]
    ensures !(x in names[..|names| - 1] && x == names[|names| - 1])
  {
    assert names == names[..|names| - 1] + [names[|names| - 1]];
  }

  lemma {:induction false} GatherOneMore<T>(key: T -> string, names: seq<string>, xs: seq<T>, x: T)
    requires NoDuplicates(names)
    ensures multiset(Gather(key, names, xs + [x]))
         == multiset(Gather(key, names, xs)) + if key(x) in names then multiset{x} else multiset{}
  {
    if names != [] {
      var n := |names| - 1;
      GatherOneMore(key, names[..n], xs, x);
      SelectOneMore(key, xs, x, names[n]);
      LastName(names, key(x));
      hide Select, NoDuplicates;
    }
  }

  lemma {:induction false} GatherNothing<T>(key: T -> string, names: seq<string>)
    ensures Gather(key, names, []) == []
  {
    if names != [] {
      GatherNothing(key, names[..|names| - 1]);
    }
  }

  lemma InitAndLast<T>(xs: seq<T>)
    requires xs != []
    ensures xs == xs[..|xs| - 1] + [xs[|xs| - 1]]
  {
  }

  /** Going through all keys visits every element exactly once. */
  lemma {:induction false} GatherIsPermutation<T>(key: T -> string, names: seq<string>, xs: seq<T>)
    requires NoDuplicates(names) && forall k | 0 <= k < |xs| :: key(xs[k]) in names
    ensures multiset(Gather(key, names, xs)) == multiset(xs)
  {
    if xs == [] {
      GatherNothing(key, names);
    } else {
      var n := |xs| - 1;
      InitAndLast(xs);
      GatherOneMore(key, names, xs[..n], xs[n]);
      GatherIsPermutation(key, names, xs[..n]);
    }
  }

  function Tally<T>(f: T -> Totals, xs: seq<T>): Totals {
    if xs == [] then NO_TOTALS else Tally(f, xs[..|xs| - 1]).Plus(f(xs[|xs| - 1]))
  }

  function TallyByKey<T>(key: T -> string, f: T -> Totals, names: seq<string>, xs: seq<T>): Totals {
    if names == [] then NO_TOTALS
    else TallyByKey(key, f, names[..|names| - 1], xs).Plus(Tally(f, Select(key, xs, names[|names| - 1])))
  }

  lemma TallyOneMore<T>(f: T -> Totals, xs: seq<T>, x: T)
    ensures Tally(f, xs + [x]) == Tally(f, xs).Plus(f(x))
  {
    var all := xs + [x];
    assert all[..|all| - 1] == xs && all[|all| - 1] == x;
  }

  lemma PlusPlus(a: Totals, b: Totals, c: Totals)
    ensures a.Plus(b.Plus(c)) == a.Plus(b).Plus(c) == a.Plus(c).Plus(b)
  {
  }

  lemma {:induction false} TallyByKeyOneMore<T>(key: T -> string, f: T -> Totals, names: seq<string>, xs: seq<T>, x: T)
    requires NoDuplicates(names)
    ensures TallyByKey(key, f, names, xs + [x])
         == if key(x) in names then TallyByKey(key, f, names, xs).Plus(f(x)) else TallyByKey(key, f, names, xs)
  {
    if names != [] {
      var n := |names| - 1;
      var name := names[n];
      var before, own := TallyByKey(key, f, names[..n], xs), Tally(f, Select(key, xs, name));
      assert TallyByKey(key, f, names, xs) == before.Plus(own);
      assert TallyByKey(key, f, names, xs + [x])
        == TallyByKey(key, f, names[..n], xs + [x]).Plus(Tally(f, Select(key, xs + [x], name)));
      TallyByKeyOneMore(key, f, names[..n], xs, x);
      SelectOneMore(key, xs, x, name);
      TallyOneMore(f, Select(key, xs, name), x);
      LastName(names, key(x));
      PlusPlus(before, own, f(x));
      assert Select(key, xs, name) + [] == Select(key, xs, name);
      hide Select, Tally, NoDuplicates, TallyByKey, Totals.Plus;
    }
  }

  lemma {:induction false} TallyOverNothing<T>(key: T -> string, f: T -> Totals, names: seq<string>)
    ensures TallyByKey(key, f, names, []) == NO_TOTALS
  {
    if names != [] {
      TallyOverNothing(key, f, names[..|names| - 1]);
    }
  }

  /** The groups' sums add up to the sum of the whole list. */
  lemma {:induction false} TalliesAddUp<T>(key: T -> string, f: T -> Totals, names: seq<string>, xs: seq<T>)
    requires NoDuplicates(names) && forall k | 0 <= k < |xs| :: key(xs[k]) in names
    ensures TallyByKey(key, f, names, xs) == Tally(f, xs)
  {
    if xs == [] {
      TallyOverNothing(key, f, names);
    } else {
      var n := |xs| - 1;
      InitAndLast(xs);
      TallyByKeyOneMore(key, f, names, xs[..n], xs[n]);
      TalliesAddUp(key, f, names, xs[..n]);
    }
  }

  lemma {:induction false} TallyWithout<T>(f: T -> Totals, xs: seq<T>, j: nat)
    requires j < |xs|
    ensures Tally(f, xs) == Tally(f, xs[..j] + xs[j + 1..]).Plus(f(xs[j]))
  {
    var n := |xs| - 1;
    if j == n {
      assert xs[..j] + xs[j + 1..] == xs[..n];
    } else {
      var rest := xs[..j] + xs[j + 1..n];
      assert xs[..n][..j] + xs[..n][j + 1..] == rest && xs[..j] + xs[j + 1..] == rest + [xs[n]];
      TallyWithout(f, xs[..n], j);
      TallyOneMore(f, rest, xs[n]);
      PlusPlus(Tally(f, rest), f(xs[j]), f(xs[n]));
      assert Tally(f, xs) == Tally(f, xs[..n]).Plus(f(xs[n]));
    }
  }

  /** A sum does not depend on the order. */
  lemma {:induction false} TallyPermuted<T>(f: T -> Totals, xs: seq<T>, ys: seq<T>)
    requires multiset(xs) == multiset(ys)
    ensures Tally(f, xs) == Tally(f, ys)
    decreases |xs|
  {
    assert |xs| == |multiset(xs)| == |ys|;
    if xs != [] {
      var n := |xs| - 1;
      assert xs[n] in multiset(ys);
      var j :| 0 <= j < |ys| && ys[j] == xs[n];
      InitAndLast(xs);
      MultisetWithout(ys, j);
      TallyWithout(f, ys, j);
      TallyPermuted(f, xs[..n], ys[..j] + ys[j + 1..]);
    }
  }

  lemma {:induction false} TallyConcat<T>(f: T -> Totals, xs: seq<T>, ys: seq<T>)
    ensures Tally(f, xs + ys) == Tally(f, xs).Plus(Tally(f, ys))
  {
    if ys == [] {
      assert xs + ys == xs;
    } else {
      var n := |ys| - 1;
      TallyConcat(f, xs, ys[..n]);
      assert ys == ys[..n] + [ys[n]] && xs + ys == xs + ys[..n] + [ys[n]];
      hide Tally, Totals.Plus;
      TallyOneMore(f, xs + ys[..n], ys[n]);
      TallyOneMore(f, ys[..n], ys[n]);
      PlusPlus(Tally(f, xs), Tally(f, ys[..n]), f(ys[n]));
    }
  }

  /** What the grouping loop knows about the elements seen so far. */
  ghost predicate Grouped<T>(key: T -> string, names: seq<string>, groups: map<string, seq<T>>, xs: seq<T>) {
    AreKeys(key, names, xs) && GroupsAre(key, names, groups, xs)
  }

  predicate GroupAt<T(==)>(
    key: T -> string, names: seq<string>, groups: map<string, seq<T>>, xs: seq<T>, name: string)
  {
    (name in names <==> name in groups) && Select(key, xs, name) == if name in groups then groups[name] else []
  }

  /** The dictionary has the names as its keys and holds the elements with each key. */
  ghost predicate GroupsAre<T>(key: T -> string, names: seq<string>, groups: map<string, seq<T>>, xs: seq<T>) {
    forall name :: GroupAt(key, names, groups, xs, name)
  }

  lemma AppendName(names: seq<string>, name: string)
    requires NoDuplicates(names) && name !in names
    ensures NoDuplicates(names + [name])
  {
  }

  lemma KeysOneMore<T>(key: T -> string, names: seq<string>, xs: seq<T>, x: T, names': seq<string>)
    requires AreKeys(key, names, xs)
    requires names' == if key(x) in names then names else names + [key(x)]
    ensures AreKeys(key, names', xs + [x])
  {
    var name, xs' := key(x), xs + [x];
    forall i | 0 <= i < |names'| ensures Select(key, xs', names'[i]) != [] {
      SelectOneMore(key, xs, x, names'[i]);
      assert i < |names| ==> Select(key, xs, names[i]) != [];
    }
    hide Select;
    if name !in names {
      AppendName(names, name);
    }
    hide NoDuplicates;
    forall k | 0 <= k < |xs'| ensures key(xs'[k]) in names' {
      if k < |xs| {
        assert key(xs[k]) in names;
      }
    }
  }

  lemma GroupAtOneMore<T>(
    key: T -> string, names: seq<string>, groups: map<string, seq<T>>, xs: seq<T>, x: T,
    names': seq<string>, groups': map<string, seq<T>>, name: string)
    requires GroupAt(key, names, groups, xs, name) && GroupAt(key, names, groups, xs, key(x))
    requires names' == if key(x) in groups then names else names + [key(x)]
    requires groups' == groups[key(x) := (if key(x) in groups then groups[key(x)] else []) + [x]]
    ensures GroupAt(key, names', groups', xs + [x], name)
  {
    SelectOneMore(key, xs, x, name);
    hide Select;
    assert name in names' <==> name in names || name == key(x);
  }

  lemma GroupedOneMore<T>(
    key: T -> string, names: seq<string>, groups: map<string, seq<T>>, xs: seq<T>, x: T,
    names': seq<string>, groups': map<string, seq<T>>)
    requires Grouped(key, names, groups, xs)
    requires names' == if key(x) in groups then names else names + [key(x)]
    requires groups' == groups[key(x) := (if key(x) in groups then groups[key(x)] else []) + [x]]
    ensures Grouped(key, names', groups', xs + [x])
  {
    assert GroupAt(key, names, groups, xs, key(x));
    hide AreKeys, Select;
    KeysOneMore(key, names, xs, x, names');
    hide GroupAt;
    forall name ensures GroupAt(key, names', groups', xs + [x], name) {
      GroupAtOneMore(key, names, groups, xs, x, names', groups', name);
    }
  }
}

/** Splitting a report by module. */
module ReportSplit {
  import opened Options
  import opened Text
  import opened Sorting
  import opened ReportTree
  import opened Grouping

  // ---------- the module of a testcase ----------

  /** `s.split("::")[0]`. */
  function CutAtColons(s: string): string {
    if s == "" || StartsWith(s, "::") then "" else [s[0]] + CutAtColons(s[1..])
  }

  /** `s.replace(".py", "")`. */
  function DropPy(s: string): string {
    if s == "" then ""
    else if StartsWith(s, ".py") then DropPy(s[3..])
    else [s[0]] + DropPy(s[1..])
  }

  /** `os.path.basename`. */
  function BaseName(s: string): string {
    if s == "" || s[|s| - 1] == '/' then "" else BaseName(s[..|s| - 1]) + [s[|s| - 1]]
  }

  function ModuleOf(tc: Elem): string {
    BaseName(DropPy(CutAtColons(StrOf(tc, "classname", "unknown"))))
  }

  lemma {:induction false} CutIs(head: string, rest: string)
    requires ':' !in head && (rest == "" || StartsWith(rest, "::"))
    ensures CutAtColons(head + rest) == head
  {
    if head == "" {
      assert head + rest == rest;
    } else {
      assert head[0] in head && (head + rest)[..1] == [head[0]];
      assert |head + rest| >= 2 ==> (head + rest)[..2][0] == head[0];
      assert (head + rest)[1..] == head[1..] + rest;
      CutIs(head[1..], rest);
    }
  }

  predicate IsDirectory(dir: string) {
    dir == "" || dir[|dir| - 1] == '/'
  }

  /** No extension crosses a slash. */
  lemma PyStarts(dir: string, name: string)
    requires dir != "" && IsDirectory(dir)
    ensures StartsWith(dir + name, ".py") <==> StartsWith(dir, ".py")
    ensures StartsWith(dir, ".py") ==>
      |dir| > 3 && IsDirectory(dir[3..]) && (dir + name)[3..] == dir[3..] + name
    ensures (dir + name)[0] == dir[0] && (dir + name)[1..] == dir[1..] + name && IsDirectory(dir[1..])
  {
    var text := dir + name;
    assert text[|dir| - 1] == '/';
    assert |text| >= 3 ==> text[..3] == [text[0], text[1], text[2]];
    assert |dir| >= 3 ==> text[..3] == dir[..3];
  }

  lemma DropPyStep(s: string)
    requires s != ""
    ensures DropPy(s) == if StartsWith(s, ".py") then DropPy(s[3..]) else [s[0]] + DropPy(s[1..])
  {
  }

  lemma {:induction false} DropPyInDirectory(dir: string, name: string)
    requires IsDirectory(dir)
    ensures DropPy(dir + name) == DropPy(dir) + DropPy(name)
    ensures IsDirectory(DropPy(dir)) && (dir != "" ==> DropPy(dir) != "")
  {
    if dir == "" {
      assert dir + name == name;
    } else {
      PyStarts(dir, name);
      DropPyStep(dir + name);
      DropPyStep(dir);
      hide StartsWith, DropPy;
      if StartsWith(dir, ".py") {
        DropPyInDirectory(dir[3..], name);
      } else {
        DropPyInDirectory(dir[1..], name);
      }
    }
  }

  lemma {:induction false} NothingToDrop(s: string)
    requires '.' !in s
    ensures DropPy(s) == s
  {
    if s != "" {
      assert s[0] in s && (|s| >= 3 ==> s[..3][0] == s[0]);
      NothingToDrop(s[1..]);
    }
  }

  lemma {:induction false} DropPyOfName(name: string)
    requires !Contains(name, ".py")
    ensures DropPy(name + ".py") == name
  {
    if name == "" {
      assert name + ".py" == ".py" && ".py"[3..] == "";
    } else {
      var text := name + ".py";
      assert !OccursAt(".py", name, 0);
      assert text[|name|..] == ".py" && text[..3] == [text[0], text[1], text[2]];
      assert |name| >= 3 ==> text[..3] == name[0..3];
      assert text[1..] == name[1..] + ".py";
      forall i | 0 <= i <= |name| - 1 ensures !OccursAt(".py", name[1..], i) {
        assert !OccursAt(".py", name, i + 1);
        assert i + 4 <= |name| ==> name[1..][i..i + 3] == name[i + 1..i + 4];
      }
      DropPyOfName(name[1..]);
    }
  }

  lemma {:induction false} BaseNameIs(dir: string, name: string)
    requires IsDirectory(dir) && '/' !in name
    ensures BaseName(dir + name) == name
  {
    if name != "" {
      var n := |name| - 1;
      assert (dir + name)[..|dir| + n] == dir + name[..n] && (dir + name)[|dir| + n] == name[n];
      BaseNameIs(dir, name[..n]);
    } else {
      assert dir + name == dir;
    }
  }

  /** The module of a testcase is the name of its file, without directory and extension. */
  lemma ModuleIsFileName(tc: Elem, dir: string, name: string, rest: string)
    requires "classname" in tc.attrib && tc.attrib["classname"] == Str(dir + name + ".py" + rest)
    requires IsDirectory(dir) && ':' !in dir && ':' !in name && '/' !in name && !Contains(name, ".py")
    requires rest == "" || StartsWith(rest, "::")
    ensures ModuleOf(tc) == name
  {
    CutIs(dir + name + ".py", rest);
    assert dir + name + ".py" == dir + (name + ".py");
    DropPyInDirectory(dir, name + ".py");
    DropPyOfName(name);
    BaseNameIs(DropPy(dir), name);
  }

  lemma PlainModule(name: string)
    requires ':' !in name && '.' !in name && '/' !in name
    ensures BaseName(DropPy(CutAtColons(name))) == name
  {
    hide CutAtColons, DropPy, BaseName;
    CutIs(name, "");
    NothingToDrop(name);
    BaseNameIs("", name);
    assert name + "" == name == "" + name;
  }

  lemma NoClassname(tc: Elem)
    requires "classname" !in tc.attrib
    ensures ModuleOf(tc) == "unknown"
  {
    hide CutAtColons, DropPy, BaseName;
    PlainModule("unknown");
  }

  // ---------- the statistics ----------

  function One(b: bool): int {
    if b then 1 else 0
  }

  function HowMany(p: Elem -> bool, cases: seq<Elem>): nat {
    if cases == [] then 0 else HowMany(p, cases[..|cases| - 1]) + One(p(cases[|cases| - 1]))
  }

  /** The testcases with a child of this tag. */
  function Having(tag: string): Elem -> bool {
    tc => Has(tc, tag)
  }

  function TimeOf(cases: seq<Elem>): real {
    if cases == [] then 0.0 else TimeOf(cases[..|cases| - 1]) + SecondsOf(cases[|cases| - 1], "time")
  }

  function CaseTotals(tc: Elem): Totals {
    Totals(1, One(Has(tc, "failure")), One(Has(tc, "error")), One(Has(tc, "skipped")), SecondsOf(tc, "time"))
  }

  function TotalsOf(cases: seq<Elem>): Totals {
    Tally(CaseTotals, cases)
  }

  lemma HowManyOneMore(p: Elem -> bool, cases: seq<Elem>, tc: Elem)
    ensures HowMany(p, cases + [tc]) == HowMany(p, cases) + if p(tc) then 1 else 0
  {
    assert (cases + [tc])[..|cases|] == cases;
  }

  lemma TimeOneMore(cases: seq<Elem>, tc: Elem)
    ensures TimeOf(cases + [tc]) == TimeOf(cases) + SecondsOf(tc, "time")
  {
    assert (cases + [tc])[..|cases|] == cases;
  }

  /** The totals are the numbers of testcases with each verdict. */
  lemma {:induction false} TotalsAreCounts(cases: seq<Elem>)
    ensures TotalsOf(cases) ==
      Totals(|cases|, HowMany(Having("failure"), cases), HowMany(Having("error"), cases),
        HowMany(Having("skipped"), cases), TimeOf(cases))
  {
    if cases != [] {
      TotalsAreCounts(cases[..|cases| - 1]);
      hide Has;
    }
  }

  function InModule(cases: seq<Elem>, name: string): seq<Elem> {
    Select(ModuleOf, cases, name)
  }

  predicate AreModules(names: seq<string>, cases: seq<Elem>) {
    AreKeys(ModuleOf, names, cases)
  }

  // ---------- the split files ----------

  function CopyCases(cases: seq<Elem>): (r: seq<Elem>)
    ensures |r| == |cases| && forall i | 0 <= i < |cases| :: r[i] == CopyCase(cases[i])
  {
    seq(|cases|, i requires 0 <= i < |cases| => CopyCase(cases[i]))
  }

  function ModuleSuite(name: string, cases: seq<Elem>): Elem {
    Elem("testsuite",
      map["tests" := Count(|cases|), "failures" := Count(HowMany(Having("failure"), cases)),
          "errors" := Count(HowMany(Having("error"), cases)), "skipped" := Count(HowMany(Having("skipped"), cases)),
          "time" := Seconds(TimeOf(cases)), "name" := Str(name)],
      "", CopyCases(cases))
  }

  function ModuleReport(name: string, cases: seq<Elem>): Elem {
    Elem("testsuites", map[], "", [ModuleSuite(name, cases)])
  }

  function ModuleReports(names: seq<string>, cases: seq<Elem>): (r: seq<Elem>)
    ensures |r| == |names| && forall i | 0 <= i < |names| :: r[i] == ModuleReport(names[i], InModule(cases, names[i]))
  {
    seq(|names|, i requires 0 <= i < |names| => ModuleReport(names[i], InModule(cases, names[i])))
  }

  /** The module's statistics, counted one by one. */
  method CountCases(cases: seq<Elem>) returns (tests: int, failures: int, errors: int, skipped: int, time: real)
    ensures tests == |cases| && time == TimeOf(cases)
    ensures failures == HowMany(Having("failure"), cases)
    ensures errors == HowMany(Having("error"), cases)
    ensures skipped == HowMany(Having("skipped"), cases)
  {
    hide Has, HowMany, TimeOf;
    tests, failures, errors, skipped, time := |cases|, 0, 0, 0, 0.0;
    NothingCounted();
    for i := 0 to |cases|
      invariant failures == HowMany(Having("failure"), cases[..i]) && errors == HowMany(Having("error"), cases[..i])
      invariant skipped == HowMany(Having("skipped"), cases[..i]) && time == TimeOf(cases[..i])
    {
      assert cases[..i + 1] == cases[..i] + [cases[i]];
      HowManyOneMore(Having("failure"), cases[..i], cases[i]);
      HowManyOneMore(Having("error"), cases[..i], cases[i]);
      HowManyOneMore(Having("skipped"), cases[..i], cases[i]);
      TimeOneMore(cases[..i], cases[i]);
      failures := failures + if Has(cases[i], "failure") then 1 else 0;
      errors := errors + if Has(cases[i], "error") then 1 else 0;
      skipped := skipped + if Has(cases[i], "skipped") then 1 else 0;
      time := time + SecondsOf(cases[i], "time");
    }
    assert cases[..|cases|] == cases;
  }

  lemma NothingCounted()
    ensures TimeOf([]) == 0.0 && forall p :: HowMany(p, []) == 0
  {
  }

  /** The grouping loop: a dictionary of lists, with its keys in the order they came up. */
  method GroupByModule(cases: seq<Elem>) returns (names: seq<string>, modules: map<string, seq<Elem>>)
    ensures Grouped(ModuleOf, names, modules, cases)
  {
    hide ModuleOf, Grouped, Select;
    names, modules := [], map[];
    NothingGrouped();
    for i := 0 to |cases|
      invariant Grouped(ModuleOf, names, modules, cases[..i])
    {
      ghost var names0, modules0 := names, modules;
      assert cases[..i + 1] == cases[..i] + [cases[i]];
      var name := ModuleOf(cases[i]);
      if name !in modules {
        names := names + [name];
        modules := modules[name := []];
      }
      modules := modules[name := modules[name] + [cases[i]]];
      assert modules == modules0[name := (if name in modules0 then modules0[name] else []) + [cases[i]]];
      GroupedOneMore(ModuleOf, names0, modules0, cases[..i], cases[i], names, modules);
    }
    assert cases[..|cases|] == cases;
  }

  lemma NothingGrouped()
    ensures Grouped(ModuleOf, [], map[], [])
  {
  }

  /** The counting and writing loop over the modules in the order of `names`. */
  method WriteModules(names: seq<string>, modules: map<string, seq<Elem>>, ghost cases: seq<Elem>)
    returns (files: seq<Elem>)
    requires forall i | 0 <= i < |names| :: names[i] in modules && modules[names[i]] == InModule(cases, names[i])
    ensures files == ModuleReports(names, cases)
  {
    hide InModule, HowMany, TimeOf;
    files := [];
    for i := 0 to |names|
      invariant files == ModuleReports(names, cases)[..i]
    {
      var testcases := modules[names[i]];
      var tests, failures, errors, skipped, time := CountCases(testcases);
      var suite := Elem("testsuite",
        map["tests" := Count(tests), "failures" := Count(failures), "errors" := Count(errors),
            "skipped" := Count(skipped), "time" := Seconds(time), "name" := Str(names[i])],
        "", CopyCases(testcases));
      files := files + [Elem("testsuites", map[], "", [suite])];
    }
  }

  lemma SortedModules(
    leq: (string, string) -> bool, found: seq<string>, modules: map<string, seq<Elem>>, cases: seq<Elem>)
    requires TotalPreorder(leq) && Grouped(ModuleOf, found, modules, cases)
    ensures var names := Sort(leq, found);
      && AreModules(names, cases) && SortedBy(leq, names)
      && forall i | 0 <= i < |names| :: names[i] in modules && modules[names[i]] == InModule(cases, names[i])
  {
    hide ModuleOf, Select;
    var names := Sort(leq, found);
    SortSorts(leq, found);
    NoDuplicatesPermuted(found, names);
    forall name ensures name in names <==> name in found {
      assert name in multiset(names) <==> name in multiset(found);
    }
    hide NoDuplicates;
    forall i | 0 <= i < |names|
      ensures Select(ModuleOf, cases, names[i]) != []
      ensures names[i] in modules && modules[names[i]] == InModule(cases, names[i])
    {
      assert GroupAt(ModuleOf, found, modules, cases, names[i]) && names[i] in found;
    }
  }

  /** `_split_xml_by_module`; `leq` is the ordering of strings. */
  method SplitXmlByModule(root: Elem, leq: (string, string) -> bool) returns (names: seq<string>, files: seq<Elem>)
    requires TotalPreorder(leq)
    ensures AreModules(names, Below("testcase", root)) && SortedBy(leq, names)
    ensures files == ModuleReports(names, Below("testcase", root))
  {
    hide *;
    var cases := Below("testcase", root);
    var found, modules := GroupByModule(cases);
    names := Sort(leq, found);
    SortedModules(leq, found, modules, cases);
    files := WriteModules(names, modules, cases);
  }

  // ---------- what the split keeps ----------

  /** The testcases in the first suite of the file. */
  function CasesOfFile(file: Elem): seq<Elem> {
    if file.children == [] then [] else Direct("testcase", file.children[0].children)
  }

  function CasesOfReports(files: seq<Elem>): seq<Elem> {
    if files == [] then [] else CasesOfReports(files[..|files| - 1]) + CasesOfFile(files[|files| - 1])
  }

  lemma CasesOfModuleReport(name: string, cases: seq<Elem>)
    ensures CasesOfFile(ModuleReport(name, cases)) == CopyCases(cases)
  {
    DirectAll("testcase", CopyCases(cases));
  }

  lemma CopyConcat(a: seq<Elem>, b: seq<Elem>)
    ensures CopyCases(a + b) == CopyCases(a) + CopyCases(b)
  {
  }

  lemma {:induction false} ReportsHoldGathered(names: seq<string>, cases: seq<Elem>)
    ensures CasesOfReports(ModuleReports(names, cases)) == CopyCases(Gather(ModuleOf, names, cases))
  {
    hide ModuleOf, Select, CopyCases, ModuleReport, CasesOfFile, CopyCase;
    if names == [] {
      assert CopyCases([]) == [];
    } else {
      var n := |names| - 1;
      ReportsHoldGathered(names[..n], cases);
      assert ModuleReports(names, cases)[..n] == ModuleReports(names[..n], cases);
      CasesOfModuleReport(names[n], InModule(cases, names[n]));
      CopyConcat(Gather(ModuleOf, names[..n], cases), InModule(cases, names[n]));
    }
  }

  /** Splitting keeps a copy of every testcase exactly once. */
  lemma SplitKeepsEveryCase(names: seq<string>, cases: seq<Elem>)
    requires AreModules(names, cases)
    ensures multiset(CasesOfReports(ModuleReports(names, cases))) == multiset(CopyCases(cases))
  {
    ReportsHoldGathered(names, cases);
    GatherIsPermutation(ModuleOf, names, cases);
    hide ModuleReports, Gather, CopyCases, MapSeq;
    CopiesPermuted(Gather(ModuleOf, names, cases), cases);
  }

  lemma CopiesPermuted(a: seq<Elem>, b: seq<Elem>)
    requires multiset(a) == multiset(b)
    ensures multiset(CopyCases(a)) == multiset(CopyCases(b))
  {
    var f := (tc: Elem) => CopyCase(tc);
    MapPermuted(f, a, b);
    hide CopyCase;
    assert MapSeq(f, a) == CopyCases(a) && MapSeq(f, b) == CopyCases(b);
  }
}

/** The two places that add up the counts of the split reports. */
module ReportSummary {
  import opened Options
  import opened Text
  import opened Sorting
  import opened ReportTree
  import opened Grouping
  import opened ReportSplit

  datatype Counts = Counts(total: int, passes: int, failures: int, skipped: int, errors: int, time: real) {
    function Plus(c: Counts): Counts {
      Counts(
        total + c.total, passes + c.passes, failures + c.failures, skipped + c.skipped, errors + c.errors,
        time + c.time)
    }
  }

  const NO_COUNTS := Counts(0, 0, 0, 0, 0, 0.0)

  function Max(a: int, b: int): int {
    if a >= b then a else b
  }

  /** What both take from the attributes of a test suite. */
  function SuiteCounts(suite: Elem): Counts {
    var tests, failures, skipped := CountOf(suite, "tests"), CountOf(suite, "failures"), CountOf(suite, "skipped");
    Counts(
      tests, Max(tests - failures - skipped, 0), failures, skipped, CountOf(suite, "errors"), SecondsOf(suite, "time"))
  }

  function SumOfSuites(suites: seq<Elem>): Counts {
    if suites == [] then NO_COUNTS else SumOfSuites(suites[..|suites| - 1]).Plus(SuiteCounts(suites[|suites| - 1]))
  }

  /** `root.iter("testsuite")`: the root itself counts too. */
  function Iter(root: Elem): seq<Elem> {
    (if root.tag == "testsuite" then [root] else []) + Below("testsuite", root)
  }

  /** `root.find("testsuite")`. */
  function FirstSuite(root: Elem): seq<Elem> {
    var direct := Direct("testsuite", root.children);
    if direct == [] then [] else [direct[0]]
  }

  /** `iter` finds the root as if it stood in a list below another element. */
  lemma IterIs(root: Elem)
    ensures Iter(root) == BelowAll("testsuite", [root])
  {
    assert [root][1..] == [] && BelowAll("testsuite", []) == [];
  }

  /** `find` gives the first child that is a test suite, if there is one. */
  lemma {:induction false} FirstSuiteIs(root: Elem, k: nat)
    requires k <= |root.children| && forall i | 0 <= i < k :: root.children[i].tag != "testsuite"
    ensures k == |root.children| ==> FirstSuite(root) == []
    ensures k < |root.children| && root.children[k].tag == "testsuite" ==> FirstSuite(root) == [root.children[k]]
    decreases k
  {
    if k > 0 {
      FirstSuiteIs(root.(children := root.children[1..]), k - 1);
    }
  }

  function AllIter(files: seq<Option<Elem>>): seq<Elem> {
    if files == [] then []
    else
      var f := files[|files| - 1];
      AllIter(files[..|files| - 1]) + if f.None? then [] else Iter(f.value)
  }

  function AllFirst(files: seq<Option<Elem>>): seq<Elem> {
    if files == [] then []
    else
      var f := files[|files| - 1];
      AllFirst(files[..|files| - 1]) + if f.None? then [] else FirstSuite(f.value)
  }

  lemma {:induction false} SumConcat(a: seq<Elem>, b: seq<Elem>)
    ensures SumOfSuites(a + b) == SumOfSuites(a).Plus(SumOfSuites(b))
  {
    if b == [] {
      assert a + b == a;
    } else {
      var n := |b| - 1;
      SumConcat(a, b[..n]);
      assert (a + b)[..|a| + n] == a + b[..n] && (a + b)[|a| + n] == b[n];
      assert SumOfSuites(a + b) == SumOfSuites(a + b[..n]).Plus(SuiteCounts(b[n]));
      assert SumOfSuites(b) == SumOfSuites(b[..n]).Plus(SuiteCounts(b[n]));
      hide SumOfSuites, SuiteCounts;
    }
  }

  lemma SumOfOneMore(suites: seq<Elem>, suite: Elem)
    ensures SumOfSuites(suites + [suite]) == SumOfSuites(suites).Plus(SuiteCounts(suite))
  {
    assert (suites + [suite])[..|suites|] == suites;
  }

  lemma FirstOfOneMore(files: seq<Option<Elem>>, f: Option<Elem>)
    ensures AllFirst(files + [f]) == AllFirst(files) + if f.None? then [] else FirstSuite(f.value)
  {
    assert (files + [f])[..|files|] == files;
  }

  /** The counting loop of `generate_result_summary`; a file that cannot be parsed is None. */
  method GenerateResultSummary(files: seq<Option<Elem>>) returns (modules: nat, c: Counts)
    ensures c == SumOfSuites(AllFirst(files)) && modules == |AllFirst(files)|
  {
    hide AllFirst, SumOfSuites, Direct;
    modules, c := 0, NO_COUNTS;
    SumOfNone();
    for i := 0 to |files|
      invariant c == SumOfSuites(AllFirst(files[..i])) && modules == |AllFirst(files[..i])|
    {
      ghost var before := AllFirst(files[..i]);
      assert files[..i + 1] == files[..i] + [files[i]];
      FirstOfOneMore(files[..i], files[i]);
      assert before + [] == before;
      if files[i].None? { continue; }
      var direct := Direct("testsuite", files[i].value.children);
      if direct == [] { continue; }
      var suite := direct[0];
      SumOfOneMore(before, suite);
      var failures, skipped := CountOf(suite, "failures"), CountOf(suite, "skipped");
      var errors, time := CountOf(suite, "errors"), SecondsOf(suite, "time");
      var total := CountOf(suite, "tests");
      var passes := total - failures - skipped;
      modules := modules + 1;
      c := Counts(c.total + total, c.passes + Max(passes, 0), c.failures + failures, c.skipped + skipped,
        c.errors + errors, c.time + time);
    }
    assert files[..|files|] == files;
  }

  method CountSuites(before: Counts, suites: seq<Elem>) returns (c: Counts)
    ensures c == before.Plus(SumOfSuites(suites))
  {
    c := before;
    for k := 0 to |suites|
      invariant c == before.Plus(SumOfSuites(suites[..k]))
    {
      assert suites[..k + 1] == suites[..k] + [suites[k]];
      SumOfOneMore(suites[..k], suites[k]);
      var total, f, s := CountOf(suites[k], "tests"), CountOf(suites[k], "failures"), CountOf(suites[k], "skipped");
      var e, t := CountOf(suites[k], "errors"), SecondsOf(suites[k], "time");
      c := Counts(
        c.total + total, c.passes + Max(total - f - s, 0), c.failures + f, c.skipped + s, c.errors + e, c.time + t);
    }
    assert suites[..|suites|] == suites;
  }

  /** `_parse_session_counts`, given the files it found. */
  method ParseSessionCounts(files: seq<Option<Elem>>) returns (c: Counts)
    ensures c == SumOfSuites(AllIter(files))
  {
    hide SumOfSuites, Iter;
    c := NO_COUNTS;
    assert SumOfSuites([]) == NO_COUNTS by { SumOfNone(); }
    for i := 0 to |files|
      invariant c == SumOfSuites(AllIter(files[..i]))
    {
      ghost var sofar := files[..i + 1];
      assert sofar[..i] == files[..i] && sofar[i] == files[i];
      if files[i].Some? {
        var suites := Iter(files[i].value);
        SumConcat(AllIter(files[..i]), suites);
        c := CountSuites(c, suites);
      } else {
        assert AllIter(sofar) == AllIter(files[..i]);
      }
    }
    assert files[..|files|] == files;
  }

  lemma SumOfNone()
    ensures SumOfSuites([]) == NO_COUNTS && AllFirst([]) == []
  {
  }

  // ---------- on the files the split has written ----------

  function Written(files: seq<Elem>): (r: seq<Option<Elem>>)
    ensures |r| == |files| && forall i | 0 <= i < |files| :: r[i] == Some(files[i])
  {
    seq(|files|, i requires 0 <= i < |files| => Some(files[i]))
  }

  function ModuleSuites(names: seq<string>, cases: seq<Elem>): seq<Elem> {
    if names == [] then []
    else
      var n := |names| - 1;
      ModuleSuites(names[..n], cases) + [ModuleSuite(names[n], InModule(cases, names[n]))]
  }

  /** The test suites inside the copied testcases, module after module. */
  function NestedSuites(names: seq<string>, cases: seq<Elem>): seq<Elem> {
    if names == [] then []
    else
      var n := |names| - 1;
      NestedSuites(names[..n], cases) + BelowAll("testsuite", CopyCases(InModule(cases, names[n])))
  }

  lemma SuitesOfReport(name: string, cases: seq<Elem>)
    ensures FirstSuite(ModuleReport(name, cases)) == [ModuleSuite(name, cases)]
    ensures Iter(ModuleReport(name, cases)) == [ModuleSuite(name, cases)] + BelowAll("testsuite", CopyCases(cases))
  {
    var root := ModuleReport(name, cases);
    assert root.children[1..] == [];
    assert BelowAll("testsuite", root.children)
        == [root.children[0]] + Below("testsuite", root.children[0]) + BelowAll("testsuite", root.children[1..]);
  }

  lemma IterOfOneMore(files: seq<Option<Elem>>, f: Option<Elem>)
    ensures AllIter(files + [f]) == AllIter(files) + if f.None? then [] else Iter(f.value)
  {
    assert (files + [f])[..|files|] == files;
  }

  lemma SumsOneMore(seen: seq<Elem>, modules: seq<Elem>, nested: seq<Elem>, suite: seq<Elem>, inside: seq<Elem>)
    requires SumOfSuites(seen) == SumOfSuites(modules).Plus(SumOfSuites(nested))
    ensures SumOfSuites(seen + (suite + inside)) == SumOfSuites(modules + suite).Plus(SumOfSuites(nested + inside))
  {
    hide *;
    SumConcat(seen, suite + inside);
    SumConcat(suite, inside);
    SumConcat(modules, suite);
    SumConcat(nested, inside);
    PlusCommutes(SumOfSuites(modules), SumOfSuites(nested), SumOfSuites(suite), SumOfSuites(inside));
  }

  lemma ReportsOneMore(names: seq<string>, cases: seq<Elem>)
    requires names != []
    ensures var n := |names| - 1;
      var own := InModule(cases, names[n]);
      && Written(ModuleReports(names, cases))
        == Written(ModuleReports(names[..n], cases)) + [Some(ModuleReport(names[n], own))]
      && ModuleSuites(names, cases) == ModuleSuites(names[..n], cases) + [ModuleSuite(names[n], own)]
      && NestedSuites(names, cases) == NestedSuites(names[..n], cases) + BelowAll("testsuite", CopyCases(own))
  {
    hide InModule, ModuleReport, ModuleSuite, CopyCases, BelowAll;
  }

  lemma NoModules(cases: seq<Elem>)
    ensures var files := Written(ModuleReports([], cases));
      && AllFirst(files) == AllIter(files) == ModuleSuites([], cases) == NestedSuites([], cases) == []
      && SumOfSuites([]) == SumOfSuites([]).Plus(SumOfSuites([]))
  {
    hide InModule, ModuleReport, ModuleSuite;
    assert Written(ModuleReports([], cases)) == [];
  }

  /** One summariser sees the suites of the modules, the other one also what is nested in them. */
  lemma {:induction false} SuitesSeen(names: seq<string>, cases: seq<Elem>)
    ensures AllFirst(Written(ModuleReports(names, cases))) == ModuleSuites(names, cases)
    ensures SumOfSuites(AllIter(Written(ModuleReports(names, cases))))
         == SumOfSuites(ModuleSuites(names, cases)).Plus(SumOfSuites(NestedSuites(names, cases)))
  {
    hide *;
    if names == [] {
      NoModules(cases);
    } else {
      var n := |names| - 1;
      var own := InModule(cases, names[n]);
      var front, report := Written(ModuleReports(names[..n], cases)), Some(ModuleReport(names[n], own));
      SuitesSeen(names[..n], cases);
      ReportsOneMore(names, cases);
      SuitesOfReport(names[n], own);
      FirstOfOneMore(front, report);
      IterOfOneMore(front, report);
      SumsOneMore(AllIter(front), ModuleSuites(names[..n], cases), NestedSuites(names[..n], cases),
        [ModuleSuite(names[n], own)], BelowAll("testsuite", CopyCases(own)));
    }
  }

  lemma PlusCommutes(a: Counts, b: Counts, c: Counts, d: Counts)
    ensures a.Plus(b).Plus(c.Plus(d)) == a.Plus(c).Plus(b.Plus(d))
  {
  }

  lemma PlusNothing(a: Counts, b: Counts)
    ensures a.Plus(b) == a <==> b == NO_COUNTS
  {
  }

  /**
   * On the split of any report the two summarisers agree iff the counts of the test suites nested
   * in the testcases add up to nothing. Both see each module once.
   */
  lemma SummariesAgreeIff(names: seq<string>, cases: seq<Elem>)
    ensures var files := Written(ModuleReports(names, cases));
      && (SumOfSuites(AllFirst(files)) == SumOfSuites(AllIter(files)) <==>
            SumOfSuites(NestedSuites(names, cases)) == NO_COUNTS)
      && |AllFirst(files)| == |names|
  {
    SuitesSeen(names, cases);
    OneSuitePerModule(names, cases);
    PlusNothing(SumOfSuites(ModuleSuites(names, cases)), SumOfSuites(NestedSuites(names, cases)));
    hide *;
  }

  /** A test suite inside a testcase makes the summarisers differ. */
  lemma NestedSuiteCounts()
    ensures var suite := Elem("testsuite", map["tests" := Count(1)], "", []);
      var tc := Elem("testcase", map[], "", [suite]);
      var files := Written(ModuleReports([ModuleOf(tc)], [tc]));
      SumOfSuites(AllIter(files)).total == SumOfSuites(AllFirst(files)).total + 1
  {
    var suite := Elem("testsuite", map["tests" := Count(1)], "", []);
    var tc := Elem("testcase", map[], "", [suite]);
    assert SuiteCounts(suite).total == 1;
    hide *;
    NestedSuiteOf(ModuleOf(tc), tc, suite);
  }

  lemma NestedSuiteOf(name: string, tc: Elem, suite: Elem)
    requires ModuleOf(tc) == name && tc.children == [suite] && suite.tag == "testsuite" && suite.children == []
    ensures var files := Written(ModuleReports([name], [tc]));
      SumOfSuites(AllIter(files)).total == SumOfSuites(AllFirst(files)).total + SuiteCounts(suite).total
  {
    hide ModuleOf, SuiteCounts;
    OneSelected(name, tc);
    SuitesSeen([name], [tc]);
    OneNestedSuite(name, tc, suite);
    assert CopyChild(suite) == suite;
    hide SumOfSuites, NestedSuites, ModuleSuites, AllIter, AllFirst;
  }

  lemma OneNestedSuite(name: string, tc: Elem, suite: Elem)
    requires tc.children == [suite] && suite.tag == "testsuite" && suite.children == [] && InModule([tc], name) == [tc]
    ensures SumOfSuites(NestedSuites([name], [tc])) == SuiteCounts(CopyChild(suite))
  {
    hide InModule, SuiteCounts;
    var copies := CopyCases([tc]);
    assert copies[1..] == [] && copies[0].children == [CopyChild(suite)] && CopyChild(suite) == suite;
    assert BelowAll("testsuite", [suite]) == [suite] by { assert [suite][1..] == []; }
    assert BelowAll("testsuite", copies) == [suite];
    assert [name][..0] == [] && NestedSuites([name], [tc]) == [suite];
    assert SumOfSuites([suite]) == NO_COUNTS.Plus(SuiteCounts(suite)) by { assert [suite][..0] == []; }
  }

  lemma {:induction false} OneSuitePerModule(names: seq<string>, cases: seq<Elem>)
    ensures |ModuleSuites(names, cases)| == |names|
  {
    if names != [] {
      OneSuitePerModule(names[..|names| - 1], cases);
    }
  }

  // ---------- the sums are the direct counts ----------

  function PassesOver(names: seq<string>, cases: seq<Elem>): int {
    if names == [] then 0
    else
      var own := InModule(cases, names[|names| - 1]);
      PassesOver(names[..|names| - 1], cases)
        + Max(|own| - HowMany(Having("failure"), own) - HowMany(Having("skipped"), own), 0)
  }

  lemma PassesOneMore(names: seq<string>, cases: seq<Elem>)
    requires names != []
    ensures var t := TotalsOf(InModule(cases, names[|names| - 1]));
      PassesOver(names, cases) == PassesOver(names[..|names| - 1], cases) + Max(t.tests - t.failures - t.skipped, 0)
  {
    TotalsAreCounts(InModule(cases, names[|names| - 1]));
    hide TotalsOf, HowMany, TimeOf, InModule;
  }

  lemma CountsOfModule(name: string, cases: seq<Elem>)
    ensures var t := TotalsOf(cases);
      SuiteCounts(ModuleSuite(name, cases))
      == Counts(t.tests, Max(t.tests - t.failures - t.skipped, 0), t.failures, t.skipped, t.errors, t.time)
  {
    TotalsAreCounts(cases);
    hide TotalsOf, HowMany, TimeOf;
  }

  lemma {:induction false} SuitesSumToTotals(names: seq<string>, cases: seq<Elem>)
    ensures var t := TallyByKey(ModuleOf, CaseTotals, names, cases);
      SumOfSuites(ModuleSuites(names, cases))
        == Counts(t.tests, PassesOver(names, cases), t.failures, t.skipped, t.errors, t.time)
  {
    hide ModuleOf, CaseTotals, Select, Tally, ModuleSuite, SuiteCounts, Max;
    if names != [] {
      var n := |names| - 1;
      var own := InModule(cases, names[n]);
      SuitesSumToTotals(names[..n], cases);
      PassesOneMore(names, cases);
      CountsOfModule(names[n], own);
      SumOfOneMore(ModuleSuites(names[..n], cases), ModuleSuite(names[n], own));
      hide SumOfSuites;
    }
  }

  /** What a summary of these testcases shows: how many of them have each verdict, and their time. */
  function DirectCounts(names: seq<string>, cases: seq<Elem>): Counts {
    Counts(|cases|, PassesOver(names, cases), HowMany(Having("failure"), cases), HowMany(Having("skipped"), cases),
      HowMany(Having("error"), cases), TimeOf(cases))
  }

  lemma SumsAreDirect(names: seq<string>, cases: seq<Elem>)
    requires AreModules(names, cases)
    ensures SumOfSuites(ModuleSuites(names, cases)) == DirectCounts(names, cases)
  {
    SuitesSumToTotals(names, cases);
    TalliesAddUp(ModuleOf, CaseTotals, names, cases);
    TotalsAreCounts(cases);
    hide AreModules, SumOfSuites, ModuleSuites, HowMany, TimeOf, PassesOver, Tally, TallyByKey, CaseTotals;
  }

  /** The summary of the split files shows the direct counts of tests, failures, skips, errors and time. */
  lemma SummaryIsDirectCount(names: seq<string>, cases: seq<Elem>)
    requires AreModules(names, cases)
    ensures var c := SumOfSuites(AllFirst(Written(ModuleReports(names, cases))));
      && c.total == |cases| && c.time == TimeOf(cases) && c.passes == PassesOver(names, cases)
      && c.failures == HowMany(Having("failure"), cases)
      && c.errors == HowMany(Having("error"), cases)
      && c.skipped == HowMany(Having("skipped"), cases)
  {
    SuitesSeen(names, cases);
    SumsAreDirect(names, cases);
    hide AreModules, SumOfSuites, ModuleSuites, HowMany, TimeOf, PassesOver;
  }

  /** A failed testcase is shown as one failure, neither passed nor skipped. */
  lemma FailureIsShown(tc: Elem, failure: Elem)
    requires tc.children == [failure] && failure.tag == "failure"
    ensures SumOfSuites(AllFirst(Written(ModuleReports([ModuleOf(tc)], [tc]))))
         == Counts(1, 0, 1, 0, 0, SecondsOf(tc, "time"))
  {
    var name := ModuleOf(tc);
    assert Has(tc, "failure") && !Has(tc, "error") && !Has(tc, "skipped") by {
      assert tc.children[0].tag == "failure";
    }
    OneCounted(Having("failure"), tc);
    OneCounted(Having("error"), tc);
    OneCounted(Having("skipped"), tc);
    OneTimed(tc);
    OneSelected(name, tc);
    hide Has, ModuleOf, HowMany, TimeOf, InModule, Select;
    SummaryIsDirectCount([name], [tc]);
    hide SumOfSuites, AllFirst, Written, ModuleReports;
    assert [name][..0] == [] && PassesOver([], [tc]) == 0;
  }

  lemma OneCounted(p: Elem -> bool, tc: Elem)
    ensures HowMany(p, [tc]) == if p(tc) then 1 else 0
  {
    HowManyOneMore(p, [], tc);
    assert [] + [tc] == [tc];
  }

  lemma OneTimed(tc: Elem)
    ensures TimeOf([tc]) == SecondsOf(tc, "time")
  {
    TimeOneMore([], tc);
    assert [] + [tc] == [tc];
  }

  lemma OneSelected(name: string, tc: Elem)
    requires ModuleOf(tc) == name
    ensures InModule([tc], name) == [tc] && AreModules([name], [tc])
  {
    SelectOneMore(ModuleOf, [], tc, name);
    assert [] + [tc] == [tc];
  }

  /** What the other summariser adds to that is what is nested in the testcases. */
  lemma SessionCountsAre(names: seq<string>, cases: seq<Elem>)
    requires AreModules(names, cases)
    ensures SumOfSuites(AllIter(Written(ModuleReports(names, cases))))
         == DirectCounts(names, cases).Plus(SumOfSuites(NestedSuites(names, cases)))
  {
    SuitesSeen(names, cases);
    SumsAreDirect(names, cases);
    hide AreModules, SumOfSuites, AllIter, ModuleReports, Written, NestedSuites, ModuleSuites, DirectCounts;
  }

  // ---------- what counts as a pass ----------

  /** A testcase that neither failed nor was skipped; one that only has an error is among them. */
  predicate Clean(tc: Elem) {
    !Has(tc, "failure") && !Has(tc, "skipped")
  }

  predicate FailedAndSkipped(tc: Elem) {
    Has(tc, "failure") && Has(tc, "skipped")
  }

  function CleanTotals(tc: Elem): Totals {
    Totals(One(Clean(tc)), 0, 0, 0, 0.0)
  }

  function CleanCount(cases: seq<Elem>): int {
    Tally(CleanTotals, cases).tests
  }

  /** The module's passes are right: no testcase both failed and was skipped, or there are no passes anyway. */
  predicate PassesRight(cases: seq<Elem>) {
    || (forall i | 0 <= i < |cases| :: !FailedAndSkipped(cases[i]))
    || (forall i | 0 <= i < |cases| :: !Clean(cases[i]))
  }

  lemma {:induction false} PassesOfModule(cases: seq<Elem>)
    ensures var t, clean := TotalsOf(cases), CleanCount(cases);
      && 0 <= clean && t.tests - t.failures - t.skipped <= clean
      && (clean == 0 <==> forall i | 0 <= i < |cases| :: !Clean(cases[i]))
      && (t.tests - t.failures - t.skipped == clean <==> forall i | 0 <= i < |cases| :: !FailedAndSkipped(cases[i]))
  {
    if cases != [] {
      PassesOfModule(cases[..|cases| - 1]);
      hide Has;
    }
  }

  lemma {:induction false} PassesBelowClean(names: seq<string>, cases: seq<Elem>)
    ensures PassesOver(names, cases) <= TallyByKey(ModuleOf, CleanTotals, names, cases).tests
    ensures PassesOver(names, cases) == TallyByKey(ModuleOf, CleanTotals, names, cases).tests
            <==> forall i | 0 <= i < |names| :: PassesRight(InModule(cases, names[i]))
  {
    hide ModuleOf, CleanTotals, CaseTotals, Select, PassesRight, Clean, FailedAndSkipped, Tally, Max;
    if names != [] {
      var n := |names| - 1;
      PassesBelowClean(names[..n], cases);
      PassesOneMore(names, cases);
      PassesRightOrNot(InModule(cases, names[n]));
      assert forall i | 0 <= i < n :: names[..n][i] == names[i];
    }
  }

  lemma PassesRightOrNot(cases: seq<Elem>)
    ensures var t, clean := TotalsOf(cases), CleanCount(cases);
      && Max(t.tests - t.failures - t.skipped, 0) <= clean
      && (Max(t.tests - t.failures - t.skipped, 0) == clean <==> PassesRight(cases))
  {
    PassesOfModule(cases);
  }

  /**
   * The passes shown are the testcases that neither failed nor were skipped, iff no module has
   * both such testcases and one that failed and was skipped; otherwise fewer are shown.
   */
  lemma PassesAreCleanIff(names: seq<string>, cases: seq<Elem>)
    requires AreModules(names, cases)
    ensures var c := SumOfSuites(AllFirst(Written(ModuleReports(names, cases))));
      && c.passes <= CleanCount(cases)
      && (c.passes == CleanCount(cases) <==> forall i | 0 <= i < |names| :: PassesRight(InModule(cases, names[i])))
  {
    SummaryIsDirectCount(names, cases);
    TalliesAddUp(ModuleOf, CleanTotals, names, cases);
    PassesBelowClean(names, cases);
  }

  predicate OnlyError(tc: Elem) {
    Has(tc, "error") && Clean(tc)
  }

  predicate Passed(tc: Elem) {
    !Has(tc, "error") && Clean(tc)
  }

  lemma {:induction false} HowManyNone(p: Elem -> bool, cases: seq<Elem>)
    ensures HowMany(p, cases) == 0 <==> forall i | 0 <= i < |cases| :: !p(cases[i])
  {
    if cases != [] {
      HowManyNone(p, cases[..|cases| - 1]);
    }
  }

  /** How the counts of a list of testcases come about. */
  lemma {:induction false} CountsByKind(cases: seq<Elem>)
    ensures CleanCount(cases) == HowMany(Passed, cases) + HowMany(OnlyError, cases)
    ensures var t := TotalsOf(cases);
      t.tests - t.failures - t.skipped
        == HowMany(Passed, cases) + HowMany(OnlyError, cases) - HowMany(FailedAndSkipped, cases)
  {
    if cases != [] {
      CountsByKind(cases[..|cases| - 1]);
      hide Has;
    }
  }

  /**
   * A module shows as many passes as testcases passed iff its mere errors and its testcases that
   * both failed and were skipped are equally many, or nothing passed and the latter are not fewer.
   */
  lemma ModulePassesIff(name: string, cases: seq<Elem>)
    ensures
      var passed, errors, both := HowMany(Passed, cases), HowMany(OnlyError, cases), HowMany(FailedAndSkipped, cases);
      SuiteCounts(ModuleSuite(name, cases)).passes == passed <==> errors == both || (passed == 0 && errors <= both)
  {
    CountsOfModule(name, cases);
    CountsByKind(cases);
    hide TotalsOf, ModuleSuite, SuiteCounts, HowMany;
  }

  /**
   * How many passes too many a module shows: its mere errors less those that failed and were
   * skipped, never below none shown.
   */
  function ModuleSurplus(cases: seq<Elem>): int {
    Max(HowMany(OnlyError, cases) - HowMany(FailedAndSkipped, cases), 0 - HowMany(Passed, cases))
  }

  function Surplus(names: seq<string>, cases: seq<Elem>): int {
    if names == [] then 0
    else Surplus(names[..|names| - 1], cases) + ModuleSurplus(InModule(cases, names[|names| - 1]))
  }

  function PassedTotals(tc: Elem): Totals {
    Totals(One(Passed(tc)), 0, 0, 0, 0.0)
  }

  lemma {:induction false} PassedTally(cases: seq<Elem>)
    ensures Tally(PassedTotals, cases).tests == HowMany(Passed, cases)
  {
    if cases != [] {
      PassedTally(cases[..|cases| - 1]);
      hide Has;
    }
  }

  lemma {:induction false} PassesWithSurplus(names: seq<string>, cases: seq<Elem>)
    ensures PassesOver(names, cases) == TallyByKey(ModuleOf, PassedTotals, names, cases).tests + Surplus(names, cases)
  {
    hide ModuleOf, Select, Tally, HowMany, Passed, TotalsOf, PassedTotals;
    if names != [] {
      var n := |names| - 1;
      PassesWithSurplus(names[..n], cases);
      PassesOneMore(names, cases);
      CountsByKind(InModule(cases, names[n]));
      PassedTally(InModule(cases, names[n]));
    }
  }

  /**
   * The passes shown for a report are the testcases that passed plus the surplus of its modules. If
   * no testcase both failed and was skipped, they are right iff none merely has an error.
   */
  lemma ReportPassesIff(names: seq<string>, cases: seq<Elem>)
    requires AreModules(names, cases)
    ensures var passes := SumOfSuites(AllFirst(Written(ModuleReports(names, cases)))).passes;
      && passes == HowMany(Passed, cases) + Surplus(names, cases)
      && ((forall i | 0 <= i < |cases| :: !FailedAndSkipped(cases[i])) ==>
            (passes == HowMany(Passed, cases) <==> forall i | 0 <= i < |cases| :: !OnlyError(cases[i])))
  {
    SummaryIsDirectCount(names, cases);
    PassesWithSurplus(names, cases);
    TalliesAddUp(ModuleOf, PassedTotals, names, cases);
    PassedTally(cases);
    if forall i | 0 <= i < |cases| :: !FailedAndSkipped(cases[i]) {
      ErrorsAreSurplus(names, cases);
    }
    hide SumOfSuites, AllFirst, Written, ModuleReports, TallyByKey, Tally, HowMany, Surplus;
    hide Passed, OnlyError, FailedAndSkipped;
  }

  lemma ErrorsAreSurplus(names: seq<string>, cases: seq<Elem>)
    requires AreModules(names, cases) && forall i | 0 <= i < |cases| :: !FailedAndSkipped(cases[i])
    ensures SumOfSuites(AllFirst(Written(ModuleReports(names, cases)))).passes == HowMany(Passed, cases)
       <==> forall i | 0 <= i < |cases| :: !OnlyError(cases[i])
  {
    PassesAreCleanIff(names, cases);
    CountsByKind(cases);
    HowManyNone(OnlyError, cases);
    forall i | 0 <= i < |names| ensures PassesRight(InModule(cases, names[i])) {
      SelectedBelong(ModuleOf, cases, names[i]);
      forall k | 0 <= k < |InModule(cases, names[i])| ensures !FailedAndSkipped(InModule(cases, names[i])[k]) {
        assert InModule(cases, names[i])[k] in cases;
      }
    }
  }

  lemma {:induction false} ErrorTotals(cases: seq<Elem>)
    requires forall i | 0 <= i < |cases| :: OnlyError(cases[i])
    ensures CleanCount(cases) == HowMany(Having("error"), cases) == |cases|
  {
    if cases != [] {
      ErrorTotals(cases[..|cases| - 1]);
      hide Has;
    }
  }

  /** Testcases that ended with an error are shown as errors and as passes. */
  lemma ErrorsCountAsPasses(names: seq<string>, cases: seq<Elem>)
    requires AreModules(names, cases)
    requires forall i | 0 <= i < |cases| :: OnlyError(cases[i])
    ensures var c := SumOfSuites(AllFirst(Written(ModuleReports(names, cases))));
      c.passes == c.errors == c.total == |cases|
  {
    PassesAreCleanIff(names, cases);
    SummaryIsDirectCount(names, cases);
    ErrorTotals(cases);
    forall i | 0 <= i < |names| ensures PassesRight(InModule(cases, names[i])) {
      SelectedBelong(ModuleOf, cases, names[i]);
      forall k | 0 <= k < |InModule(cases, names[i])| ensures !FailedAndSkipped(InModule(cases, names[i])[k]) {
        assert OnlyError(InModule(cases, names[i])[k]);
      }
    }
  }
}

/** A session's result directory, from its own summary to the merged report. */
module ResultDirs {
  import opened Options
  import opened Sorting
  import opened ReportTree
  import opened ReportMerge
  import opened Grouping
  import opened ReportSplit
  import opened ReportSummary

  /** A report file; the content is None when it cannot be parsed. */
  datatype ReportFile = ReportFile(content: Option<Elem>)

  class ResultDir {
    var report: Option<ReportFile>   // report.xml
    var modules: seq<Elem>           // the files in report/

    constructor (report: Option<ReportFile>)
      ensures this.report == report && modules == []
    {
      this.report, modules := report, [];
    }

    /** `generate_result_summary`: splits the single report, removes it and adds up the module files. */
    method Summarise(leq: (string, string) -> bool) returns (count: nat, c: Counts)
      requires TotalPreorder(leq)
      modifies this
      ensures report.None?
      ensures old(report).None? || old(report).value.content.None? ==> modules == old(modules)
      ensures old(report).Some? && old(report).value.content.Some? ==>
        var cases := Below("testcase", old(report).value.content.value);
        exists names ::
          AreModules(names, cases) && SortedBy(leq, names) && modules == old(modules) + ModuleReports(names, cases)
      ensures c == SumOfSuites(AllFirst(Written(modules))) && count == |AllFirst(Written(modules))|
    {
      if report.Some? {
        if report.value.content.Some? {
          var names, files := SplitXmlByModule(report.value.content.value, leq);
          modules := modules + files;
        }
        report := None;
      }
      count, c := GenerateResultSummary(Written(modules));
    }

    /** What the merge finds: a missing file and one that cannot be parsed are skipped. */
    function ForMerge(): Option<Elem>
      reads this
    {
      if report.Some? then report.value.content else None
    }
  }

  /**
   * A session's counts are those of its report, split and read back by the other summariser, and
   * what is nested in it.
   */
  method CountsSurviveSplit(dir: ResultDir, leq: (string, string) -> bool) returns (c: Counts)
    requires TotalPreorder(leq) && dir.modules == []
    requires dir.report.Some? && dir.report.value.content.Some?
    modifies dir
    ensures var cases := Below("testcase", old(dir.report).value.content.value);
      exists names :: AreModules(names, cases)
        && c == DirectCounts(names, cases).Plus(SumOfSuites(NestedSuites(names, cases)))
  {
    ghost var cases := Below("testcase", dir.report.value.content.value);
    var count, shown := dir.Summarise(leq);
    c := ParseSessionCounts(Written(dir.modules));
    ghost var names :| AreModules(names, cases) && dir.modules == ModuleReports(names, cases);
    SessionCountsAre(names, cases);
  }

  /**
   * In the merged report all testcases of a session fall into one module, named after the session's
   * name up to the first two colons in a row, counting those the merge appends.
   */
  lemma MergedModuleIsSession(session: string, tc: Elem)
    ensures ModuleOf(CopyForSession(session, tc)) == BaseName(DropPy(CutAtColons(session + "::")))
  {
    CutIgnoresRest(session, StrOf(tc, "classname", ""));
  }

  lemma {:induction false} CutIgnoresRest(name: string, rest: string)
    ensures CutAtColons(name + "::" + rest) == CutAtColons(name + "::")
  {
    var s, t := name + "::" + rest, name + "::";
    if name == "" {
      assert s[..2] == t[..2] == "::";
    } else {
      assert s[0] == t[0] && s[1..] == name[1..] + "::" + rest && t[1..] == name[1..] + "::";
      assert s[..2] == t[..2];
      CutIgnoresRest(name[1..], rest);
    }
  }

  // ---------- when a session's testcases reach the merged report ----------

  /** The merge sees the report `seen` of a session whose report is really `r`. */
  lemma MergeKeepsReportIff(name: string, r: Elem, seen: Option<Elem>)
    requires seen.Some? ==> seen.value == r
    ensures multiset(CasesIn(AllSuites([SessionReport(name, seen)])))
         == multiset(CopiesForSession(name, Below("testcase", r)))
       <==> Below("testcase", r) == [] || (seen.Some? && WellPlaced(r.children, false))
  {
    var results := [SessionReport(name, seen)];
    var found, all := CasesIn(Below("testsuite", r)), Below("testcase", r);
    MergedCases(results);
    assert results[..0] == [] && ExpectedCases(results) == if seen.None? then [] else CopiesForSession(name, found);
    MergeKeepsCasesIff(r);
    CopiesAreCases(name, all);
    CopiesAreCases(name, found);
    hide CopyForSession, Below, BelowAll, WellPlaced, AllSuites;
    CopiesPermuted(name, found, all);
    assert |multiset(CopiesForSession(name, all))| == |all| && |multiset(CopiesForSession(name, found))| == |found|;
    SameSizeSubset(found, all);
  }

  lemma CopiesPermuted(name: string, a: seq<Elem>, b: seq<Elem>)
    ensures multiset(a) == multiset(b) ==> multiset(CopiesForSession(name, a)) == multiset(CopiesForSession(name, b))
  {
    CopiesAreCases(name, a);
    CopiesAreCases(name, b);
    var f := (tc: Elem) => CopyForSession(name, tc);
    assert MapSeq(f, a) == CopiesForSession(name, a) && MapSeq(f, b) == CopiesForSession(name, b);
    if multiset(a) == multiset(b) {
      MapPermuted(f, a, b);
    }
  }

  lemma SameSizeSubset<T>(a: seq<T>, b: seq<T>)
    ensures multiset(a) <= multiset(b) && |a| == |b| ==> multiset(a) == multiset(b)
  {
    if multiset(a) <= multiset(b) && |a| == |b| {
      var rest := multiset(b) - multiset(a);
      assert multiset(b) == multiset(a) + rest;
      assert |rest| == 0;
    }
  }

  /**
   * One session's directory up to the merge: its report `r` reaches the merged report whole, every
   * testcase once, iff it holds none, or it could be read, was not summarised before, and has every
   * testcase directly in a test suite below the root.
   */
  method MergeDir(name: string, dir: ResultDir, leq: (string, string) -> bool, summarise: bool, ghost r: Elem)
    returns (root: Elem)
    requires TotalPreorder(leq)
    requires dir.report.Some? && dir.report.value.content.Some? ==> dir.report.value.content.value == r
    modifies dir
    ensures multiset(CasesIn(root.children)) == multiset(CopiesForSession(name, Below("testcase", r)))
       <==> Below("testcase", r) == [] || (
              && old(dir.report).Some? && old(dir.report).value.content.Some?
              && !summarise && WellPlaced(r.children, false))
  {
    if summarise {
      var count, c := dir.Summarise(leq);
    }
    var results := [SessionReport(name, dir.ForMerge())];
    root := MergeSessionReports(results);
    MergeKeepsReportIff(name, r, dir.ForMerge());
  }

  // ---------- the accounting from the sessions to the summary ----------

  lemma CopyKeepsTotals(session: string, tc: Elem)
    ensures CaseTotals(CopyForSession(session, tc)) == CaseTotals(tc)
  {
    var copy := CopyForSession(session, tc);
    CopyHasSameVerdicts(tc, "failure");
    CopyHasSameVerdicts(tc, "error");
    CopyHasSameVerdicts(tc, "skipped");
    assert copy.children == CopyCase(tc).children;
    assert forall tag :: Has(copy, tag) == Has(CopyCase(tc), tag);
    assert SecondsOf(copy, "time") == SecondsOf(tc, "time");
  }

  lemma {:induction false} CopiesKeepTotals(session: string, tcs: seq<Elem>)
    ensures TotalsOf(CopiesForSession(session, tcs)) == TotalsOf(tcs)
  {
    if tcs != [] {
      var n := |tcs| - 1;
      CopiesKeepTotals(session, tcs[..n]);
      CopyKeepsTotals(session, tcs[n]);
      TallyOneMore(CaseTotals, CopiesForSession(session, tcs[..n]), CopyForSession(session, tcs[n]));
      hide CaseTotals, CopyForSession;
    }
  }

  /** A session, the report its run has written, and whether the merge finds that report readable. */
  datatype Session = Session(name: string, report: Elem, seen: bool)

  /** What the merge sees of the sessions. */
  function SeenBy(sessions: seq<Session>): seq<SessionReport> {
    if sessions == [] then []
    else
      var s := sessions[|sessions| - 1];
      SeenBy(sessions[..|sessions| - 1]) + [SessionReport(s.name, if s.seen then Some(s.report) else None)]
  }

  /** The testcases of all the sessions' own reports. */
  function AllCases(sessions: seq<Session>): seq<Elem> {
    if sessions == [] then []
    else AllCases(sessions[..|sessions| - 1]) + Below("testcase", sessions[|sessions| - 1].report)
  }

  /** The session has no testcases, or its report is there and has each in its place. */
  predicate Kept(s: Session) {
    Below("testcase", s.report) == [] || (s.seen && WellPlaced(s.report.children, false))
  }

  predicate Shown(s: Session) {
    Below("testcase", s.report) == [] || (s.seen && WellReached(s.report.children, Outside))
  }

  predicate AllKept(sessions: seq<Session>) {
    forall i | 0 <= i < |sessions| :: Kept(sessions[i])
  }

  predicate AllShown(sessions: seq<Session>) {
    forall i | 0 <= i < |sessions| :: Shown(sessions[i])
  }

  lemma AllButLast(sessions: seq<Session>)
    requires sessions != []
    ensures var front, s := sessions[..|sessions| - 1], sessions[|sessions| - 1];
      (AllKept(sessions) <==> AllKept(front) && Kept(s)) && (AllShown(sessions) <==> AllShown(front) && Shown(s))
  {
    hide Kept, Shown;
    assert forall i | 0 <= i < |sessions| - 1 :: sessions[..|sessions| - 1][i] == sessions[i];
  }

  /** The copies of one session's testcases. */
  function CopiesOf(s: Session): seq<Elem> {
    if s.seen then CopiesForSession(s.name, CasesIn(Below("testsuite", s.report))) else []
  }

  lemma {:induction false} TestsAreLength(cases: seq<Elem>)
    ensures TotalsOf(cases).tests == |cases|
  {
    if cases != [] {
      TestsAreLength(cases[..|cases| - 1]);
    }
  }

  lemma TotalsAdd(a: seq<Elem>, b: seq<Elem>)
    ensures TotalsOf(a + b) == TotalsOf(a).Plus(TotalsOf(b)) && TotalsOf([]) == NO_TOTALS
  {
    TallyConcat(CaseTotals, a, b);
  }

  lemma OneMoreSession(sessions: seq<Session>)
    requires sessions != []
    ensures var front, s := sessions[..|sessions| - 1], sessions[|sessions| - 1];
      && ExpectedCases(SeenBy(sessions)) == ExpectedCases(SeenBy(front)) + CopiesOf(s)
      && WithNested(ExpectedCases(SeenBy(sessions)))
        == WithNested(ExpectedCases(SeenBy(front))) + WithNested(CopiesOf(s))
      && AllCases(sessions) == AllCases(front) + Below("testcase", s.report)
      && TotalsOf(AllCases(sessions)) == TotalsOf(AllCases(front)).Plus(TotalsOf(Below("testcase", s.report)))
  {
    var front, s := SeenBy(sessions[..|sessions| - 1]), sessions[|sessions| - 1];
    var all := SeenBy(sessions);
    assert all[..|all| - 1] == front;
    hide WithNested, CopiesForSession, CasesIn, Below, TotalsOf;
    WithNestedConcat(ExpectedCases(front), CopiesOf(s));
    TotalsAdd(AllCases(sessions[..|sessions| - 1]), Below("testcase", s.report));
  }

  lemma FoundCount(report: Elem)
    ensures var found, all := CasesIn(Below("testsuite", report)), Below("testcase", report);
      && |found| <= |all| && (|found| == |all| <==> WellPlaced(report.children, false))
      && (|found| == |all| ==> TotalsOf(found) == TotalsOf(all))
  {
    var found, all := CasesIn(Below("testsuite", report)), Below("testcase", report);
    MergeKeepsCasesIff(report);
    hide *;
    SizeOfPart(found, all);
    SameSizeSubset(found, all);
    assert |multiset(found)| == |found| && |multiset(all)| == |all|;
    if |found| == |all| {
      TotalsPermuted(found, all);
    }
  }

  /** What the copies of one session count. */
  lemma CopiesCount(s: Session)
    ensures TotalsOf(CopiesOf(s)).tests <= TotalsOf(Below("testcase", s.report)).tests
    ensures TotalsOf(CopiesOf(s)).tests == TotalsOf(Below("testcase", s.report)).tests <==> Kept(s)
    ensures Kept(s) ==> TotalsOf(CopiesOf(s)) == TotalsOf(Below("testcase", s.report))
  {
    hide Below, BelowAll, CasesIn, CopiesForSession, WellPlaced, TotalsOf, Tally;
    var found, all := CasesIn(Below("testsuite", s.report)), Below("testcase", s.report);
    FoundCount(s.report);
    TestsAreLength(all);
    NoTotals();
    if s.seen {
      CopiesKeepTotals(s.name, found);
      TestsAreLength(found);
    }
  }

  lemma NoTotals()
    ensures TotalsOf([]) == NO_TOTALS
  {
  }

  lemma SizeOfPart<T>(a: seq<T>, b: seq<T>)
    requires multiset(a) <= multiset(b)
    ensures |a| <= |b|
  {
    assert multiset(b) == multiset(a) + (multiset(b) - multiset(a));
    assert |multiset(a)| == |a| && |multiset(b)| == |b|;
  }

  lemma TotalsPermuted(a: seq<Elem>, b: seq<Elem>)
    requires multiset(a) == multiset(b)
    ensures TotalsOf(a) == TotalsOf(b)
  {
    TallyPermuted(CaseTotals, a, b);
  }

  /**
   * The merge never counts more tests than the sessions' own reports hold, and as many iff every
   * session is kept; then all counts agree.
   */
  lemma {:induction false} MergedTotals(sessions: seq<Session>)
    ensures var merged, own := TotalsOf(ExpectedCases(SeenBy(sessions))), TotalsOf(AllCases(sessions));
      && merged.tests <= own.tests
      && (merged.tests == own.tests <==> AllKept(sessions))
      && (AllKept(sessions) ==> merged == own)
  {
    if sessions == [] {
      TotalsAdd([], []);
    } else {
      var n := |sessions| - 1;
      MergedTotals(sessions[..n]);
      OneMoreSession(sessions);
      CopiesCount(sessions[n]);
      TotalsAdd(ExpectedCases(SeenBy(sessions[..n])), CopiesOf(sessions[n]));
      AllButLast(sessions);
      hide *;
    }
  }

  lemma ShownCount(s: Session)
    ensures |WithNested(CopiesOf(s))| <= |Below("testcase", s.report)|
    ensures |WithNested(CopiesOf(s))| == |Below("testcase", s.report)| <==> Shown(s)
    ensures Kept(s) ==> WithNested(CopiesOf(s)) == CopiesOf(s)
  {
    FoundInMergedIff(s.name, s.report);
    assert WithNested([]) == [];
    if s.seen && WellPlaced(s.report.children, false) {
      PlacedCopiesAreAlone(s.name, s.report);
    }
    if Below("testcase", s.report) == [] {
      MergeKeepsCasesIff(s.report);
      SizeOfPart(CasesIn(Below("testsuite", s.report)), []);
      CopiesAreCases(s.name, CasesIn(Below("testsuite", s.report)));
      ReachedAllIff(s.report.children, Outside);
    }
    hide WithNested, CasesIn, Below, BelowAll, WellReached, WellPlaced, CopiesForSession, Reached;
  }

  /** The same for what a reader of the merged report finds, copies and what stands directly in them. */
  lemma {:induction false} ShownTests(sessions: seq<Session>)
    ensures var shown, own := |WithNested(ExpectedCases(SeenBy(sessions)))|, |AllCases(sessions)|;
      && shown <= own
      && (shown == own <==> AllShown(sessions))
    ensures AllKept(sessions) ==>
      WithNested(ExpectedCases(SeenBy(sessions))) == ExpectedCases(SeenBy(sessions))
  {
    if sessions != [] {
      var n := |sessions| - 1;
      ShownTests(sessions[..n]);
      OneMoreSession(sessions);
      ShownCount(sessions[n]);
      TestsAreLength(Below("testcase", sessions[n].report));
      AllButLast(sessions);
      hide *;
    }
  }

  /**
   * From the sessions' reports to the final summary, by merging, splitting by module and adding up:
   * it never shows more tests than the sessions' own reports hold, and as many iff of every session
   * with testcases the report is there and has each testcase directly in a test suite, or in a
   * testcase that is. If each is directly in a test suite, all counts agree.
   */
  method MergeSplitSummarise(sessions: seq<Session>, leq: (string, string) -> bool) returns (modules: nat, c: Counts)
    requires TotalPreorder(leq)
    ensures c.total <= |AllCases(sessions)|
    ensures c.total == |AllCases(sessions)| <==> AllShown(sessions)
    ensures AllKept(sessions) ==>
      && c.failures == HowMany(Having("failure"), AllCases(sessions))
      && c.errors == HowMany(Having("error"), AllCases(sessions))
      && c.skipped == HowMany(Having("skipped"), AllCases(sessions)) && c.time == TimeOf(AllCases(sessions))
  {
    hide *;
    var results := SeenBy(sessions);
    var root := MergeSessionReports(results);
    MergedReportReadsBack(results);
    ghost var cases := WithNested(ExpectedCases(results));
    var names, files := SplitXmlByModule(root, leq);
    modules, c := GenerateResultSummary(Written(files));
    SummaryIsDirectCount(names, cases);
    TotalsAreCounts(cases);
    TotalsAreCounts(AllCases(sessions));
    ShownTests(sessions);
    MergedTotals(sessions);
  }
}

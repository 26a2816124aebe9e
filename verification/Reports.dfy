/** JUnit reports as trees, and the searches ElementTree makes in them. */
module ReportTree {
  import opened Options
  import opened Text

  /** An attribute value, with numbers already converted. */
  datatype Attr = Str(s: string) | Count(n: int) | Seconds(t: real)

  datatype Elem = Elem(tag: string, attrib: map<string, Attr>, text: string, children: seq<Elem>)

  /** The children of `e` and their descendants with the tag, in document order: `findall(".//tag")`. */
  function Below(tag: string, e: Elem): seq<Elem>
    decreases e
  {
    BelowAll(tag, e.children)
  }

  function BelowAll(tag: string, es: seq<Elem>): seq<Elem>
    decreases es
  {
    if es == [] then []
    else (if es[0].tag == tag then [es[0]] else []) + Below(tag, es[0]) + BelowAll(tag, es[1..])
  }

  /** The direct children with the tag: `findall("tag")`. */
  function Direct(tag: string, es: seq<Elem>): seq<Elem> {
    if es == [] then [] else (if es[0].tag == tag then [es[0]] else []) + Direct(tag, es[1..])
  }

  /** `e.find(tag) is not None`. */
  predicate Has(e: Elem, tag: string) {
    exists i | 0 <= i < |e.children| :: e.children[i].tag == tag
  }

  function StrOf(e: Elem, name: string, default: string): string {
    if name in e.attrib && e.attrib[name].Str? then e.attrib[name].s else default
  }

  function CountOf(e: Elem, name: string): int {
    if name in e.attrib && e.attrib[name].Count? then e.attrib[name].n else 0
  }

  function SecondsOf(e: Elem, name: string): real {
    if name in e.attrib && e.attrib[name].Seconds? then e.attrib[name].t else 0.0
  }

  /** A child as it is copied: its own children are dropped. */
  function CopyChild(c: Elem): Elem {
    Elem(c.tag, c.attrib, c.text, [])
  }

  function CopyChildren(es: seq<Elem>): (r: seq<Elem>)
    ensures |r| == |es| && forall i | 0 <= i < |es| :: r[i] == CopyChild(es[i])
  {
    seq(|es|, i requires 0 <= i < |es| => CopyChild(es[i]))
  }

  /** A testcase copied element by element. */
  function CopyCase(tc: Elem): Elem {
    Elem("testcase", tc.attrib, "", CopyChildren(tc.children))
  }

  lemma CopyHasSameVerdicts(tc: Elem, tag: string)
    ensures Has(CopyCase(tc), tag) <==> Has(tc, tag)
  {
    var copy := CopyCase(tc);
    assert forall i | 0 <= i < |tc.children| :: copy.children[i].tag == tc.children[i].tag;
  }

  /** A verdict is a direct child with the tag, wherever it stands among the children. */
  lemma {:induction false} HasIffFound(e: Elem, tag: string)
    ensures Has(e, tag) <==> Direct(tag, e.children) != []
    decreases |e.children|
  {
    if e.children != [] {
      var rest := e.(children := e.children[1..]);
      HasIffFound(rest, tag);
      assert Has(e, tag) <==> e.children[0].tag == tag || Has(rest, tag) by {
        if Has(rest, tag) {
          var i :| 0 <= i < |rest.children| && rest.children[i].tag == tag;
          assert e.children[i + 1].tag == tag;
        }
        if i :| 0 < i < |e.children| && e.children[i].tag == tag {
          assert rest.children[i - 1].tag == tag;
        }
      }
    }
  }

  lemma {:induction false} DirectAll(tag: string, es: seq<Elem>)
    requires forall i | 0 <= i < |es| :: es[i].tag == tag
    ensures Direct(tag, es) == es
  {
    if es != [] {
      DirectAll(tag, es[1..]);
    }
  }
}

/** Merging the sessions' reports into one. */
module ReportMerge {
  import opened Options
  import opened Text
  import opened ReportTree

  /** `_copy_testcase`. */
  function CopyForSession(session: string, tc: Elem): Elem {
    var copy := CopyCase(tc);
    copy.(attrib := copy.attrib["classname" := Str(session + "::" + StrOf(tc, "classname", ""))])
  }

  function CopiesForSession(session: string, tcs: seq<Elem>): seq<Elem> {
    if tcs == [] then [] else CopiesForSession(session, tcs[..|tcs| - 1]) + [CopyForSession(session, tcs[|tcs| - 1])]
  }

  function SuiteForSession(session: string, suite: Elem): Elem {
    Elem("testsuite", suite.attrib["name" := Str(session + "::" + StrOf(suite, "name", ""))], "",
      CopiesForSession(session, Direct("testcase", suite.children)))
  }

  function SuitesForSession(session: string, suites: seq<Elem>): seq<Elem> {
    if suites == [] then []
    else SuitesForSession(session, suites[..|suites| - 1]) + [SuiteForSession(session, suites[|suites| - 1])]
  }

  /** A session and its report, None when the file is missing or cannot be parsed. */
  datatype SessionReport = SessionReport(name: string, report: Option<Elem>)

  function SuitesOf(sr: SessionReport): seq<Elem> {
    if sr.report.None? then [] else SuitesForSession(sr.name, Below("testsuite", sr.report.value))
  }

  function AllSuites(results: seq<SessionReport>): seq<Elem> {
    if results == [] then [] else AllSuites(results[..|results| - 1]) + SuitesOf(results[|results| - 1])
  }

  /** `_merge_session_reports`, with the loops of `_merge_one_session`. */
  method MergeSessionReports(results: seq<SessionReport>) returns (root: Elem)
    ensures root == Elem("testsuites", map[], "", AllSuites(results))
  {
    hide Below, SuiteForSession;
    var suites: seq<Elem> := [];
    for r := 0 to |results|
      invariant suites == AllSuites(results[..r])
    {
      assert results[..r + 1][..r] == results[..r];
      var sr := results[r];
      if sr.report.Some? {
        var found := Below("testsuite", sr.report.value);
        var added: seq<Elem> := [];
        for k := 0 to |found|
          invariant added == SuitesForSession(sr.name, found[..k])
        {
          assert found[..k + 1][..k] == found[..k];
          var newSuite := MergeOneSuite(sr.name, found[k]);
          added := added + [newSuite];
        }
        assert found[..|found|] == found;
        suites := suites + added;
      }
    }
    assert results[..|results|] == results;
    root := Elem("testsuites", map[], "", suites);
  }

  method MergeOneSuite(session: string, suite: Elem) returns (newSuite: Elem)
    ensures newSuite == SuiteForSession(session, suite)
  {
    var cases := Direct("testcase", suite.children);
    var copies: seq<Elem> := [];
    for i := 0 to |cases|
      invariant copies == CopiesForSession(session, cases[..i])
    {
      assert cases[..i + 1][..i] == cases[..i];
      copies := copies + [CopyForSession(session, cases[i])];
    }
    assert cases[..|cases|] == cases;
    newSuite := Elem("testsuite", suite.attrib["name" := Str(session + "::" + StrOf(suite, "name", ""))], "", copies);
  }

  /** A copied testcase differs only in its classname, and in what its children hold. */
  lemma CopyKeepsRest(session: string, tc: Elem)
    ensures var copy := CopyForSession(session, tc);
      && copy.tag == "testcase" && copy.attrib.Keys == tc.attrib.Keys + {"classname"}
      && (forall a | a in tc.attrib && a != "classname" :: copy.attrib[a] == tc.attrib[a])
      && |copy.children| == |tc.children|
      && forall i | 0 <= i < |tc.children| ::
           var c, c' := tc.children[i], copy.children[i];
           c'.tag == c.tag && c'.attrib == c.attrib && c'.text == c.text && c'.children == []
  {
  }

  lemma ClassnameIsPrefixed(session: string, tc: Elem, classname: string)
    requires StrOf(tc, "classname", "") == classname
    ensures CopyForSession(session, tc).attrib["classname"] == Str(session + "::" + classname)
  {
  }

  /** A copied suite differs only in its name, and holds only its own testcases. */
  lemma SuiteKeepsRest(session: string, suite: Elem, name: string)
    requires StrOf(suite, "name", "") == name
    ensures var copy := SuiteForSession(session, suite);
      && copy.tag == "testsuite" && copy.attrib.Keys == suite.attrib.Keys + {"name"}
      && (forall a | a in suite.attrib && a != "name" :: copy.attrib[a] == suite.attrib[a])
      && copy.attrib["name"] == Str(session + "::" + name)
      && CasesIn([copy]) == CopiesForSession(session, CasesIn([suite])) && |copy.children| == |CasesIn([suite])|
  {
    SuiteKeepsCases(session, suite);
    CasesInOne(suite);
    CopiesAreCases(session, Direct("testcase", suite.children));
    hide CopiesForSession, Direct, CasesIn;
  }

  // ---------- which testcases are kept ----------

  /** The testcases that stand directly in a suite of the list. */
  function CasesIn(suites: seq<Elem>): seq<Elem> {
    if suites == [] then [] else Direct("testcase", suites[0].children) + CasesIn(suites[1..])
  }

  lemma {:induction false} CasesInConcat(a: seq<Elem>, b: seq<Elem>)
    ensures CasesIn(a + b) == CasesIn(a) + CasesIn(b)
  {
    if a == [] {
      assert a + b == b;
    } else {
      assert (a + b)[1..] == a[1..] + b;
      CasesInConcat(a[1..], b);
    }
  }

  /** The testcases below an element whose parent is a test suite; for the element itself it is given. */
  function Placed(es: seq<Elem>, inSuite: bool): multiset<Elem>
    decreases es
  {
    if es == [] then multiset{}
    else
      (if es[0].tag == "testcase" && inSuite then multiset{es[0]} else multiset{})
      + Placed(es[0].children, es[0].tag == "testsuite")
      + Placed(es[1..], inSuite)
  }

  /** Every testcase stands directly in a test suite. */
  predicate WellPlaced(es: seq<Elem>, inSuite: bool)
    decreases es
  {
    es == [] ||
    ((es[0].tag == "testcase" ==> inSuite)
    && WellPlaced(es[0].children, es[0].tag == "testsuite") && WellPlaced(es[1..], inSuite))
  }

  lemma {:induction false} SuitesHoldPlaced(es: seq<Elem>, inSuite: bool)
    ensures multiset(CasesIn(BelowAll("testsuite", es))) + Standing(es, inSuite) == Placed(es, inSuite)
    decreases es
  {
    if es != [] {
      hide CasesIn, BelowAll, Standing, Placed;
      var own := FirstPlaced(es, inSuite);
      FirstSuites(es);
      SuitesHoldPlaced(es[0].children, es[0].tag == "testsuite");
      SuitesHoldPlaced(es[1..], inSuite);
      Regroup(
        own, Standing(es[0].children, es[0].tag == "testsuite"),
        multiset(CasesIn(BelowAll("testsuite", es[0].children))),
        multiset(CasesIn(BelowAll("testsuite", es[1..]))), Standing(es[1..], inSuite));
    }
  }

  lemma Regroup<T>(own: multiset<T>, a: multiset<T>, b: multiset<T>, c: multiset<T>, d: multiset<T>)
    ensures (a + b + c) + (own + d) == own + (b + a) + (c + d)
  {
  }

  /** The testcases that stand directly among `es`. */
  function Standing(es: seq<Elem>, inSuite: bool): multiset<Elem> {
    multiset(if inSuite then Direct("testcase", es) else [])
  }

  lemma FirstSuites(es: seq<Elem>)
    requires es != []
    ensures multiset(CasesIn(BelowAll("testsuite", es)))
      == Standing(es[0].children, es[0].tag == "testsuite")
        + multiset(CasesIn(BelowAll("testsuite", es[0].children)))
        + multiset(CasesIn(BelowAll("testsuite", es[1..])))
  {
    FirstSuite(es[0], BelowAll("testsuite", es[1..]));
    hide CasesIn, Direct;
  }

  lemma FirstPlaced(es: seq<Elem>, inSuite: bool) returns (own: multiset<Elem>)
    requires es != []
    ensures Standing(es, inSuite) == own + Standing(es[1..], inSuite)
    ensures Placed(es, inSuite) == own + Placed(es[0].children, es[0].tag == "testsuite") + Placed(es[1..], inSuite)
  {
    var here := if es[0].tag == "testcase" && inSuite then [es[0]] else [];
    var rest := if inSuite then Direct("testcase", es[1..]) else [];
    assert (if inSuite then Direct("testcase", es) else []) == here + rest;
    own := multiset(here);
    hide Direct;
  }

  lemma FirstSuite(e: Elem, after: seq<Elem>)
    ensures var below := Below("testsuite", e);
      CasesIn((if e.tag == "testsuite" then [e] else []) + below + after)
      == (if e.tag == "testsuite" then Direct("testcase", e.children) else []) + CasesIn(below) + CasesIn(after)
  {
    var own: seq<Elem> := if e.tag == "testsuite" then [e] else [];
    CasesInConcat(own + Below("testsuite", e), after);
    CasesInConcat(own, Below("testsuite", e));
    CasesInOne(e);
    assert CasesIn([]) == [];
  }

  lemma {:induction false} PlacedAreAllIff(es: seq<Elem>, inSuite: bool)
    ensures Placed(es, inSuite) <= multiset(BelowAll("testcase", es))
    ensures Placed(es, inSuite) == multiset(BelowAll("testcase", es)) <==> WellPlaced(es, inSuite)
    decreases es
  {
    if es != [] {
      var e, rest := es[0], es[1..];
      PlacedAreAllIff(e.children, e.tag == "testsuite");
      PlacedAreAllIff(rest, inSuite);
      var own: seq<Elem> := if e.tag == "testcase" then [e] else [];
      SumsEqualIff(
        if e.tag == "testcase" && inSuite then multiset{e} else multiset{}, multiset(own),
        Placed(e.children, e.tag == "testsuite"), multiset(Below("testcase", e)),
        Placed(rest, inSuite), multiset(BelowAll("testcase", rest)));
    }
  }

  lemma SumsEqualIff<T>(
    a: multiset<T>, a': multiset<T>, b: multiset<T>, b': multiset<T>, c: multiset<T>, c': multiset<T>)
    requires a <= a' && b <= b' && c <= c'
    ensures a + b + c <= a' + b' + c'
    ensures a + b + c == a' + b' + c' <==> a == a' && b == b' && c == c'
  {
    if a + b + c == a' + b' + c' {
      forall x ensures a[x] == a'[x] && b[x] == b'[x] && c[x] == c'[x] {
        assert (a + b + c)[x] == (a' + b' + c')[x];
      }
    }
  }

  /**
   * The merge finds every testcase of a report exactly once iff every testcase stands directly in a
   * test suite below the root; the others are lost, and none is found twice.
   */
  lemma MergeKeepsCasesIff(report: Elem)
    ensures multiset(CasesIn(Below("testsuite", report))) <= multiset(Below("testcase", report))
    ensures multiset(CasesIn(Below("testsuite", report))) == multiset(Below("testcase", report))
            <==> WellPlaced(report.children, false)
  {
    SuitesHoldPlaced(report.children, false);
    PlacedAreAllIff(report.children, false);
  }

  // ---------- the merged report ----------

  /** The copies the merged report must hold, session after session. */
  function ExpectedCases(results: seq<SessionReport>): seq<Elem> {
    if results == [] then []
    else
      var sr := results[|results| - 1];
      ExpectedCases(results[..|results| - 1])
      + if sr.report.None? then [] else CopiesForSession(sr.name, CasesIn(Below("testsuite", sr.report.value)))
  }

  lemma {:induction false} CopiesAt(session: string, tcs: seq<Elem>)
    ensures |CopiesForSession(session, tcs)| == |tcs|
    ensures forall i | 0 <= i < |tcs| :: CopiesForSession(session, tcs)[i] == CopyForSession(session, tcs[i])
  {
    hide CopyForSession;
    if tcs != [] {
      var n := |tcs| - 1;
      CopiesAt(session, tcs[..n]);
    }
  }

  lemma CopiesAreCases(session: string, tcs: seq<Elem>)
    ensures |CopiesForSession(session, tcs)| == |tcs|
    ensures forall i | 0 <= i < |tcs| :: CopiesForSession(session, tcs)[i] == CopyForSession(session, tcs[i])
    ensures forall i | 0 <= i < |tcs| :: CopiesForSession(session, tcs)[i].tag == "testcase"
    ensures Direct("testcase", CopiesForSession(session, tcs)) == CopiesForSession(session, tcs)
  {
    CopiesAt(session, tcs);
    forall i | 0 <= i < |tcs| ensures CopiesForSession(session, tcs)[i].tag == "testcase" {
      assert CopyForSession(session, tcs[i]).tag == "testcase";
    }
    hide CopyForSession, CopiesForSession, Direct;
    DirectAll("testcase", CopiesForSession(session, tcs));
  }

  lemma {:induction false} CopiesConcat(session: string, a: seq<Elem>, b: seq<Elem>)
    ensures CopiesForSession(session, a + b) == CopiesForSession(session, a) + CopiesForSession(session, b)
  {
    hide CopyForSession;
    if b == [] {
      assert a + b == a;
    } else {
      var n := |b| - 1;
      assert (a + b)[..|a + b| - 1] == a + b[..n];
      CopiesConcat(session, a, b[..n]);
    }
  }

  lemma SuiteKeepsCases(session: string, suite: Elem)
    ensures CasesIn([SuiteForSession(session, suite)]) == CopiesForSession(session, CasesIn([suite]))
  {
    CopiesAreCases(session, Direct("testcase", suite.children));
    CasesInOne(SuiteForSession(session, suite));
    CasesInOne(suite);
  }

  lemma {:induction false} SuitesKeepCases(session: string, suites: seq<Elem>)
    ensures CasesIn(SuitesForSession(session, suites)) == CopiesForSession(session, CasesIn(suites))
  {
    if suites != [] {
      var n := |suites| - 1;
      var front, last := suites[..n], suites[n];
      assert suites == front + [last];
      assert SuitesForSession(session, suites) == SuitesForSession(session, front) + [SuiteForSession(session, last)];
      SuitesKeepCases(session, front);
      SuiteKeepsCases(session, last);
      hide *;
      CasesInConcat(SuitesForSession(session, front), [SuiteForSession(session, last)]);
      CasesInConcat(front, [last]);
      CopiesConcat(session, CasesIn(front), CasesIn([last]));
    }
  }

  lemma CasesInOne(suite: Elem)
    ensures CasesIn([suite]) == Direct("testcase", suite.children)
  {
    assert [suite][1..] == [] && CasesIn([]) == [];
  }

  /** The merged report holds exactly the copies of the testcases found, in the order of the sessions. */
  lemma {:induction false} MergedCases(results: seq<SessionReport>)
    ensures CasesIn(AllSuites(results)) == ExpectedCases(results)
  {
    if results != [] {
      var n := |results| - 1;
      MergedCases(results[..n]);
      CasesInConcat(AllSuites(results[..n]), SuitesOf(results[n]));
      if results[n].report.Some? {
        SuitesKeepCases(results[n].name, Below("testsuite", results[n].report.value));
      }
    }
  }

  // ---------- reading the merged report back ----------

  /** The children have no children, as in every copy. */
  predicate Shallow(tc: Elem) {
    forall i | 0 <= i < |tc.children| :: tc.children[i].children == []
  }

  /** The testcases, each followed by those that stand directly in it. */
  function WithNested(tcs: seq<Elem>): seq<Elem> {
    if tcs == [] then [] else [tcs[0]] + Direct("testcase", tcs[0].children) + WithNested(tcs[1..])
  }

  lemma {:induction false} WithNestedConcat(a: seq<Elem>, b: seq<Elem>)
    ensures WithNested(a + b) == WithNested(a) + WithNested(b)
  {
    if a == [] {
      assert a + b == b;
    } else {
      assert (a + b)[0] == a[0] && (a + b)[1..] == a[1..] + b;
      WithNestedConcat(a[1..], b);
    }
  }

  lemma {:induction false} BelowChildless(tag: string, es: seq<Elem>)
    requires forall i | 0 <= i < |es| :: es[i].children == []
    ensures BelowAll(tag, es) == Direct(tag, es)
  {
    if es != [] {
      BelowChildless(tag, es[1..]);
      assert Below(tag, es[0]) == [];
    }
  }

  lemma {:induction false} BelowShallowCases(tcs: seq<Elem>)
    requires forall i | 0 <= i < |tcs| :: tcs[i].tag == "testcase" && Shallow(tcs[i])
    ensures BelowAll("testcase", tcs) == WithNested(tcs)
  {
    if tcs != [] {
      BelowChildless("testcase", tcs[0].children);
      BelowShallowCases(tcs[1..]);
    }
  }

  /** A test suite of copied testcases. */
  predicate OfCopies(suite: Elem) {
    suite.tag == "testsuite"
    && forall k | 0 <= k < |suite.children| :: suite.children[k].tag == "testcase" && Shallow(suite.children[k])
  }

  lemma BelowSuite(suite: Elem)
    requires OfCopies(suite)
    ensures Below("testcase", suite) == WithNested(Direct("testcase", suite.children))
  {
    hide Shallow;
    DirectAll("testcase", suite.children);
    BelowShallowCases(suite.children);
  }

  lemma {:induction false} BelowSuites(suites: seq<Elem>)
    requires forall i | 0 <= i < |suites| :: OfCopies(suites[i])
    ensures BelowAll("testcase", suites) == WithNested(CasesIn(suites))
  {
    if suites != [] {
      var first, rest := suites[0], suites[1..];
      BelowSuite(first);
      assert first.tag == "testsuite";
      assert BelowAll("testcase", suites) == [] + Below("testcase", first) + BelowAll("testcase", rest);
      assert CasesIn(suites) == Direct("testcase", first.children) + CasesIn(rest);
      hide *;
      BelowSuites(rest);
      WithNestedConcat(Direct("testcase", first.children), CasesIn(rest));
    }
  }

  lemma SuiteIsOfCopies(session: string, suite: Elem)
    ensures OfCopies(SuiteForSession(session, suite))
  {
    var tcs := Direct("testcase", suite.children);
    CopiesAreCases(session, tcs);
    hide CopiesForSession, Direct;
    forall k | 0 <= k < |tcs| ensures Shallow(CopyForSession(session, tcs[k])) {
    }
  }

  lemma {:induction false} SuitesAreOfCopies(session: string, suites: seq<Elem>)
    ensures forall suite | suite in SuitesForSession(session, suites) :: OfCopies(suite)
  {
    if suites != [] {
      var n := |suites| - 1;
      SuitesAreOfCopies(session, suites[..n]);
      SuiteIsOfCopies(session, suites[n]);
      hide OfCopies, SuiteForSession;
    }
  }

  lemma {:induction false} AllSuitesAreOfCopies(results: seq<SessionReport>)
    ensures forall suite | suite in AllSuites(results) :: OfCopies(suite)
  {
    if results != [] {
      var sr := results[|results| - 1];
      AllSuitesAreOfCopies(results[..|results| - 1]);
      if sr.report.Some? {
        SuitesAreOfCopies(sr.name, Below("testsuite", sr.report.value));
      }
    }
  }

  /** A reader of the merged report finds exactly those copies, in that order, and what stands directly in them. */
  lemma MergedReportReadsBack(results: seq<SessionReport>)
    ensures Below("testcase", Elem("testsuites", map[], "", AllSuites(results))) == WithNested(ExpectedCases(results))
  {
    MergedCases(results);
    AllSuitesAreOfCopies(results);
    BelowSuites(AllSuites(results));
  }

  // ---------- which testcases a reader of the merged report finds ----------

  /** Where a testcase stands: directly in a test suite, directly in a testcase of that kind, or elsewhere. */
  datatype Place = Outside | InSuite | InCase

  function Inside(e: Elem, place: Place): Place {
    if e.tag == "testsuite" then InSuite else if e.tag == "testcase" && place.InSuite? then InCase else Outside
  }

  function Reached(es: seq<Elem>, place: Place): nat
    decreases es
  {
    if es == [] then 0
    else
      (if es[0].tag == "testcase" && !place.Outside? then 1 else 0)
      + Reached(es[0].children, Inside(es[0], place)) + Reached(es[1..], place)
  }

  /** Every testcase stands directly in a test suite, or directly in a testcase that does. */
  predicate WellReached(es: seq<Elem>, place: Place)
    decreases es
  {
    es == [] ||
    ((es[0].tag == "testcase" ==> !place.Outside?)
    && WellReached(es[0].children, Inside(es[0], place)) && WellReached(es[1..], place))
  }

  lemma {:induction false} ReachedAllIff(es: seq<Elem>, place: Place)
    ensures Reached(es, place) <= |BelowAll("testcase", es)|
    ensures Reached(es, place) == |BelowAll("testcase", es)| <==> WellReached(es, place)
    decreases es
  {
    if es != [] {
      ReachedAllIff(es[0].children, Inside(es[0], place));
      ReachedAllIff(es[1..], place);
    }
  }

  /** What the elements of the list itself add, in view of where they stand. */
  function OwnCases(es: seq<Elem>, place: Place): nat {
    match place
    case Outside => 0
    case InSuite => |WithNested(Direct("testcase", es))|
    case InCase => |Direct("testcase", es)|
  }

  lemma OwnCasesStep(es: seq<Elem>, place: Place)
    requires es != []
    ensures OwnCases(es, place) == OwnCases(es[1..], place)
      + if es[0].tag != "testcase" || place.Outside? then 0
        else if place.InSuite? then 1 + |Direct("testcase", es[0].children)| else 1
  {
    var rest := Direct("testcase", es[1..]);
    assert ([es[0]] + rest)[0] == es[0] && ([es[0]] + rest)[1..] == rest && [] + rest == rest;
  }

  lemma {:induction false} ReachedAreFound(es: seq<Elem>, place: Place)
    ensures |WithNested(CasesIn(BelowAll("testsuite", es)))| + OwnCases(es, place) == Reached(es, place)
    decreases es
  {
    if es != [] {
      var e, rest := es[0], es[1..];
      var below, after := Below("testsuite", e), BelowAll("testsuite", rest);
      var inside := if e.tag == "testsuite" then Direct("testcase", e.children) else [];
      ReachedAreFound(e.children, Inside(e, place));
      ReachedAreFound(rest, place);
      FirstSuite(e, after);
      OwnCasesStep(es, place);
      assert OwnCases(e.children, InSuite) == |WithNested(Direct("testcase", e.children))|;
      assert OwnCases(e.children, InCase) == |Direct("testcase", e.children)| && OwnCases(e.children, Outside) == 0;
      assert |WithNested([])| == 0;
      hide BelowAll, Below, CasesIn, Direct, WithNested, OwnCases;
      WithNestedConcat(inside + CasesIn(below), CasesIn(after));
      WithNestedConcat(inside, CasesIn(below));
    }
  }

  lemma CopiesKeepNested(session: string, tcs: seq<Elem>)
    ensures |WithNested(CopiesForSession(session, tcs))| == |WithNested(tcs)|
  {
    CopiesAreCases(session, tcs);
    SameNested(CopiesForSession(session, tcs), tcs);
  }

  lemma {:induction false} SameNested(a: seq<Elem>, b: seq<Elem>)
    requires |a| == |b|
    requires forall i | 0 <= i < |a| ::
      && |a[i].children| == |b[i].children|
      && forall k | 0 <= k < |a[i].children| :: a[i].children[k].tag == b[i].children[k].tag
    ensures |WithNested(a)| == |WithNested(b)|
  {
    if a != [] {
      SameDirect(a[0].children, b[0].children);
      SameNested(a[1..], b[1..]);
    }
  }

  lemma {:induction false} SameDirect(a: seq<Elem>, b: seq<Elem>)
    requires |a| == |b| && forall k | 0 <= k < |a| :: a[k].tag == b[k].tag
    ensures |Direct("testcase", a)| == |Direct("testcase", b)|
  {
    if a != [] {
      SameDirect(a[1..], b[1..]);
    }
  }

  /** What a reader finds of a merged report is all its testcases iff they are well reached. */
  lemma FoundInMergedIff(session: string, report: Elem)
    ensures var found := |WithNested(CopiesForSession(session, CasesIn(Below("testsuite", report))))|;
      && found <= |Below("testcase", report)|
      && (found == |Below("testcase", report)| <==> WellReached(report.children, Outside))
  {
    CopiesKeepNested(session, CasesIn(Below("testsuite", report)));
    ReachedAreFound(report.children, Outside);
    ReachedAllIff(report.children, Outside);
    assert OwnCases(report.children, Outside) == 0;
    assert Below("testsuite", report) == BelowAll("testsuite", report.children);
    assert Below("testcase", report) == BelowAll("testcase", report.children);
    hide BelowAll, Below, CasesIn, WithNested, Reached, WellReached, OwnCases, CopiesForSession;
  }

  // ---------- well placed reports ----------

  /** In a well placed report no testcase holds another one. */
  lemma {:induction false} PlacedCasesHoldNoCases(es: seq<Elem>, inSuite: bool)
    requires WellPlaced(es, inSuite)
    ensures forall tc | tc in BelowAll("testcase", es) :: !Has(tc, "testcase")
    decreases es
  {
    if es != [] {
      var e, rest := es[0], es[1..];
      PlacedCasesHoldNoCases(e.children, e.tag == "testsuite");
      PlacedCasesHoldNoCases(rest, inSuite);
      if e.tag == "testcase" {
        NoCaseAmong(e.children);
        assert !Has(e, "testcase");
      }
      hide Has, WellPlaced;
    }
  }

  lemma {:induction false} NoCaseAmong(es: seq<Elem>)
    requires WellPlaced(es, false)
    ensures forall i | 0 <= i < |es| :: es[i].tag != "testcase"
    decreases |es|
  {
    if es != [] {
      NoCaseAmong(es[1..]);
      assert forall i | 1 <= i < |es| :: es[i] == es[1..][i - 1];
    }
  }

  lemma {:induction false} NothingDirect(tag: string, es: seq<Elem>)
    requires forall i | 0 <= i < |es| :: es[i].tag != tag
    ensures Direct(tag, es) == []
  {
    if es != [] {
      NothingDirect(tag, es[1..]);
    }
  }

  lemma {:induction false} NothingNested(tcs: seq<Elem>)
    requires forall i | 0 <= i < |tcs| :: !Has(tcs[i], "testcase")
    ensures WithNested(tcs) == tcs
  {
    if tcs != [] {
      assert !Has(tcs[0], "testcase");
      NothingDirect("testcase", tcs[0].children);
      NothingNested(tcs[1..]);
    }
  }

  /** Nothing is nested in the copies from a well placed report. */
  lemma PlacedCopiesAreAlone(session: string, report: Elem)
    requires WellPlaced(report.children, false)
    ensures var copies := CopiesForSession(session, CasesIn(Below("testsuite", report))); WithNested(copies) == copies
  {
    var tcs := CasesIn(Below("testsuite", report));
    MergeKeepsCasesIff(report);
    PlacedCasesHoldNoCases(report.children, false);
    CopiesAreCases(session, tcs);
    forall i | 0 <= i < |tcs| ensures !Has(CopiesForSession(session, tcs)[i], "testcase") {
      assert tcs[i] in multiset(tcs);
      assert tcs[i] in Below("testcase", report);
      CopyHasSameVerdicts(tcs[i], "testcase");
      assert CopyForSession(session, tcs[i]).children == CopyCase(tcs[i]).children;
    }
    NothingNested(CopiesForSession(session, tcs));
  }

  /** A testcase that stands directly below a root which is itself the test suite is not found. */
  lemma MisplacedCaseIsLost()
    ensures var report := Elem("testsuite", map[], "", [Elem("testcase", map[], "", [])]);
      |Below("testcase", report)| == 1 && CasesIn(Below("testsuite", report)) == []
  {
    var tc := Elem("testcase", map[], "", []);
    var report := Elem("testsuite", map[], "", [tc]);
    assert [tc][1..] == [] && BelowAll("testcase", [tc]) == [tc] && BelowAll("testsuite", [tc]) == [];
  }
}

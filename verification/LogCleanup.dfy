/** Which session directories the log cleanup removes. */
module LogCleanup {
  import opened Options
  import opened Sorting

  /** A session directory; `size` is what `_dir_size_mb` measures. */
  datatype Session = Session(mtime: real, path: string, size: real)

  datatype Rules = Rules(maxAgeDays: Option<int>, maxCount: Option<int>, maxSizeMb: Option<real>)

  function Cutoff(now: real, days: int): real {
    now - (days * 86400) as real
  }

  function Total(sessions: seq<Session>): real {
    if sessions == [] then 0.0 else sessions[0].size + Total(sessions[1..])
  }

  function Paths(sessions: seq<Session>): set<string> {
    set s | s in sessions :: s.path
  }

  predicate ByTime(sessions: seq<Session>) {
    forall i, j | 0 <= i < j < |sessions| :: sessions[i].mtime <= sessions[j].mtime
  }

  /** A directory tree is never smaller than nothing. */
  predicate Measured(sessions: seq<Session>) {
    forall s | s in sessions :: s.size >= 0.0
  }

  // ---------- the rules, as the configuration means them ----------

  predicate AgeOk(rules: Rules, now: real, kept: seq<Session>) {
    rules.maxAgeDays.Some? ==> forall i | 0 <= i < |kept| :: kept[i].mtime >= Cutoff(now, rules.maxAgeDays.value)
  }

  /** Not even a negative limit asks for more than removing everything. */
  predicate CountOk(rules: Rules, kept: seq<Session>) {
    rules.maxCount.Some? && kept != [] ==> |kept| <= rules.maxCount.value
  }

  predicate SizeOk(rules: Rules, kept: seq<Session>) {
    rules.maxSizeMb.Some? && kept != [] ==> Total(kept) <= rules.maxSizeMb.value
  }

  predicate Meets(rules: Rules, now: real, kept: seq<Session>) {
    AgeOk(rules, now, kept) && CountOk(rules, kept) && SizeOk(rules, kept)
  }

  /** `sessions[n..]` is the longest part of the newest sessions that meets every rule. */
  predicate LongestKept(rules: Rules, now: real, sessions: seq<Session>, n: nat) {
    && n <= |sessions| && Meets(rules, now, sessions[n..])
    && forall m | 0 <= m < n :: !Meets(rules, now, sessions[m..])
  }

  lemma LongestKeptUnique(rules: Rules, now: real, sessions: seq<Session>, m: nat, n: nat)
    requires LongestKept(rules, now, sessions, m) && LongestKept(rules, now, sessions, n)
    ensures m == n
  {
  }

  lemma {:induction false} TotalOfSuffix(sessions: seq<Session>, m: nat)
    requires Measured(sessions) && m <= |sessions|
    ensures 0.0 <= Total(sessions[m..]) <= Total(sessions)
    decreases |sessions|
  {
    if m > 0 {
      assert sessions[1..][m - 1..] == sessions[m..];
      TotalOfSuffix(sessions[1..], m - 1);
    } else if sessions != [] {
      TotalOfSuffix(sessions[1..], 0);
      assert sessions[1..][0..] == sessions[1..] && sessions[0..] == sessions;
    }
  }

  /** What meets a rule still does without its oldest sessions. */
  lemma MeetsSuffix(rules: Rules, now: real, sessions: seq<Session>, m: nat, n: nat)
    requires Measured(sessions) && m <= n <= |sessions|
    ensures AgeOk(rules, now, sessions[m..]) ==> AgeOk(rules, now, sessions[n..])
    ensures CountOk(rules, sessions[m..]) ==> CountOk(rules, sessions[n..])
    ensures SizeOk(rules, sessions[m..]) ==> SizeOk(rules, sessions[n..])
  {
    assert sessions[m..][n - m..] == sessions[n..];
    TotalOfSuffix(sessions[m..], n - m);
    hide Total;
    forall i | 0 <= i < |sessions[n..]| ensures sessions[n..][i] == sessions[m..][i + n - m] {
    }
  }

  // ---------- the cleanup ----------

  predicate OldUpTo(rules: Rules, now: real, sessions: seq<Session>, n: nat, i: nat) {
    && rules.maxAgeDays.Some? && n <= i <= |sessions|
    && (forall k | 0 <= k < n :: sessions[k].mtime < Cutoff(now, rules.maxAgeDays.value))
    && (forall k | n <= k < i :: sessions[k].mtime >= Cutoff(now, rules.maxAgeDays.value))
  }

  /** The age rule marks a prefix. */
  method MarkOld(rules: Rules, now: real, sessions: seq<Session>) returns (removed: set<string>, ghost n: nat)
    requires ByTime(sessions)
    ensures n <= |sessions| && removed == Paths(sessions[..n])
    ensures AgeOk(rules, now, sessions[n..]) && forall m | 0 <= m < n :: !AgeOk(rules, now, sessions[m..])
  {
    removed, n := {}, 0;
    if rules.maxAgeDays.Some? {
      var cutoff := Cutoff(now, rules.maxAgeDays.value);
      for i := 0 to |sessions|
        invariant OldUpTo(rules, now, sessions, n, i) && removed == Paths(sessions[..n])
      {
        if sessions[i].mtime < cutoff {
          assert sessions[if n < i then n else i].mtime <= sessions[i].mtime;
          assert sessions[..i + 1] == sessions[..i] + [sessions[i]];
          removed := removed + {sessions[i].path};
          n := i + 1;
        }
      }
      forall m | 0 <= m < n ensures !AgeOk(rules, now, sessions[m..]) {
        assert sessions[m..][0].mtime < cutoff;
      }
    }
  }

  /** The count rule marks a prefix; a negative limit marks everything. */
  method MarkSurplus(rules: Rules, sessions: seq<Session>) returns (removed: set<string>, ghost n: nat)
    ensures n <= |sessions| && removed == Paths(sessions[..n])
    ensures CountOk(rules, sessions[n..]) && forall m | 0 <= m < n :: !CountOk(rules, sessions[m..])
  {
    removed, n := {}, 0;
    if rules.maxCount.Some? && |sessions| > rules.maxCount.value {
      var surplus := |sessions| - rules.maxCount.value;
      n := if surplus > |sessions| then |sessions| else surplus;
      for i := 0 to if surplus > |sessions| then |sessions| else surplus
        invariant removed == Paths(sessions[..i])
      {
        assert sessions[..i + 1] == sessions[..i] + [sessions[i]];
        removed := removed + {sessions[i].path};
      }
    }
  }

  lemma NextSession(sessions: seq<Session>, i: nat)
    requires i < |sessions|
    ensures Paths(sessions[..i + 1]) == Paths(sessions[..i]) + {sessions[i].path}
    ensures Total(sessions[i..]) == sessions[i].size + Total(sessions[i + 1..])
  {
    assert sessions[..i + 1] == sessions[..i] + [sessions[i]];
    assert sessions[i..][1..] == sessions[i + 1..];
  }

  /** The size rule marks the oldest sessions until the rest is small enough. */
  method MarkOversize(rules: Rules, sessions: seq<Session>) returns (removed: set<string>, ghost n: nat)
    ensures n <= |sessions| && removed == Paths(sessions[..n])
    ensures SizeOk(rules, sessions[n..]) && forall m | 0 <= m < n :: !SizeOk(rules, sessions[m..])
  {
    removed, n := {}, 0;
    if rules.maxSizeMb.Some? {
      var total := Sum(sessions);
      assert sessions[0..] == sessions && Paths([]) == {} && Total([]) == 0.0;
      for i := 0 to |sessions|
        invariant n == i && removed == Paths(sessions[..i]) && total == Total(sessions[i..])
        invariant forall m | 0 <= m < i :: !SizeOk(rules, sessions[m..])
      {
        hide Paths, Total;
        if total <= rules.maxSizeMb.value { break; }
        NextSession(sessions, i);
        removed := removed + {sessions[i].path};
        total := total - sessions[i].size;
        n := i + 1;
      }
    }
  }

  /** `sum(sizes.values())`. */
  method Sum(sessions: seq<Session>) returns (total: real)
    ensures total == Total(sessions)
  {
    total := 0.0;
    assert sessions[0..] == sessions;
    for i := 0 to |sessions|
      invariant total + Total(sessions[i..]) == Total(sessions)
    {
      NextSession(sessions, i);
      total := total + sessions[i].size;
    }
  }

  lemma PathsOfLonger(sessions: seq<Session>, a: nat, b: nat)
    requires a <= b <= |sessions|
    ensures Paths(sessions[..a]) + Paths(sessions[..b]) == Paths(sessions[..b])
  {
    assert forall s | s in sessions[..a] :: s in sessions[..b];
  }

  /**
   * `_compute_removals`: the removed sessions are the oldest ones, the rest meets every rule, and
   * no more than necessary is removed.
   */
  method ComputeRemovals(rules: Rules, now: real, sessions: seq<Session>) returns (removed: set<string>)
    requires ByTime(sessions) && Measured(sessions)
    ensures exists n: nat :: LongestKept(rules, now, sessions, n) && removed == Paths(sessions[..n])
  {
    var aged, a := MarkOld(rules, now, sessions);
    var surplus, b := MarkSurplus(rules, sessions);
    var oversize, c := MarkOversize(rules, sessions);
    removed := aged + surplus + oversize;
    ghost var ab := if a <= b then b else a;
    ghost var n := if ab <= c then c else ab;
    PathsOfLonger(sessions, if a <= b then a else b, ab);
    PathsOfLonger(sessions, if ab <= c then ab else c, n);
    KeptByEachRule(rules, now, sessions, a, b, c, n);
  }

  lemma KeptByEachRule(rules: Rules, now: real, sessions: seq<Session>, a: nat, b: nat, c: nat, n: nat)
    requires Measured(sessions) && a <= n && b <= n && c <= n && (n == a || n == b || n == c) && n <= |sessions|
    requires AgeOk(rules, now, sessions[a..]) && forall m | 0 <= m < a :: !AgeOk(rules, now, sessions[m..])
    requires CountOk(rules, sessions[b..]) && forall m | 0 <= m < b :: !CountOk(rules, sessions[m..])
    requires SizeOk(rules, sessions[c..]) && forall m | 0 <= m < c :: !SizeOk(rules, sessions[m..])
    ensures LongestKept(rules, now, sessions, n)
  {
    hide AgeOk, CountOk, SizeOk;
    MeetsSuffix(rules, now, sessions, a, n);
    MeetsSuffix(rules, now, sessions, b, n);
    MeetsSuffix(rules, now, sessions, c, n);
  }

  /** Keeping the newest of the removed sessions would break a rule. */
  lemma RemovalIsMinimal(rules: Rules, now: real, sessions: seq<Session>, n: nat, kept: seq<Session>)
    requires LongestKept(rules, now, sessions, n) && n > 0 && kept == [sessions[n - 1]] + sessions[n..]
    ensures !AgeOk(rules, now, kept) || !CountOk(rules, kept) || !SizeOk(rules, kept)
  {
    assert kept == sessions[n - 1..];
    assert !Meets(rules, now, sessions[n - 1..]);
  }

  /**
   * Which sessions survive, by the limits as they are written: those no older than the days, among
   * the newest ones counted, and with all newer ones small enough together.
   */
  lemma SurvivesIff(rules: Rules, now: real, sessions: seq<Session>, n: nat, i: nat)
    requires ByTime(sessions) && Measured(sessions) && LongestKept(rules, now, sessions, n) && i < |sessions|
    ensures i >= n <==>
      && (rules.maxAgeDays.Some? ==> sessions[i].mtime >= now - (rules.maxAgeDays.value * 24 * 60 * 60) as real)
      && (rules.maxCount.Some? ==> |sessions| - i <= rules.maxCount.value)
      && (rules.maxSizeMb.Some? ==> Total(sessions[i..]) <= rules.maxSizeMb.value)
  {
    hide Total;
    var kept := sessions[i..];
    assert kept[0] == sessions[i];
    assert rules.maxAgeDays.Some? ==>
      Cutoff(now, rules.maxAgeDays.value) == now - (rules.maxAgeDays.value * 24 * 60 * 60) as real;
    if i >= n {
      MeetsSuffix(rules, now, sessions, n, i);
    } else {
      assert !Meets(rules, now, kept);
    }
  }

  /** With limits that are not negative, the survivors are within them, as they are written. */
  lemma SurvivorsWithinLimits(rules: Rules, now: real, sessions: seq<Session>, n: nat)
    requires Measured(sessions) && LongestKept(rules, now, sessions, n)
    requires rules.maxCount.Some? ==> rules.maxCount.value >= 0
    requires rules.maxSizeMb.Some? ==> rules.maxSizeMb.value >= 0.0
    ensures rules.maxAgeDays.Some? ==>
      forall s | s in sessions[n..] :: s.mtime >= now - (rules.maxAgeDays.value * 24 * 60 * 60) as real
    ensures rules.maxCount.Some? ==> |sessions[n..]| <= rules.maxCount.value
    ensures rules.maxSizeMb.Some? ==> Total(sessions[n..]) <= rules.maxSizeMb.value
  {
  }

  // ---------- the results directory ----------

  function Older(a: Session, b: Session): bool {
    a.mtime <= b.mtime
  }

  /** `entries.sort(key=lambda t: t[0])`. */
  function Sorted(entries: seq<Session>): seq<Session> {
    Sort((a: Session, b: Session) => Older(a, b), entries)
  }

  lemma SortedIsByTime(entries: seq<Session>)
    ensures ByTime(Sorted(entries)) && multiset(Sorted(entries)) == multiset(entries)
  {
    SortSorts((a: Session, b: Session) => Older(a, b), entries);
  }

  lemma SameElements(xs: seq<Session>, ys: seq<Session>)
    requires multiset(xs) == multiset(ys)
    ensures forall s :: s in xs <==> s in ys
  {
    forall s ensures s in xs <==> s in ys {
      assert s in xs <==> s in multiset(xs);
      assert s in ys <==> s in multiset(ys);
    }
  }

  predicate DistinctPaths(sessions: seq<Session>) {
    forall i, j | 0 <= i < j < |sessions| :: sessions[i].path != sessions[j].path
  }

  lemma SamePathSameSession(sessions: seq<Session>, s: Session, t: Session)
    requires DistinctPaths(sessions) && s in sessions && t in sessions && s.path == t.path
    ensures s == t
  {
    var i :| 0 <= i < |sessions| && sessions[i] == s;
    var j :| 0 <= j < |sessions| && sessions[j] == t;
    assert i == j;
  }

  /** The results directory, as far as the cleanup sees it: its session directories in listing order. */
  class LogManager {
    const rules: Rules
    var dirs: seq<Session>

    constructor (rules: Rules, dirs: seq<Session>)
      ensures this.rules == rules && this.dirs == dirs
    {
      this.rules, this.dirs := rules, dirs;
    }

    /** `cleanup`: what is left is exactly the longest part of the newest sessions meeting every rule. */
    method Cleanup(now: real)
      requires Measured(dirs) && DistinctPaths(dirs)
      modifies this
      ensures exists n: nat ::
        LongestKept(rules, now, Sorted(old(dirs)), n) && multiset(dirs) == multiset(Sorted(old(dirs))[n..])
      ensures Measured(dirs) && DistinctPaths(dirs)
      ensures forall s | s in old(dirs) && s !in dirs :: forall t | t in dirs :: s.mtime <= t.mtime
      ensures forall s | s in dirs :: s in old(dirs)
    {
      var sessions := Sorted(dirs);
      SortedIsByTime(dirs);
      SameElements(sessions, dirs);
      var removed := ComputeRemovals(rules, now, sessions);
      ghost var n: nat :| LongestKept(rules, now, sessions, n) && removed == Paths(sessions[..n]);
      var left := [];
      for i := 0 to |dirs|
        invariant forall s :: s in left <==> s in dirs[..i] && s.path !in removed
        invariant dirs == old(dirs) && DistinctPaths(left)
      {
        if dirs[i].path !in removed {
          left := left + [dirs[i]];
        }
      }
      KeptIsSuffix(sessions, n, dirs, left);
      KeptIsWhole(sessions, n, dirs, left);
      dirs := left;
    }

    /** Cleaning up again at the same moment removes nothing, in whatever order the directories are listed. */
    method CleanupTwice(now: real)
      requires Measured(dirs) && DistinctPaths(dirs)
      modifies this
      ensures exists n: nat ::
        LongestKept(rules, now, Sorted(old(dirs)), n) && multiset(dirs) == multiset(Sorted(old(dirs))[n..])
    {
      Cleanup(now);
      ghost var first := dirs;
      ghost var n: nat :|
        LongestKept(rules, now, Sorted(old(dirs)), n) && multiset(first) == multiset(Sorted(old(dirs))[n..]);
      Cleanup(now);
      ghost var m: nat :| LongestKept(rules, now, Sorted(first), m) && multiset(dirs) == multiset(Sorted(first)[m..]);
      NothingLeftToRemove(rules, now, Sorted(old(dirs)), n, first);
      LongestKeptUnique(rules, now, Sorted(first), m, 0);
      assert Sorted(first)[0..] == Sorted(first);
      SortedIsByTime(first);
    }
  }

  /** No session is kept twice, so what is left is the whole suffix. */
  lemma KeptIsWhole(sessions: seq<Session>, n: nat, dirs: seq<Session>, left: seq<Session>)
    requires DistinctPaths(dirs) && DistinctPaths(left) && n <= |sessions| && multiset(sessions) == multiset(dirs)
    requires forall s :: s in left <==> s in sessions[n..]
    ensures multiset(left) == multiset(sessions[n..])
  {
    assert NoDuplicates(dirs) && NoDuplicates(left);
    NoDuplicatesPermuted(dirs, sessions);
    assert NoDuplicates(sessions[n..]);
    forall s ensures multiset(left)[s] == multiset(sessions[n..])[s] {
      CountOnce(left, s);
      CountOnce(sessions[n..], s);
    }
  }

  lemma {:induction false} TotalWithout(xs: seq<Session>, j: nat)
    requires j < |xs|
    ensures Total(xs) == xs[j].size + Total(xs[..j] + xs[j + 1..])
  {
    var rest := xs[..j] + xs[j + 1..];
    if j == 0 {
      assert rest == xs[1..];
    } else {
      TotalWithout(xs[1..], j - 1);
      assert rest[1..] == xs[1..][..j - 1] + xs[1..][j..];
    }
  }

  lemma {:induction false} TotalPermuted(xs: seq<Session>, ys: seq<Session>)
    requires multiset(xs) == multiset(ys)
    ensures Total(xs) == Total(ys)
  {
    assert |xs| == |multiset(xs)| == |ys|;
    if xs != [] {
      assert xs[0] in multiset(ys);
      var j :| 0 <= j < |ys| && ys[j] == xs[0];
      MultisetTail(xs);
      MultisetWithout(ys, j);
      TotalWithout(ys, j);
      TotalPermuted(xs[1..], ys[..j] + ys[j + 1..]);
    }
  }

  /** The rules do not depend on the order of the sessions. */
  lemma MeetsPermuted(rules: Rules, now: real, xs: seq<Session>, ys: seq<Session>)
    requires multiset(xs) == multiset(ys)
    ensures Meets(rules, now, xs) <==> Meets(rules, now, ys)
  {
    assert |xs| == |multiset(xs)| == |ys|;
    TotalPermuted(xs, ys);
    SameElements(xs, ys);
    hide Total;
    forall i | 0 <= i < |xs| ensures xs[i] in ys {
      assert xs[i] in xs;
    }
    forall i | 0 <= i < |ys| ensures ys[i] in xs {
      assert ys[i] in ys;
    }
  }

  lemma NothingLeftToRemove(rules: Rules, now: real, sessions: seq<Session>, n: nat, left: seq<Session>)
    requires LongestKept(rules, now, sessions, n) && multiset(left) == multiset(sessions[n..])
    ensures LongestKept(rules, now, Sorted(left), 0)
  {
    SortedIsByTime(left);
    MeetsPermuted(rules, now, sessions[n..], Sorted(left));
    assert Sorted(left)[0..] == Sorted(left);
  }

  lemma KeptIsSuffix(sessions: seq<Session>, n: nat, dirs: seq<Session>, left: seq<Session>)
    requires ByTime(sessions) && DistinctPaths(dirs) && n <= |sessions| && multiset(sessions) == multiset(dirs)
    requires forall s :: s in left <==> s in dirs && s.path !in Paths(sessions[..n])
    ensures forall s :: s in left <==> s in sessions[n..]
    ensures forall s | s in dirs && s !in left :: forall t | t in left :: s.mtime <= t.mtime
  {
    SameElements(sessions, dirs);
    assert NoDuplicates(dirs);
    NoDuplicatesPermuted(dirs, sessions);
    forall s | s in sessions[n..] ensures s in left {
      if t :| t in sessions[..n] && t.path == s.path {
        SamePathSameSession(dirs, s, t);
      }
    }
    forall s | s in dirs && s !in left ensures s in sessions[..n] {
      var t :| t in sessions[..n] && t.path == s.path;
      SamePathSameSession(dirs, s, t);
    }
  }
}

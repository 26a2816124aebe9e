/** The corefiles the GDB reader thread records and the two calls that hand them out. */
module CorefileLedger {
  import opened Options

  type Path = string

  /** The fields guarded by the controller's lock. */
  datatype Ledger = Ledger(corefiles: seq<Path>, consumed: set<Path>, last: Option<Path>)

  const NEW_LEDGER := Ledger([], {}, None)

  /**
   * What happens under the lock, in the order the lock is taken: the reader records a file,
   * `wait_corefile` makes its final choice, `generate_coredump` clears the last file, and looks
   * at it again unless it timed out.
   */
  datatype Event = Record(path: Path) | Wait | GenerateBegins | GenerateEnds(inTime: bool)

  /** The newest recorded file not yet handed out. */
  function Newest(corefiles: seq<Path>, consumed: set<Path>): Option<Path> {
    if corefiles == [] then None
    else if corefiles[|corefiles| - 1] !in consumed then Some(corefiles[|corefiles| - 1])
    else Newest(corefiles[..|corefiles| - 1], consumed)
  }

  /** What the event hands out. */
  function HandsOut(l: Ledger, e: Event): Option<Path> {
    match e
    case Wait => Newest(l.corefiles, l.consumed)
    case GenerateEnds(inTime) => if inTime then l.last else None
    case _ => None
  }

  function Step(l: Ledger, e: Event): Ledger {
    match e
    case Record(path) => Ledger(l.corefiles + [path], l.consumed, Some(path))
    case GenerateBegins => l.(last := None)
    case _ =>
      var path := HandsOut(l, e);
      if path.Some? then l.(consumed := l.consumed + {path.value}) else l
  }

  function After(es: seq<Event>): Ledger {
    if es == [] then NEW_LEDGER else Step(After(es[..|es| - 1]), es[|es| - 1])
  }

  /** What event `i` of the history hands out. */
  function Returned(es: seq<Event>, i: nat): Option<Path>
    requires i < |es|
  {
    HandsOut(After(es[..i]), es[i])
  }

  // ---------- the controller ----------

  class GdbController {
    var corefiles: seq<Path>
    var consumed: set<Path>
    var lastCorefile: Option<Path>

    constructor ()
      ensures View() == NEW_LEDGER
    {
      corefiles, consumed, lastCorefile := [], {}, None;
    }

    function View(): Ledger
      reads this
    {
      Ledger(corefiles, consumed, lastCorefile)
    }

    /** The recording branch of `_read_stdout`. */
    method RecordCorefile(path: Path)
      modifies this
      ensures View() == Step(old(View()), Record(path))
    {
      lastCorefile := Some(path);
      corefiles := corefiles + [path];
    }

    method NextUnconsumedCorefile() returns (r: Option<Path>)
      ensures r == Newest(corefiles, consumed)
    {
      var i := |corefiles|;
      assert corefiles[..i] == corefiles;
      while i > 0
        invariant 0 <= i <= |corefiles| && Newest(corefiles, consumed) == Newest(corefiles[..i], consumed)
      {
        i := i - 1;
        assert corefiles[..i + 1][..i] == corefiles[..i];
        if corefiles[i] !in consumed {
          return Some(corefiles[i]);
        }
      }
      r := None;
    }

    /** The end of `wait_corefile`, once a file is there or the time is up. */
    method TakeNewest() returns (r: Option<Path>)
      modifies this
      ensures View() == Step(old(View()), Wait) && r == HandsOut(old(View()), Wait)
    {
      r := NextUnconsumedCorefile();
      if r.Some? {
        consumed := consumed + {r.value};
      }
    }

    /** `generate_coredump` before the gcore command is sent. */
    method GenerateBegin()
      modifies this
      ensures View() == Step(old(View()), GenerateBegins)
    {
      lastCorefile := None;
    }

    /** `generate_coredump` after waiting for the gcore command. */
    method GenerateEnd(inTime: bool) returns (r: Option<Path>)
      modifies this
      ensures View() == Step(old(View()), GenerateEnds(inTime)) && r == HandsOut(old(View()), GenerateEnds(inTime))
    {
      if !inTime { return None; }
      if lastCorefile.None? { return None; }
      consumed := consumed + {lastCorefile.value};
      return lastCorefile;
    }
  }

  // ---------- the ledger is exactly the history ----------

  predicate HandedOut(es: seq<Event>, n: nat, path: Path)
    requires n <= |es|
  {
    exists i | 0 <= i < n :: Returned(es, i) == Some(path)
  }

  predicate RecordedAt(es: seq<Event>, k: int, path: Path) {
    0 <= k < |es| && es[k] == Record(path)
  }

  lemma HandedOutInPrefix(es: seq<Event>, m: nat, n: nat, path: Path)
    requires n <= m <= |es|
    ensures HandedOut(es[..m], n, path) <==> HandedOut(es, n, path)
  {
    forall i: nat | i < n ensures Returned(es[..m], i) == Returned(es, i) {
      assert es[..m][..i] == es[..i];
    }
  }

  lemma {:induction false} ConsumedIsHandedOut(es: seq<Event>, path: Path)
    ensures path in After(es).consumed <==> HandedOut(es, |es|, path)
  {
    if es != [] {
      var n := |es| - 1;
      ConsumedIsHandedOut(es[..n], path);
      HandedOutInPrefix(es, n, n, path);
      assert HandedOut(es, n + 1, path) <==> HandedOut(es, n, path) || Returned(es, n) == Some(path);
    }
  }

  /** Everything recorded, with the times of recording. */
  lemma {:induction false} CorefilesAreRecords(es: seq<Event>) returns (times: seq<nat>)
    ensures |times| == |After(es).corefiles|
    ensures forall j | 0 <= j < |times| :: RecordedAt(es, times[j], After(es).corefiles[j])
    ensures forall i, j | 0 <= i < j < |times| :: times[i] < times[j]
    ensures forall k: nat | k < |es| && es[k].Record? :: k in times
  {
    if es == [] {
      times := [];
    } else {
      var n := |es| - 1;
      times := CorefilesAreRecords(es[..n]);
      if es[n].Record? {
        times := times + [n];
      }
    }
  }

  lemma {:induction false} NewestIs(corefiles: seq<Path>, consumed: set<Path>) returns (j: nat)
    ensures Newest(corefiles, consumed).None? ==> forall i | 0 <= i < |corefiles| :: corefiles[i] in consumed
    ensures Newest(corefiles, consumed).Some? ==>
      && j < |corefiles| && Newest(corefiles, consumed) == Some(corefiles[j]) && corefiles[j] !in consumed
      && forall i | j < i < |corefiles| :: corefiles[i] in consumed
  {
    j := 0;
    if corefiles != [] {
      var n := |corefiles| - 1;
      if corefiles[n] !in consumed {
        j := n;
      } else {
        j := NewestIs(corefiles[..n], consumed);
      }
    }
  }

  // ---------- what the calls promise, in terms of the history alone ----------

  /** The file recorded by event `k` is the newest that had not been handed out before event `n`. */
  ghost predicate NewestFresh(es: seq<Event>, n: nat, k: nat, path: Path)
    requires n <= |es|
  {
    && k < n && RecordedAt(es, k, path) && !HandedOut(es, n, path)
    && forall m, q | k < m < n && RecordedAt(es, m, q) :: HandedOut(es, n, q)
  }

  /** The ledger before event `n`: its files with their times, and what is consumed. */
  lemma LedgerTells(es: seq<Event>, n: nat) returns (times: seq<nat>)
    requires n <= |es|
    ensures |times| == |After(es[..n]).corefiles|
    ensures forall i | 0 <= i < |times| :: times[i] < n && RecordedAt(es, times[i], After(es[..n]).corefiles[i])
    ensures forall i, j | 0 <= i < j < |times| :: times[i] < times[j]
    ensures forall m: nat, q | m < n && RecordedAt(es, m, q) :: m in times
    ensures forall q :: q in After(es[..n]).consumed <==> HandedOut(es, n, q)
  {
    var before := es[..n];
    forall q ensures q in After(before).consumed <==> HandedOut(es, n, q) {
      ConsumedIsHandedOut(before, q);
      HandedOutInPrefix(es, n, n, q);
    }
    hide After, HandedOut;
    times := CorefilesAreRecords(before);
    forall i | 0 <= i < |times| ensures times[i] < n && RecordedAt(es, times[i], After(before).corefiles[i]) {
      assert RecordedAt(before, times[i], After(before).corefiles[i]);
    }
    forall m: nat, q | m < n && RecordedAt(es, m, q) ensures m in times {
      assert before[m].Record?;
    }
  }

  /** The times and files of all recordings before event `n`. */
  predicate Recordings(es: seq<Event>, n: nat, times: seq<nat>, files: seq<Path>) {
    && |times| == |files|
    && (forall i | 0 <= i < |times| :: times[i] < n && RecordedAt(es, times[i], files[i]))
    && (forall i, j | 0 <= i < j < |times| :: times[i] < times[j])
  }

  lemma FreshAt(es: seq<Event>, n: nat, times: seq<nat>, files: seq<Path>, j: nat)
    requires n <= |es| && Recordings(es, n, times, files) && j < |files| && !HandedOut(es, n, files[j])
    requires forall m: nat, q | m < n && RecordedAt(es, m, q) :: m in times
    requires forall i | j < i < |files| :: HandedOut(es, n, files[i])
    ensures NewestFresh(es, n, times[j], files[j])
  {
    hide HandedOut;
    assert RecordedAt(es, times[j], files[j]);
    forall m, q | times[j] < m < n && RecordedAt(es, m, q) ensures HandedOut(es, n, q) {
      assert m in times;
      var i :| 0 <= i < |times| && times[i] == m;
      assert RecordedAt(es, times[i], files[i]);
      assert i > j;
    }
  }

  lemma AllTaken(es: seq<Event>, n: nat, times: seq<nat>, files: seq<Path>)
    requires n <= |es| && Recordings(es, n, times, files)
    requires forall m: nat, q | m < n && RecordedAt(es, m, q) :: m in times
    ensures (forall i | 0 <= i < |files| :: HandedOut(es, n, files[i]))
            <==> forall m: nat, q | m < n && RecordedAt(es, m, q) :: HandedOut(es, n, q)
  {
    hide HandedOut;
    assert forall i | 0 <= i < |files| :: RecordedAt(es, times[i], files[i]);
    forall m: nat, q | m < n && RecordedAt(es, m, q) ensures q in files {
      assert m in times;
      var i :| 0 <= i < |times| && times[i] == m;
      assert RecordedAt(es, times[i], files[i]);
      assert files[i] == q;
    }
  }

  /**
   * Whatever the interleaving, `wait_corefile` hands out the newest recorded file that neither
   * call had handed out before; nothing exactly when every recorded file had been.
   */
  lemma WaitReturnsNewestFresh(es: seq<Event>, n: nat)
    requires n < |es| && es[n].Wait?
    ensures Returned(es, n).Some? ==> exists k: nat :: NewestFresh(es, n, k, Returned(es, n).value)
    ensures Returned(es, n).None? <==> forall k: nat, q | k < n && RecordedAt(es, k, q) :: HandedOut(es, n, q)
  {
    var l := After(es[..n]);
    assert Returned(es, n) == Newest(l.corefiles, l.consumed);
    var times := LedgerTells(es, n);
    var j := NewestIs(l.corefiles, l.consumed);
    assert forall i | 0 <= i < |l.corefiles| :: l.corefiles[i] in l.consumed <==> HandedOut(es, n, l.corefiles[i]);
    hide After, HandedOut, Newest, Returned, RecordedAt, NewestFresh;
    AllTaken(es, n, times, l.corefiles);
    if Returned(es, n).Some? {
      FreshAt(es, n, times, l.corefiles, j);
    }
  }

  /** `wait_corefile` never hands out a file either call has handed out before. */
  lemma NeverHandedOutTwice(es: seq<Event>, i: nat, n: nat)
    requires i < n < |es| && es[n].Wait? && Returned(es, n).Some?
    ensures Returned(es, i) != Returned(es, n)
  {
    WaitReturnsNewestFresh(es, n);
  }

  // ---------- generate_coredump ----------

  /** Event `k` is the last to record a file before event `n`, and no `generate_coredump` began since. */
  ghost predicate LastSinceBegin(es: seq<Event>, n: nat, k: nat, path: Path)
    requires n <= |es|
  {
    k < n && RecordedAt(es, k, path) && forall m | k < m < n :: !es[m].Record? && !es[m].GenerateBegins?
  }

  lemma {:induction false} LastIs(es: seq<Event>, n: nat, path: Path)
    requires n <= |es|
    ensures After(es[..n]).last == Some(path) <==> exists k: nat :: LastSinceBegin(es, n, k, path)
  {
    if n > 0 {
      var m := n - 1;
      LastIs(es, m, path);
      assert es[..n][..m] == es[..m];
      if es[m] == Record(path) {
        assert LastSinceBegin(es, n, m, path);
      } else if k: nat :| LastSinceBegin(es, m, k, path) {
        assert es[m].Record? || es[m].GenerateBegins? || LastSinceBegin(es, n, k, path);
      }
      if k: nat :| LastSinceBegin(es, n, k, path) {
        assert k == m || LastSinceBegin(es, m, k, path);
      }
    }
  }

  /** `generate_coredump` hands out the last file recorded since the last such call began, if it is in time. */
  lemma GenerateReturnsLast(es: seq<Event>, n: nat, path: Path)
    requires n < |es| && es[n].GenerateEnds?
    ensures Returned(es, n) == Some(path) <==> es[n].inTime && exists k: nat :: LastSinceBegin(es, n, k, path)
  {
    LastIs(es, n, path);
  }

  /** Everything handed out was recorded by the reader before. */
  lemma ReturnedWasRecorded(es: seq<Event>, n: nat)
    requires n < |es| && Returned(es, n).Some?
    ensures exists k :: k < n && RecordedAt(es, k, Returned(es, n).value)
  {
    if es[n].Wait? {
      WaitReturnsNewestFresh(es, n);
    } else {
      GenerateReturnsLast(es, n, Returned(es, n).value);
    }
  }

  /** The event takes a file out of the ledger, if there is one to take. */
  predicate Takes(e: Event) {
    e.Wait? || (e.GenerateEnds? && e.inTime)
  }

  lemma {:induction false} FirstTakeAfterRecord(es: seq<Event>, k: nat, path: Path, m: nat, n: nat)
    requires n <= |es| && LastSinceBegin(es, n, k, path) && k < m < n && Takes(es[m])
    ensures HandedOut(es, n, path)
  {
    assert LastSinceBegin(es, m, k, path);
    if es[m].Wait? {
      WaitReturnsNewestFresh(es, m);
      if Returned(es, m).Some? {
        var q := Returned(es, m).value;
        var k': nat :| NewestFresh(es, m, k', q);
        assert k' == k || RecordedAt(es, k', q);
        assert k' < k ==> HandedOut(es, m, path);
      }
    } else {
      GenerateReturnsLast(es, m, path);
    }
  }

  /**
   * `generate_coredump` does hand out a file a second time, exactly when the file had been handed
   * out before it was recorded, or when another call took it between its recording and the end.
   */
  lemma GenerateRepeatsIff(es: seq<Event>, n: nat, k: nat, path: Path)
    requires n < |es| && es[n] == GenerateEnds(true) && LastSinceBegin(es, n, k, path)
    ensures Returned(es, n) == Some(path)
    ensures HandedOut(es, n, path) <==> HandedOut(es, k, path) || exists m | k < m < n :: Takes(es[m])
  {
    GenerateReturnsLast(es, n, path);
    if m :| k < m < n && Takes(es[m]) {
      FirstTakeAfterRecord(es, k, path, m, n);
    }
    if HandedOut(es, n, path) {
      var i :| 0 <= i < n && Returned(es, i) == Some(path);
      assert i < k || Takes(es[i]);
    }
  }

  /** A run in which both calls hand out the same file. */
  lemma GenerateMayRepeat()
    ensures var es := [GenerateBegins, Record("core"), Wait, GenerateEnds(true)];
      Returned(es, 2) == Returned(es, 3) == Some("core")
  {
    var es := [GenerateBegins, Record("core"), Wait, GenerateEnds(true)];
    assert LastSinceBegin(es, 3, 1, "core");
    GenerateReturnsLast(es, 3, "core");
    WaitReturnsNewestFresh(es, 2);
    assert RecordedAt(es, 1, "core");
    assert Returned(es, 0) == None && Returned(es, 1) == None;
    assert !HandedOut(es, 2, "core");
  }
}

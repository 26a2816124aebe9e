/** The build phase of a multi-session run, with its cache of built configurations. */
module BuildPhase {
  import opened Options
  import opened MultiRunner

  /** The test settings in the `config` section; None for a missing key. */
  datatype Settings = Settings(loops: Option<Yaml>, timeout: Option<Yaml>, timeoutSession: Option<Yaml>)

  /** A core of a product; the empty defconfig stands for none. */
  datatype Core = Core(defconfig: string, other: Yaml)

  /**
   * A session's configuration: the sections whose key contains "product", by core, what `config`
   * holds of `build_env`, `kv` and settings, the image paths of the cores, and everything else.
   */
  datatype Config = Config(
    products: map<string, map<string, Core>>, buildEnv: map<string, Yaml>, kv: map<string, Yaml>,
    settings: Settings, images: Yaml, other: Yaml)

  /**
   * A session with what its file holds, None when it cannot be loaded, and the image paths that
   * building it would give, None when that raises.
   */
  datatype Entry = Entry(session: SessionConfig, loaded: Option<Config>, build: Option<Yaml>)

  datatype Phase = Built(confs: map<string, Config>) | BuildFailed | LoadFailed

  type Key = set<(string, string)>

  function Sessions(es: seq<Entry>): (r: seq<SessionConfig>)
    ensures |r| == |es| && forall i | 0 <= i < |es| :: r[i] == es[i].session
  {
    seq(|es|, i requires 0 <= i < |es| => es[i].session)
  }

  // ---------- one session ----------

  function Override(own: Yaml, given: Option<Yaml>): Option<Yaml> {
    if own == Null then given else Some(own)
  }

  /** `resolve_session_config`: the loaded configuration with the session's own settings laid over. */
  function Conf(e: Entry): Config
    requires e.loaded.Some?
  {
    var given := e.loaded.value.settings;
    e.loaded.value.(settings := Settings(
      Override(e.session.loops, given.loops), Override(e.session.timeout, given.timeout),
      Override(e.session.timeoutSession, given.timeoutSession)))
  }

  predicate HasDefconfig(c: Config, p: string, q: string) {
    p in c.products && q in c.products[p] && c.products[p][q].defconfig != ""
  }

  /** `_build_key`. */
  function BuildKey(str: Yaml -> string, c: Config): Key {
    (set p, q | p in c.products && q in c.products[p] && HasDefconfig(c, p, q) ::
       (p + "." + q + ".defconfig", c.products[p][q].defconfig))
    + (set k | k in c.buildEnv :: ("build_env." + k, str(c.buildEnv[k])))
    + (set k | k in c.kv :: ("kv." + k, str(c.kv[k])))
  }

  /** `need_build`. */
  predicate NeedsBuild(c: Config) {
    exists p, q | p in c.products && q in c.products[p] :: HasDefconfig(c, p, q)
  }

  function WithLoops(c: Config): Config {
    if c.settings.loops.None? then c.(settings := c.settings.(loops := Some(Int(1)))) else c
  }

  /** What building leaves: only the image paths change. */
  function Ready(e: Entry): Config
    requires e.loaded.Some?
  {
    var c := WithLoops(Conf(e));
    if NeedsBuild(c) && e.build.Some? then c.(images := e.build.value) else c
  }

  /** A session's own settings come before the file's, one loop is the default, and building changes images only. */
  lemma SettingsAreOverlaid(e: Entry)
    requires e.loaded.Some?
    ensures var own, file, ready := e.session, e.loaded.value, Ready(e);
      && (own.loops != Null ==> ready.settings.loops == Some(own.loops))
      && (own.loops == Null && file.settings.loops.Some? ==> ready.settings.loops == file.settings.loops)
      && (own.loops == Null && file.settings.loops.None? ==> ready.settings.loops == Some(Int(1)))
      && ready.settings.timeout == (if own.timeout == Null then file.settings.timeout else Some(own.timeout))
      && ready.settings.timeoutSession ==
         (if own.timeoutSession == Null then file.settings.timeoutSession else Some(own.timeoutSession))
      && (ready.images == file.images || (e.build.Some? && ready.images == e.build.value))
      && ready.products == file.products && ready.buildEnv == file.buildEnv && ready.kv == file.kv
      && ready.other == file.other
  {
    hide NeedsBuild;
  }

  // ---------- all sessions ----------

  predicate SameKey(str: Yaml -> string, a: Entry, b: Entry)
    requires a.loaded.Some? && b.loaded.Some?
  {
    BuildKey(str, Conf(a)) == BuildKey(str, Conf(b))
  }

  /** An earlier session has the same key. */
  predicate Reuses(str: Yaml -> string, es: seq<Entry>, i: nat)
    requires i < |es| && es[i].loaded.Some?
  {
    exists j | 0 <= j < i :: es[j].loaded.Some? && SameKey(str, es[j], es[i])
  }

  predicate RunsBuilder(str: Yaml -> string, es: seq<Entry>, i: nat)
    requires i < |es| && es[i].loaded.Some?
  {
    !Reuses(str, es, i) && NeedsBuild(Conf(es[i]))
  }

  /** What ends the phase at session `i`, if anything. */
  function TroubleAt(str: Yaml -> string, es: seq<Entry>, i: nat): Option<Phase>
    requires i < |es|
  {
    if es[i].loaded.None? then Some(LoadFailed)
    else if RunsBuilder(str, es, i) && es[i].build.None? then Some(BuildFailed)
    else None
  }

  ghost predicate NoTrouble(str: Yaml -> string, es: seq<Entry>, n: nat)
    requires n <= |es|
  {
    forall i | 0 <= i < n :: es[i].loaded.Some? && TroubleAt(str, es, i) == None
  }

  ghost predicate FirstTrouble(str: Yaml -> string, es: seq<Entry>, i: nat, r: Phase) {
    i < |es| && NoTrouble(str, es, i) && TroubleAt(str, es, i) == Some(r)
  }

  /**
   * The phase fails at the first session whose file cannot be loaded, or whose build, needed and not
   * done for an earlier session with its key, raises.
   */
  lemma FirstTroubleIff(str: Yaml -> string, es: seq<Entry>, i: nat, r: Phase)
    ensures FirstTrouble(str, es, i, r) <==>
      && i < |es| && NoTrouble(str, es, i)
      && match r
         case Built(_) => false
         case LoadFailed => es[i].loaded.None?
         case BuildFailed =>
           && es[i].loaded.Some? && es[i].build.None? && NeedsBuild(Conf(es[i]))
           && forall j | 0 <= j < i :: es[j].loaded.None? || !SameKey(str, es[j], es[i])
  {
    hide NoTrouble, NeedsBuild, Conf, SameKey;
  }

  /** The first session with the key of session `i`. */
  ghost function FirstUser(str: Yaml -> string, es: seq<Entry>, i: nat): (f: nat)
    requires i < |es| && es[i].loaded.Some?
    ensures f <= i && es[f].loaded.Some? && SameKey(str, es[f], es[i]) && !Reuses(str, es, f)
  {
    if j :| 0 <= j < i && es[j].loaded.Some? && SameKey(str, es[j], es[i]) then FirstUser(str, es, j) else i
  }

  lemma {:induction false} FirstUserIs(str: Yaml -> string, es: seq<Entry>, i: nat, f: nat)
    requires f <= i < |es| && es[f].loaded.Some? && es[i].loaded.Some?
    requires SameKey(str, es[f], es[i]) && !Reuses(str, es, f)
    ensures FirstUser(str, es, i) == f
  {
    var g := FirstUser(str, es, i);
    assert !(f < g) && !(g < f);
  }

  /** The configuration that session `i` is run with. */
  ghost function ConfUsed(str: Yaml -> string, es: seq<Entry>, i: nat): Config
    requires i < |es| && es[i].loaded.Some?
  {
    Ready(es[FirstUser(str, es, i)])
  }

  /** The cache after the first `n` sessions. */
  ghost predicate CacheHolds(str: Yaml -> string, es: seq<Entry>, n: nat, cache: map<Key, Config>)
    requires n <= |es| && NoTrouble(str, es, n)
  {
    && (forall i | 0 <= i < n :: BuildKey(str, Conf(es[i])) in cache)
    && (forall k | k in cache :: exists i | 0 <= i < n :: Cached(str, es, i, k, cache[k]))
  }

  /** Session `i` is the first with its key `k`, and `c` is what it has left. */
  ghost predicate Cached(str: Yaml -> string, es: seq<Entry>, i: nat, k: Key, c: Config) {
    i < |es| && es[i].loaded.Some? && BuildKey(str, Conf(es[i])) == k && !Reuses(str, es, i) && c == Ready(es[i])
  }

  ghost predicate ConfsHold(str: Yaml -> string, es: seq<Entry>, n: nat, confs: map<string, Config>)
    requires n <= |es| && NoTrouble(str, es, n)
  {
    && (forall i | 0 <= i < n :: es[i].session.name in confs && confs[es[i].session.name] == ConfUsed(str, es, i))
    && (forall name | name in confs :: exists i | 0 <= i < n :: es[i].session.name == name)
  }

  lemma {:induction false} CacheHit(str: Yaml -> string, es: seq<Entry>, i: nat, k: Key, cache: map<Key, Config>)
    requires i < |es| && NoTrouble(str, es, i) && CacheHolds(str, es, i, cache)
    requires es[i].loaded.Some? && k == BuildKey(str, Conf(es[i])) && k in cache
    ensures Reuses(str, es, i) && cache[k] == ConfUsed(str, es, i)
  {
    hide Conf, BuildKey, NeedsBuild, Ready, NoTrouble;
    var f :| 0 <= f < i && Cached(str, es, f, k, cache[k]);
    hide CacheHolds;
    assert SameKey(str, es[f], es[i]);
    FirstUserIs(str, es, i, f);
  }

  lemma {:induction false} CacheStays(str: Yaml -> string, es: seq<Entry>, i: nat, cache: map<Key, Config>)
    requires i < |es| && NoTrouble(str, es, i) && CacheHolds(str, es, i, cache)
    requires es[i].loaded.Some? && Reuses(str, es, i) && BuildKey(str, Conf(es[i])) in cache
    ensures NoTrouble(str, es, i + 1) && CacheHolds(str, es, i + 1, cache)
  {
    hide Conf, BuildKey, Reuses, Cached;
  }

  lemma {:induction false} CacheMiss(str: Yaml -> string, es: seq<Entry>, i: nat, cache: map<Key, Config>)
    requires i < |es| && NoTrouble(str, es, i) && CacheHolds(str, es, i, cache)
    requires es[i].loaded.Some? && BuildKey(str, Conf(es[i])) !in cache
    ensures !Reuses(str, es, i) && ConfUsed(str, es, i) == Ready(es[i])
    ensures TroubleAt(str, es, i) == None ==>
      && NoTrouble(str, es, i + 1)
      && CacheHolds(str, es, i + 1, cache[BuildKey(str, Conf(es[i])) := Ready(es[i])])
  {
    hide Conf, BuildKey, NeedsBuild, Ready;
    FirstUserIs(str, es, i, i);
    var k := BuildKey(str, Conf(es[i]));
    assert Cached(str, es, i, k, cache[k := Ready(es[i])][k]);
  }

  lemma {:induction false} ConfsGrow(str: Yaml -> string, es: seq<Entry>, i: nat, confs: map<string, Config>)
    requires UniqueConfigNames(Sessions(es)) && i < |es|
    requires NoTrouble(str, es, i) && NoTrouble(str, es, i + 1) && ConfsHold(str, es, i, confs)
    ensures ConfsHold(str, es, i + 1, confs[es[i].session.name := ConfUsed(str, es, i)])
  {
    hide NoTrouble, ConfUsed;
    forall j | 0 <= j < i ensures es[j].session.name != es[i].session.name {
      assert Sessions(es)[j].name != Sessions(es)[i].name;
    }
  }

  /** `_phase_build`. */
  method PhaseBuild(str: Yaml -> string, es: seq<Entry>) returns (r: Phase)
    requires UniqueConfigNames(Sessions(es))
    ensures r.Built? <==> NoTrouble(str, es, |es|)
    ensures r.Built? ==> ConfsHold(str, es, |es|, r.confs)
    ensures !r.Built? ==> exists i: nat :: FirstTrouble(str, es, i, r)
  {
    hide CacheHolds, ConfsHold, BuildKey, Conf, Reuses, ConfUsed, WithLoops, NeedsBuild;
    var confs: map<string, Config>, cache: map<Key, Config> := map[], map[];
    NothingBuilt(str, es);
    for i := 0 to |es|
      invariant NoTrouble(str, es, i) && CacheHolds(str, es, i, cache) && ConfsHold(str, es, i, confs)
    {
      var e := es[i];
      if e.loaded.None? {
        assert FirstTrouble(str, es, i, LoadFailed);
        return LoadFailed;
      }
      var key := BuildKey(str, Conf(e));
      if key in cache {
        CacheHit(str, es, i, key, cache);
        CacheStays(str, es, i, cache);
        ConfsGrow(str, es, i, confs);
        confs := confs[e.session.name := cache[key]];
        continue;
      }
      CacheMiss(str, es, i, cache);
      var conf := WithLoops(Conf(e));
      LoopsChangeNoKey(Conf(e));
      if NeedsBuild(conf) {
        if e.build.None? {
          assert FirstTrouble(str, es, i, BuildFailed);
          return BuildFailed;
        }
        conf := conf.(images := e.build.value);
      }
      assert conf == Ready(e) && TroubleAt(str, es, i) == None;
      ConfsGrow(str, es, i, confs);
      cache := cache[key := conf];
      confs := confs[e.session.name := conf];
    }
    r := Built(confs);
  }

  lemma {:induction false} NothingBuilt(str: Yaml -> string, es: seq<Entry>)
    ensures CacheHolds(str, es, 0, map[]) && ConfsHold(str, es, 0, map[])
  {
  }

  lemma {:induction false} LoopsChangeNoKey(c: Config)
    ensures NeedsBuild(WithLoops(c)) <==> NeedsBuild(c)
  {
    assert forall p, q :: HasDefconfig(WithLoops(c), p, q) == HasDefconfig(c, p, q);
  }

  // ---------- what each session is run with ----------

  /** For every key only its first session can run the builder. */
  lemma {:induction false} EachKeyBuiltOnce(str: Yaml -> string, es: seq<Entry>, i: nat, j: nat)
    requires i < |es| && j < |es| && es[i].loaded.Some? && es[j].loaded.Some?
    requires RunsBuilder(str, es, j) && SameKey(str, es[j], es[i])
    ensures j == FirstUser(str, es, i)
  {
    hide BuildKey, Conf, NeedsBuild;
    if j <= i {
      FirstUserIs(str, es, i, j);
    }
  }

  /** The two configurations differ at most in image paths, and only when those are built. */
  predicate Alike(a: Config, b: Config) {
    WithLoops(a).(images := b.images) == WithLoops(b) && (NeedsBuild(b) || a.images == b.images)
  }

  /** Session `i` is run with its own configuration, built where that is needed. */
  ghost predicate RunsOwn(str: Yaml -> string, es: seq<Entry>, i: nat)
    requires i < |es| && es[i].loaded.Some?
  {
    Alike(ConfUsed(str, es, i), Conf(es[i]))
  }

  ghost predicate AllLoaded(es: seq<Entry>) {
    forall i | 0 <= i < |es| :: es[i].loaded.Some?
  }

  /** Two sessions with the same key have like configurations. */
  ghost predicate AlikeWhereShared(str: Yaml -> string, es: seq<Entry>, j: nat, i: nat)
    requires j < i < |es| && AllLoaded(es)
  {
    SameKey(str, es[j], es[i]) ==> Alike(Conf(es[j]), Conf(es[i]))
  }

  /** Every session is run with its own configuration iff all that share a key have like configurations. */
  lemma {:induction false} AllRunOwnIff(str: Yaml -> string, es: seq<Entry>)
    requires AllLoaded(es)
    ensures (forall i | 0 <= i < |es| :: RunsOwn(str, es, i)) <==>
      forall j, i | 0 <= j < i < |es| :: AlikeWhereShared(str, es, j, i)
  {
    hide BuildKey, Conf, Alike;
    if forall i | 0 <= i < |es| :: RunsOwn(str, es, i) {
      forall j, i | 0 <= j < i < |es| ensures AlikeWhereShared(str, es, j, i) {
        if SameKey(str, es[j], es[i]) {
          assert RunsOwn(str, es, j) && RunsOwn(str, es, i);
          FirstUserIs(str, es, i, FirstUser(str, es, j));
          BothLike(es[FirstUser(str, es, j)], es[j], es[i]);
        }
      }
    }
    if forall j, i | 0 <= j < i < |es| :: AlikeWhereShared(str, es, j, i) {
      forall i | 0 <= i < |es| ensures RunsOwn(str, es, i) {
        var f := FirstUser(str, es, i);
        ReadyIsAlike(es[f]);
        if f < i {
          assert AlikeWhereShared(str, es, f, i);
          LikeIsPassedOn(es[f], es[i]);
        }
      }
    }
  }

  lemma {:induction false} ReadyIsAlike(e: Entry)
    requires e.loaded.Some?
    ensures Alike(Ready(e), Conf(e))
  {
    hide Conf, NeedsBuild;
    LoopsChangeNoKey(Conf(e));
  }

  lemma {:induction false} SameBuildNeeds(a: Config, b: Config)
    requires a.products == b.products
    ensures NeedsBuild(a) == NeedsBuild(b)
  {
    assert forall p, q :: HasDefconfig(a, p, q) == HasDefconfig(b, p, q);
  }

  lemma {:induction false} LikeIsPassedOn(a: Entry, b: Entry)
    requires a.loaded.Some? && b.loaded.Some? && Alike(Conf(a), Conf(b))
    ensures Alike(Ready(a), Conf(b))
  {
    hide Conf, NeedsBuild;
    SameBuildNeeds(Conf(a), Conf(b));
    LoopsChangeNoKey(Conf(a));
  }

  lemma {:induction false} BothLike(f: Entry, a: Entry, b: Entry)
    requires f.loaded.Some? && a.loaded.Some? && b.loaded.Some?
    requires Alike(Ready(f), Conf(a)) && Alike(Ready(f), Conf(b))
    ensures Alike(Conf(a), Conf(b))
  {
    hide Conf, NeedsBuild;
    SameBuildNeeds(Ready(f), Conf(a));
    SameBuildNeeds(Ready(f), Conf(b));
  }

  // ---------- sessions that are run with another one's configuration ----------

  /** A configuration with neither defconfig nor `build_env` nor `kv` has the empty key. */
  lemma {:induction false} EmptyKeyIff(str: Yaml -> string, c: Config)
    ensures BuildKey(str, c) == {} <==> !NeedsBuild(c) && c.buildEnv == map[] && c.kv == map[]
  {
    if p, q :| p in c.products && q in c.products[p] && HasDefconfig(c, p, q) {
      assert (p + "." + q + ".defconfig", c.products[p][q].defconfig) in BuildKey(str, c);
    }
    if k :| k in c.buildEnv {
      assert ("build_env." + k, str(c.buildEnv[k])) in BuildKey(str, c);
    }
    if k :| k in c.kv {
      assert ("kv." + k, str(c.kv[k])) in BuildKey(str, c);
    }
  }

  ghost predicate SameDefconfigs(a: Config, b: Config) {
    forall p, q :: HasDefconfig(a, p, q) == HasDefconfig(b, p, q)
      && (HasDefconfig(a, p, q) ==> a.products[p][q].defconfig == b.products[p][q].defconfig)
  }

  /** The key takes no notice of what else a core has, of settings and of images. */
  lemma {:induction false} KeyIgnoresTheRest(str: Yaml -> string, a: Config, b: Config)
    requires SameDefconfigs(a, b) && a.buildEnv == b.buildEnv && a.kv == b.kv
    ensures BuildKey(str, a) == BuildKey(str, b)
  {
    SamePartsSameKey(str, a, b);
  }

  /** The product sections have names of their own: no dots, and not those of the other two tables. */
  predicate PlainNames(c: Config) {
    forall p | p in c.products :: '.' !in p && p != "kv" && p != "build_env"
  }

  lemma {:induction false} FirstPart(a: string, x: string, b: string, y: string)
    requires '.' !in a && '.' !in b && a + "." + x == b + "." + y
    ensures a == b && x == y
  {
    var text := a + "." + x;
    assert text[|a|] == '.' && text[|b|] == '.';
    assert forall k | 0 <= k < |a| :: text[k] == a[k];
    assert forall k | 0 <= k < |b| :: text[k] == b[k];
    assert text[..|a|] == a && text[..|b|] == b && text[|a| + 1..] == x && text[|b| + 1..] == y;
  }

  lemma DropTail(a: string, b: string, tail: string)
    requires a + tail == b + tail
    ensures a == b
  {
    assert |a| == |b| && (a + tail)[..|a|] == a && (b + tail)[..|b|] == b;
  }

  ghost predicate SameTexts(str: Yaml -> string, a: map<string, Yaml>, b: map<string, Yaml>) {
    a.Keys == b.Keys && forall k | k in a :: str(a[k]) == str(b[k])
  }

  /** Where an entry of a key comes from. */
  lemma {:induction false} KeyEntries(str: Yaml -> string, c: Config, k: string, text: string)
    requires PlainNames(c)
    ensures ("build_env." + k, text) in BuildKey(str, c) <==> k in c.buildEnv && str(c.buildEnv[k]) == text
    ensures ("kv." + k, text) in BuildKey(str, c) <==> k in c.kv && str(c.kv[k]) == text
  {
    forall p, q | HasDefconfig(c, p, q)
      ensures p + "." + q + ".defconfig" != "build_env." + k && p + "." + q + ".defconfig" != "kv." + k
    {
      assert p + "." + q + ".defconfig" == p + "." + (q + ".defconfig");
      if p + "." + q + ".defconfig" == "build_env." + k {
        assert "build_env." + k == "build_env" + "." + k;
        FirstPart(p, q + ".defconfig", "build_env", k);
      }
      if p + "." + q + ".defconfig" == "kv." + k {
        assert "kv." + k == "kv" + "." + k;
        FirstPart(p, q + ".defconfig", "kv", k);
      }
    }
    forall j: string ensures "build_env." + j != "kv." + k && "build_env." + k != "kv." + j {
      assert ("build_env." + j)[0] == 'b' && ("kv." + j)[0] == 'k';
      assert ("build_env." + k)[0] == 'b' && ("kv." + k)[0] == 'k';
    }
    forall j: string | "build_env." + j == "build_env." + k ensures j == k {
      assert ("build_env." + j)[10..] == j && ("build_env." + k)[10..] == k;
    }
    forall j: string | "kv." + j == "kv." + k ensures j == k {
      assert ("kv." + j)[3..] == j && ("kv." + k)[3..] == k;
    }
  }

  lemma {:induction false} CoreEntries(str: Yaml -> string, c: Config, p: string, q: string, text: string)
    requires PlainNames(c) && '.' !in p && p != "kv" && p != "build_env"
    ensures (p + "." + q + ".defconfig", text) in BuildKey(str, c) <==>
      HasDefconfig(c, p, q) && c.products[p][q].defconfig == text
  {
    var name := p + "." + q + ".defconfig";
    assert name == p + "." + (q + ".defconfig");
    forall p', q' | HasDefconfig(c, p', q') && p' + "." + q' + ".defconfig" == name ensures p' == p && q' == q {
      assert name == p' + "." + (q' + ".defconfig");
      FirstPart(p, q + ".defconfig", p', q' + ".defconfig");
      DropTail(q, q', ".defconfig");
    }
    forall k: string ensures "build_env." + k != name && "kv." + k != name {
      assert "build_env." + k == "build_env" + "." + k && "kv." + k == "kv" + "." + k;
      if "build_env." + k == name {
        FirstPart(p, q + ".defconfig", "build_env", k);
      }
      if "kv." + k == name {
        FirstPart(p, q + ".defconfig", "kv", k);
      }
    }
  }

  /** Two configurations share a key iff they build alike: same defconfigs, same texts of `build_env` and `kv`. */
  lemma {:induction false} SameKeyIff(str: Yaml -> string, a: Config, b: Config)
    requires PlainNames(a) && PlainNames(b)
    ensures BuildKey(str, a) == BuildKey(str, b) <==>
      SameDefconfigs(a, b) && SameTexts(str, a.buildEnv, b.buildEnv) && SameTexts(str, a.kv, b.kv)
  {
    if BuildKey(str, a) == BuildKey(str, b) {
      SameKeySameParts(str, a, b);
    } else if SameTexts(str, a.buildEnv, b.buildEnv) && SameTexts(str, a.kv, b.kv) && SameDefconfigs(a, b) {
      SamePartsSameKey(str, a, b);
    }
  }

  lemma {:induction false} SamePartsSameKey(str: Yaml -> string, a: Config, b: Config)
    requires SameDefconfigs(a, b) && SameTexts(str, a.buildEnv, b.buildEnv) && SameTexts(str, a.kv, b.kv)
    ensures BuildKey(str, a) == BuildKey(str, b)
  {
    forall pair: (string, string) ensures pair in BuildKey(str, a) <==> pair in BuildKey(str, b) {
      if p, q :| HasDefconfig(a, p, q) && pair == (p + "." + q + ".defconfig", a.products[p][q].defconfig) {
        assert HasDefconfig(b, p, q);
      }
      if p, q :| HasDefconfig(b, p, q) && pair == (p + "." + q + ".defconfig", b.products[p][q].defconfig) {
        assert HasDefconfig(a, p, q);
      }
    }
  }

  lemma {:induction false} SameKeySameParts(str: Yaml -> string, a: Config, b: Config)
    requires PlainNames(a) && PlainNames(b) && BuildKey(str, a) == BuildKey(str, b)
    ensures SameDefconfigs(a, b) && SameTexts(str, a.buildEnv, b.buildEnv) && SameTexts(str, a.kv, b.kv)
  {
    hide BuildKey;
    forall k ensures k in a.buildEnv ==> k in b.buildEnv && str(a.buildEnv[k]) == str(b.buildEnv[k])
      ensures k in b.buildEnv ==> k in a.buildEnv
    {
      var text := str(if k in a.buildEnv then a.buildEnv[k] else if k in b.buildEnv then b.buildEnv[k] else Null);
      KeyEntries(str, a, k, text);
      KeyEntries(str, b, k, text);
    }
    forall k ensures k in a.kv ==> k in b.kv && str(a.kv[k]) == str(b.kv[k])
      ensures k in b.kv ==> k in a.kv
    {
      var text := str(if k in a.kv then a.kv[k] else if k in b.kv then b.kv[k] else Null);
      KeyEntries(str, a, k, text);
      KeyEntries(str, b, k, text);
    }
    forall p, q | HasDefconfig(a, p, q)
      ensures HasDefconfig(b, p, q) && a.products[p][q].defconfig == b.products[p][q].defconfig
    {
      CoreEntries(str, a, p, q, a.products[p][q].defconfig);
      CoreEntries(str, b, p, q, a.products[p][q].defconfig);
    }
    forall p, q | HasDefconfig(b, p, q) ensures HasDefconfig(a, p, q) {
      CoreEntries(str, a, p, q, b.products[p][q].defconfig);
      CoreEntries(str, b, p, q, b.products[p][q].defconfig);
    }
  }

  /** A session that needs a build is run with the images built for the first session with its key. */
  lemma {:induction false} BuiltImagesAreUsed(str: Yaml -> string, es: seq<Entry>, i: nat) returns (f: nat)
    requires i < |es| && NoTrouble(str, es, |es|)
    requires forall j | 0 <= j < |es| && es[j].loaded.Some? :: PlainNames(Conf(es[j]))
    ensures f <= i && es[f].loaded.Some? && SameKey(str, es[f], es[i]) && !Reuses(str, es, f)
    ensures NeedsBuild(Conf(es[i])) ==> es[f].build.Some? && ConfUsed(str, es, i).images == es[f].build.value
    ensures !NeedsBuild(Conf(es[i])) ==> ConfUsed(str, es, i).images == Conf(es[f]).images
  {
    f := FirstUser(str, es, i);
    LoopsChangeNoKey(Conf(es[f]));
    SameKeyIff(str, Conf(es[f]), Conf(es[i]));
    hide BuildKey, Conf;
    assert TroubleAt(str, es, f) == None;
    assert NeedsBuild(Conf(es[f])) <==> NeedsBuild(Conf(es[i])) by {
      hide FirstUser, Reuses, RunsBuilder;
      assert forall p, q :: HasDefconfig(Conf(es[f]), p, q) == HasDefconfig(Conf(es[i]), p, q);
    }
    hide NeedsBuild;
  }

  /**
   * All sessions on ready-made images, without a build of any kind, are run with the configuration
   * of the first one, images included.
   */
  lemma {:induction false} ReadyMadeShareOne(str: Yaml -> string, es: seq<Entry>, f: nat, i: nat)
    requires f <= i < |es| && es[f].loaded.Some? && es[i].loaded.Some?
    requires BuildKey(str, Conf(es[f])) == {} == BuildKey(str, Conf(es[i]))
    requires forall j | 0 <= j < f :: es[j].loaded.Some? ==> BuildKey(str, Conf(es[j])) != {}
    ensures ConfUsed(str, es, i) == WithLoops(Conf(es[f]))
  {
    EmptyKeyIff(str, Conf(es[f]));
    LoopsChangeNoKey(Conf(es[f]));
    hide BuildKey, Conf;
    FirstUserIs(str, es, i, f);
  }

  /** Two sessions on one file, the second with its own number of loops: it is run with the loops of the first. */
  lemma {:induction false} ReuseLosesLoops(str: Yaml -> string, es: seq<Entry>, file: Config, own: Yaml)
    requires |es| == 2 && es[0].loaded == es[1].loaded == Some(file) && file.settings.loops == None
    requires es[0].session.loops == Null && es[1].session.loops == own && own != Null && own != Int(1)
    ensures Conf(es[1]).settings.loops == Some(own) && ConfUsed(str, es, 1).settings.loops == Some(Int(1))
    ensures !RunsOwn(str, es, 1)
  {
    KeyIgnoresTheRest(str, Conf(es[0]), Conf(es[1]));
    hide BuildKey;
    FirstUserIs(str, es, 1, 0);
    hide NeedsBuild;
  }
}

/** The whole pipeline: build, run, aggregate. */
module MultiRun {
  import opened Options
  import opened Scheduler
  import opened MultiRunner
  import opened BuildPhase

  /** `run` in sequential mode. None when loading a configuration or a session raised. */
  method Run(str: Yaml -> string, es: seq<Entry>, exits: seq<Option<int>>, failFast: bool) returns (code: Option<int>)
    requires UniqueConfigNames(Sessions(es)) && |exits| == |es|
    ensures code == Some(0) <==> NoTrouble(str, es, |es|) && forall i | 0 <= i < |exits| :: exits[i] == Some(0)
    ensures code.None? <==>
      || (exists i: nat :: FirstTrouble(str, es, i, LoadFailed))
      || (NoTrouble(str, es, |es|) && exists k: nat :: RaisesAt(exits, failFast, k))
    ensures code.Some? ==> code.value == 0 || code.value == 1
  {
    var sessions := Sessions(es);
    SequentialRunRaisesIff(sessions, exits, failFast);
    forall k: nat | RaisesAt(exits, failFast, k) ensures exits[k] != Some(0) {
    }
    OneTrouble(str, es);
    hide NoTrouble, FirstTrouble, ConfsHold, RaisesAt;
    var built := PhaseBuild(str, es);
    if built.BuildFailed? { return Some(1); }
    if built.LoadFailed? { return None; }
    var results := RunSequential(sessions, exits, failFast);
    if results.None? { return None; }
    SequentialPassIff(sessions, exits, failFast);
    var c := AggregateExitCode(results.value);
    code := Some(c);
  }

  /** The build phase ends in one way only. */
  lemma OneTrouble(str: Yaml -> string, es: seq<Entry>)
    ensures forall i: nat, r | FirstTrouble(str, es, i, r) :: !NoTrouble(str, es, |es|)
    ensures forall i: nat, j: nat, r, q | FirstTrouble(str, es, i, r) && FirstTrouble(str, es, j, q) :: r == q
  {
    hide TroubleAt;
    forall i: nat, j: nat, r, q | FirstTrouble(str, es, i, r) && FirstTrouble(str, es, j, q) ensures r == q {
      assert !(i < j) && !(j < i);
    }
  }

  /** The main thread is done: it has every result, or one of them raised. */
  ghost predicate MainThreadDone(c: Setup, s: State) {
    |s.pcs| == |c.sessions| && AllDone(s) && (s.aborted || Complete(c, s))
  }

  /**
   * The test phase in parallel mode and its exit code: `raised` says whether taking a result raised,
   * `collected` are the results in the order the main thread took them.
   */
  method TestInParallel(
    sessions: seq<SessionConfig>, raised: bool, collected: seq<SessionResult>,
    ghost c: Setup, ghost ss: seq<State>, ghost steps: seq<Step>, ghost i: nat)
    returns (results: seq<SessionResult>, code: Option<int>)
    requires UniqueConfigNames(sessions) && c.Valid() && c.sessions == Schedulable(sessions)
    requires IsRun(c, ss, steps) && i < |ss| && MainThreadDone(c, ss[i]) && raised == ss[i].aborted
    requires HaveResults(c, ss[i], ss[i].collected) && collected == ResultsOf(c, ss[i], ss[i].collected)
    ensures code.None? <==> exists w | 0 <= w < |sessions| :: EndsWith(steps, i, w, Raised)
    ensures code == Some(0) <==> forall w | 0 <= w < |sessions| :: EndsWith(steps, i, w, Ran(0))
    ensures code.Some? ==> code.value == 0 || code.value == 1
    ensures code.Some? ==>
      multiset(results) == multiset(collected) && CodesMatch(Schedulable(sessions), steps, i, results)
  {
    AbortedIff(c, ss, steps, i);
    if raised {
      ghost var w :| 0 <= w < |c.sessions| && EndsWith(steps, i, w, Raised);
      if EndsWith(steps, i, w, Ran(0)) {
        EndsOnce(c, ss, steps, i, w, Ran(0), Raised);
      }
      return [], None;
    }
    SchedulableNamesAreUnique(sessions);
    ParallelRunInManifestOrder(c, ss, steps, i);
    ParallelPassIff(c, ss, steps, i);
    hide IsRun, Complete, EndsWith, CodesMatch;
    results := SortByManifest(Schedulable(sessions), collected);
    var exit := AggregateExitCode(results);
    code := Some(exit);
  }

  /** `run` in parallel mode. None when loading a configuration or taking a result raised. */
  method RunParallel(
    str: Yaml -> string, es: seq<Entry>, raised: bool, collected: seq<SessionResult>,
    ghost c: Setup, ghost ss: seq<State>, ghost steps: seq<Step>, ghost i: nat)
    returns (results: seq<SessionResult>, code: Option<int>)
    requires UniqueConfigNames(Sessions(es)) && c.Valid() && c.sessions == Schedulable(Sessions(es))
    requires IsRun(c, ss, steps) && i < |ss| && MainThreadDone(c, ss[i]) && raised == ss[i].aborted
    requires HaveResults(c, ss[i], ss[i].collected) && collected == ResultsOf(c, ss[i], ss[i].collected)
    ensures code.None? <==>
      || (exists i: nat :: FirstTrouble(str, es, i, LoadFailed))
      || (NoTrouble(str, es, |es|) && exists w | 0 <= w < |es| :: EndsWith(steps, i, w, Raised))
    ensures code == Some(0) <==>
      NoTrouble(str, es, |es|) && forall w | 0 <= w < |es| :: EndsWith(steps, i, w, Ran(0))
    ensures code.Some? ==> code.value == 0 || code.value == 1
    ensures NoTrouble(str, es, |es|) && code.Some? ==>
      multiset(results) == multiset(collected) && CodesMatch(Schedulable(Sessions(es)), steps, i, results)
    ensures !NoTrouble(str, es, |es|) ==> results == []
  {
    OneTrouble(str, es);
    hide NoTrouble, ConfsHold, FirstTrouble, IsRun, HaveResults, ResultsOf, AllZero, EndsWith, CodesMatch;
    var built := PhaseBuild(str, es);
    if built.BuildFailed? { return [], Some(1); }
    if built.LoadFailed? { return [], None; }
    results, code := TestInParallel(Sessions(es), raised, collected, c, ss, steps, i);
  }
}

/** Overlaying nested configuration mappings, file after file. */
module ConfigMerge {
  import opened Options
  import opened Sorting

  /** A YAML value: a mapping, or anything else. */
  datatype Conf = Leaf(text: string) | Node(m: map<string, Conf>)

  type Path = seq<string>

  const EMPTY := Node(map[])

  /** `d.get(k, {})`. */
  function Sub(a: Conf, k: string): Conf {
    if a.Node? && k in a.m then a.m[k] else EMPTY
  }

  /**
   * The overlay goes through: no mapping with keys is laid over something that is not a mapping.
   * An empty mapping goes over anything and changes nothing.
   */
  predicate Mergeable(a: Conf, b: Conf)
    decreases b
  {
    match b
    case Leaf(_) => true
    case Node(m) => m == map[] || (a.Node? && forall k | k in m :: Mergeable(Sub(a, k), m[k]))
  }

  /** `b` laid over `a`. */
  function Merge(a: Conf, b: Conf): (r: Conf)
    requires Mergeable(a, b)
    decreases b
  {
    match b
    case Leaf(_) => b
    case Node(m) =>
      if m == map[] then a
      else Node(map k | k in a.m.Keys + m.Keys :: if k in m then Merge(Sub(a, k), m[k]) else a.m[k])
  }

  lemma MergedKeys(a: Conf, b: Conf)
    requires a.Node? && b.Node? && Mergeable(a, b)
    ensures var r := Merge(a, b);
      && r.Node? && r.m.Keys == a.m.Keys + b.m.Keys
      && forall k :: Sub(r, k) == if k in b.m then Merge(Sub(a, k), b.m[k]) else Sub(a, k)
  {
  }

  // ---------- every path ----------

  function Get(c: Conf, p: Path): Option<Conf> {
    if p == [] then Some(c)
    else if c.Node? && p[0] in c.m then Get(c.m[p[0]], p[1..])
    else None
  }

  /** Some proper prefix of the path ends at a leaf, so the path is cut off. */
  predicate CutOff(c: Conf, p: Path) {
    p != [] && (c.Leaf? || (p[0] in c.m && CutOff(c.m[p[0]], p[1..])))
  }

  lemma {:induction false} CutOffHasNothing(c: Conf, p: Path)
    requires CutOff(c, p)
    ensures Get(c, p).None?
    decreases |p|
  {
    if c.Node? {
      CutOffHasNothing(c.m[p[0]], p[1..]);
    }
  }

  function GetOrEmpty(c: Conf, p: Path): Conf {
    if Get(c, p).Some? then Get(c, p).value else EMPTY
  }

  /**
   * What stands at any path of the result: where the overlay has a value, that value laid over the
   * base's; where the overlay ends in a leaf above the path, nothing; elsewhere what the base has.
   */
  lemma {:induction false} MergedAt(a: Conf, b: Conf, p: Path)
    requires Mergeable(a, b)
    ensures Get(b, p).Some? ==>
      Mergeable(GetOrEmpty(a, p), Get(b, p).value) &&
      Get(Merge(a, b), p) == Some(Merge(GetOrEmpty(a, p), Get(b, p).value))
    ensures Get(b, p).None? ==> Get(Merge(a, b), p) == if CutOff(b, p) then None else Get(a, p)
    decreases |p|
  {
    if p != [] && b.Node? && b.m != map[] {
      MergedKeys(a, b);
      if p[0] in b.m {
        MergedAt(Sub(a, p[0]), b.m[p[0]], p[1..]);
      }
    }
  }

  /** A scalar of the overlay replaces whatever the base has at that path. */
  lemma OverlayScalarWins(a: Conf, b: Conf, p: Path)
    requires Mergeable(a, b) && Get(b, p).Some? && Get(b, p).value.Leaf?
    ensures Get(Merge(a, b), p) == Get(b, p)
  {
    MergedAt(a, b, p);
  }

  /** The overlay has a mapping with keys where the base has something else. */
  ghost predicate ClashesAt(a: Conf, b: Conf, p: Path) {
    && Get(b, p).Some? && Get(b, p).value.Node? && Get(b, p).value.m != map[]
    && Get(a, p).Some? && Get(a, p).value.Leaf?
  }

  /** An overlay goes through iff it clashes at no path. */
  lemma {:induction false} MergeableIff(a: Conf, b: Conf)
    ensures Mergeable(a, b) <==> forall p :: !ClashesAt(a, b, p)
    decreases b
  {
    if a.Leaf? || b.Leaf? || b.m == map[] {
      if b.Node? && b.m != map[] {
        assert ClashesAt(a, b, []);
      }
      forall p | b.Leaf? || b.m == map[] ensures !ClashesAt(a, b, p) {
        assert p != [] ==> Get(b, p).None?;
      }
    } else {
      forall k | k in b.m ensures Mergeable(Sub(a, k), b.m[k]) <==> forall p :: !ClashesAt(a, b, [k] + p) {
        MergeableIff(Sub(a, k), b.m[k]);
        forall p ensures ClashesAt(Sub(a, k), b.m[k], p) <==> ClashesAt(a, b, [k] + p) {
          ClashBelow(a, b, k, p);
        }
      }
      if forall k | k in b.m :: Mergeable(Sub(a, k), b.m[k]) {
        forall p ensures !ClashesAt(a, b, p) {
          assert p != [] ==> p == [p[0]] + p[1..];
        }
      }
    }
  }

  lemma ClashBelow(a: Conf, b: Conf, k: string, p: Path)
    requires a.Node? && b.Node? && k in b.m
    ensures ClashesAt(Sub(a, k), b.m[k], p) <==> ClashesAt(a, b, [k] + p)
  {
    var q := [k] + p;
    assert q[0] == k && q[1..] == p;
    if k !in a.m {
      assert p != [] ==> Get(EMPTY, p).None?;
    }
  }

  // ---------- identity ----------

  lemma EmptyOverlay(a: Conf)
    ensures Mergeable(a, EMPTY) && Merge(a, EMPTY) == a
  {
  }

  lemma {:induction false} EmptyBase(b: Conf)
    ensures Mergeable(EMPTY, b) && Merge(EMPTY, b) == b
    decreases b
  {
    if b.Node? {
      forall k | k in b.m ensures Mergeable(EMPTY, b.m[k]) && Merge(EMPTY, b.m[k]) == b.m[k] {
        EmptyBase(b.m[k]);
      }
      if b.m != map[] {
        MergedKeys(EMPTY, b);
        assert Merge(EMPTY, b).m == b.m;
      }
    }
  }

  // ---------- associativity ----------

  /** One overlay after the other is defined iff merging the overlays first is, and both agree. */
  lemma {:induction false} MergeAssociative(a: Conf, b: Conf, c: Conf)
    requires Mergeable(a, b)
    ensures Mergeable(Merge(a, b), c) <==> Mergeable(b, c) && Mergeable(a, Merge(b, c))
    ensures Mergeable(Merge(a, b), c) ==> Merge(Merge(a, b), c) == Merge(a, Merge(b, c))
    decreases c
  {
    if c.Leaf? || c.m == map[] || b.Leaf? {
    } else if b.m == map[] {
      EmptyBase(c);
    } else {
      MergedKeys(a, b);
      forall k | k in c.m
        ensures Mergeable(Sub(Merge(a, b), k), c.m[k]) <==>
                Mergeable(Sub(b, k), c.m[k]) && Mergeable(Sub(a, k), Merge(Sub(b, k), c.m[k]))
        ensures Mergeable(Sub(Merge(a, b), k), c.m[k]) ==>
                Merge(Sub(Merge(a, b), k), c.m[k]) == Merge(Sub(a, k), Merge(Sub(b, k), c.m[k]))
      {
        if k in b.m {
          MergeAssociative(Sub(a, k), b.m[k], c.m[k]);
        } else {
          EmptyBase(c.m[k]);
        }
      }
      AssociativeAtNode(a, b, c);
    }
  }

  lemma AssociativeAtNode(a: Conf, b: Conf, c: Conf)
    requires a.Node? && b.Node? && c.Node? && b.m != map[] && c.m != map[] && Mergeable(a, b)
    requires forall k | k in c.m ::
      Mergeable(Sub(Merge(a, b), k), c.m[k]) <==>
      Mergeable(Sub(b, k), c.m[k]) && Mergeable(Sub(a, k), Merge(Sub(b, k), c.m[k]))
    requires forall k | k in c.m && Mergeable(Sub(Merge(a, b), k), c.m[k]) ::
      Merge(Sub(Merge(a, b), k), c.m[k]) == Merge(Sub(a, k), Merge(Sub(b, k), c.m[k]))
    ensures Mergeable(Merge(a, b), c) <==> Mergeable(b, c) && Mergeable(a, Merge(b, c))
    ensures Mergeable(Merge(a, b), c) ==> Merge(Merge(a, b), c) == Merge(a, Merge(b, c))
  {
    MergedKeys(a, b);
    if Mergeable(b, c) {
      MergedKeys(b, c);
      var bc := Merge(b, c);
      forall k | k in bc.m
        ensures Mergeable(Sub(a, k), bc.m[k]) <==> k in c.m ==> Mergeable(Sub(Merge(a, b), k), c.m[k])
      {
        assert bc.m[k] == Sub(bc, k);
      }
      if Mergeable(Merge(a, b), c) {
        SameAtNode(Merge(Merge(a, b), c), Merge(a, bc)) by {
          MergedKeys(Merge(a, b), c);
          MergedKeys(a, bc);
        }
      }
    }
  }

  lemma SameAtNode(l: Conf, r: Conf)
    requires l.Node? && r.Node? && l.m.Keys == r.m.Keys && forall k | k in l.m :: Sub(l, k) == Sub(r, k)
    ensures l == r
  {
    forall k | k in l.m ensures l.m[k] == r.m[k] {
      assert l.m[k] == Sub(l, k) && r.m[k] == Sub(r, k);
    }
    assert l.m == r.m;
  }

  // ---------- folding the files ----------

  /** The files can be merged one after the other, from the first to the last. */
  predicate AllMergeable(files: seq<Conf>)
    decreases |files|, 0
  {
    files == [] || (AllMergeable(files[..|files| - 1]) && Mergeable(MergeAll(files[..|files| - 1]), files[|files| - 1]))
  }

  function MergeAll(files: seq<Conf>): Conf
    requires AllMergeable(files)
    decreases |files|, 1
  {
    if files == [] then EMPTY else Merge(MergeAll(files[..|files| - 1]), files[|files| - 1])
  }

  /** File `i` is the last to say anything about the path, and it puts a scalar there. */
  predicate LastSetter(files: seq<Conf>, i: nat, p: Path, v: Conf) {
    && i < |files| && Get(files[i], p) == Some(v) && v.Leaf?
    && forall j | i < j < |files| :: Silent(files[j], p)
  }

  /** The file has no scalar at the path or above it. */
  predicate Silent(file: Conf, p: Path) {
    !CutOff(file, p) && (Get(file, p).None? || Get(file, p).value.Node?)
  }

  lemma LastSetterInPrefix(files: seq<Conf>, i: nat, p: Path, v: Conf)
    requires files != [] && i < |files| - 1
    ensures LastSetter(files, i, p, v) <==>
      LastSetter(files[..|files| - 1], i, p, v) && Silent(files[|files| - 1], p)
  {
  }

  /**
   * The last file wins at every depth: a scalar ends up at a path iff the last file that says
   * anything put it there.
   */
  lemma {:induction false} LastFileWins(files: seq<Conf>, p: Path, v: Conf)
    requires AllMergeable(files) && v.Leaf?
    ensures Get(MergeAll(files), p) == Some(v) <==> exists i: nat :: LastSetter(files, i, p, v)
  {
    if files != [] {
      var n := |files| - 1;
      var base := MergeAll(files[..n]);
      LastFileWins(files[..n], p, v);
      MergedAt(base, files[n], p);
      if i: nat :| LastSetter(files, i, p, v) {
        if i < n {
          LastSetterInPrefix(files, i, p, v);
        }
      }
      if Get(MergeAll(files), p) == Some(v) {
        if Silent(files[n], p) {
          var i: nat :| LastSetter(files[..n], i, p, v);
          LastSetterInPrefix(files, i, p, v);
        } else {
          if CutOff(files[n], p) {
            CutOffHasNothing(files[n], p);
          }
          assert LastSetter(files, n, p, v);
        }
      }
    }
  }

  /** Folding all files is folding each half and laying the second over the first. */
  lemma {:induction false} MergeAllConcat(first: seq<Conf>, second: seq<Conf>)
    requires AllMergeable(first + second)
    ensures AllMergeable(first) && AllMergeable(second) && Mergeable(MergeAll(first), MergeAll(second))
    ensures MergeAll(first + second) == Merge(MergeAll(first), MergeAll(second))
  {
    var all := first + second;
    if second == [] {
      assert all == first;
    } else {
      var n := |second| - 1;
      assert all[..|all| - 1] == first + second[..n] && all[|all| - 1] == second[n];
      MergeAllConcat(first, second[..n]);
      MergeAssociative(MergeAll(first), MergeAll(second[..n]), second[n]);
    }
  }

  // ---------- updating in place ----------

  /** The keys of a mapping, and of the mappings in it, in the order of the document. */
  datatype Listing = Listing(keys: seq<string>, below: map<string, Listing>)

  function At(l: Listing, k: string): Listing {
    if k in l.below then l.below[k] else Listing([], map[])
  }

  predicate Lists(l: Listing, b: Conf)
    decreases b
  {
    b.Leaf? || (
      && NoDuplicates(l.keys)
      && (forall k | k in b.m :: k in l.keys) && (forall i | 0 <= i < |l.keys| :: l.keys[i] in b.m)
      && forall k | k in b.m :: Lists(At(l, k), b.m[k]))
  }

  /** The first `n` keys in the order of the document go through. */
  predicate GoesThrough(l: Listing, a: Conf, b: Conf, n: nat) {
    && n <= |l.keys| && b.Node?
    && forall i | 0 <= i < n :: l.keys[i] in b.m && Mergeable(Sub(a, l.keys[i]), b.m[l.keys[i]])
  }

  /** `a` after the first `n` keys. */
  function UpTo(l: Listing, a: Conf, b: Conf, n: nat): (r: Conf)
    requires a.Node? && GoesThrough(l, a, b, n)
    ensures r.Node?
  {
    var done := set k | k in l.keys[..n];
    assert forall k | k in done :: k in b.m && Mergeable(Sub(a, k), b.m[k]);
    Node(map k | k in a.m.Keys + done :: if k in done then Merge(Sub(a, k), b.m[k]) else a.m[k])
  }

  /** The position of the first key that clashes. */
  function FirstClash(l: Listing, a: Conf, b: Conf, n: nat): (c: nat)
    requires a.Node? && b.Node? && Lists(l, b) && !Mergeable(a, b) && GoesThrough(l, a, b, n)
    ensures c < |l.keys| && GoesThrough(l, a, b, c) && !Mergeable(Sub(a, l.keys[c]), b.m[l.keys[c]])
    decreases |l.keys| - n
  {
    assert n < |l.keys| by {
      assert exists k | k in b.m :: !Mergeable(Sub(a, k), b.m[k]);
    }
    if Mergeable(Sub(a, l.keys[n]), b.m[l.keys[n]]) then FirstClash(l, a, b, n + 1) else n
  }

  function ClashAt(l: Listing, a: Conf, b: Conf): (c: nat)
    requires a.Node? && b.Node? && Lists(l, b) && !Mergeable(a, b)
    ensures c < |l.keys| && GoesThrough(l, a, b, c) && !Mergeable(Sub(a, l.keys[c]), b.m[l.keys[c]])
    ensures l.keys[c] in a.m && b.m[l.keys[c]].Node? && l.keys[c] !in l.keys[..c]
  {
    var c := FirstClash(l, a, b, 0);
    EmptyBase(b.m[l.keys[c]]);
    c
  }

  /**
   * What a failed overlay leaves: the keys before the first clash merged, the clashing one as its
   * own overlay leaves it.
   */
  function Left(l: Listing, a: Conf, b: Conf): Conf
    requires b.Node? && Lists(l, b) && !Mergeable(a, b)
    decreases b
  {
    if a.Leaf? then a
    else
      var c := ClashAt(l, a, b);
      var k := l.keys[c];
      Node(UpTo(l, a, b, c).m[k := Left(At(l, k), a.m[k], b.m[k])])
  }

  lemma UpToStep(l: Listing, a: Conf, b: Conf, n: nat)
    requires a.Node? && n < |l.keys| && NoDuplicates(l.keys) && GoesThrough(l, a, b, n)
    requires l.keys[n] in b.m && Mergeable(Sub(a, l.keys[n]), b.m[l.keys[n]])
    ensures GoesThrough(l, a, b, n + 1)
    ensures UpTo(l, a, b, n + 1) == Node(UpTo(l, a, b, n).m[l.keys[n] := Merge(Sub(a, l.keys[n]), b.m[l.keys[n]])])
  {
    var k := l.keys[n];
    assert l.keys[..n + 1] == l.keys[..n] + [k] && k !in l.keys[..n];
    hide Merge, Mergeable, NoDuplicates, Sub;
    assert GoesThrough(l, a, b, n + 1);
    hide GoesThrough, UpTo;
    var before, after := UpTo(l, a, b, n), UpTo(l, a, b, n + 1);
    forall q ensures q in after.m <==> q in before.m || q == k
      ensures q in after.m ==> after.m[q] == if q == k then Merge(Sub(a, k), b.m[k]) else before.m[q]
    {
      UpToStepAt(l, a, b, n, q);
    }
    hide *;
    assert after.m == before.m[k := Merge(Sub(a, k), b.m[k])];
  }

  lemma UpToStepAt(l: Listing, a: Conf, b: Conf, n: nat, q: string)
    requires a.Node? && n < |l.keys| && NoDuplicates(l.keys) && GoesThrough(l, a, b, n) && GoesThrough(l, a, b, n + 1)
    ensures var k, before, after := l.keys[n], UpTo(l, a, b, n), UpTo(l, a, b, n + 1);
      && (q in after.m <==> q in before.m || q == k)
      && (q in after.m ==> after.m[q] == if q == k then Merge(Sub(a, k), b.m[k]) else before.m[q])
  {
    assert l.keys[..n + 1] == l.keys[..n] + [l.keys[n]] && l.keys[n] !in l.keys[..n];
    hide *;
    UpToAt(l, a, b, n, q);
    UpToAt(l, a, b, n + 1, q);
  }

  lemma UpToAt(l: Listing, a: Conf, b: Conf, n: nat, q: string)
    requires a.Node? && GoesThrough(l, a, b, n)
    ensures q in UpTo(l, a, b, n).m <==> q in a.m || q in l.keys[..n]
    ensures q in l.keys[..n] ==> q in b.m && Mergeable(Sub(a, q), b.m[q])
    ensures q in UpTo(l, a, b, n).m ==>
      UpTo(l, a, b, n).m[q] == if q in l.keys[..n] then Merge(Sub(a, q), b.m[q]) else a.m[q]
  {
    hide Merge, Mergeable, Sub;
  }

  lemma UpToNothing(l: Listing, a: Conf, b: Conf)
    requires a.Node? && b.Node?
    ensures GoesThrough(l, a, b, 0)
    ensures UpTo(l, a, b, 0) == a
  {
    assert UpTo(l, a, b, 0).m == a.m;
  }

  lemma UpToAll(l: Listing, a: Conf, b: Conf)
    requires a.Node? && b.Node? && Lists(l, b) && GoesThrough(l, a, b, |l.keys|)
    ensures Mergeable(a, b) && UpTo(l, a, b, |l.keys|) == Merge(a, b)
  {
    forall k | k in b.m ensures Mergeable(Sub(a, k), b.m[k]) && k in l.keys[..|l.keys|] {
      var i :| 0 <= i < |l.keys| && l.keys[i] == k;
    }
    assert forall k | k in l.keys[..|l.keys|] :: k in b.m;
    assert Mergeable(a, b);
    hide Mergeable, Lists, GoesThrough;
    UpToIsMerge(l, a, b);
  }

  lemma UpToIsMerge(l: Listing, a: Conf, b: Conf)
    requires a.Node? && b.Node? && GoesThrough(l, a, b, |l.keys|) && Mergeable(a, b)
    requires forall k :: k in l.keys[..|l.keys|] <==> k in b.m
    ensures UpTo(l, a, b, |l.keys|) == Merge(a, b)
  {
    var r, merged := UpTo(l, a, b, |l.keys|), Merge(a, b);
    MergedKeys(a, b);
    hide Merge, Mergeable, GoesThrough;
    forall k ensures (k in r.m <==> k in merged.m) && (k in r.m ==> r.m[k] == merged.m[k]) {
      UpToAt(l, a, b, |l.keys|, k);
      assert Sub(merged, k) == if k in merged.m then merged.m[k] else EMPTY;
      assert Sub(a, k) == if k in a.m then a.m[k] else EMPTY;
    }
    hide Sub, UpTo;
    assert r.m == merged.m;
  }

  lemma ClashIs(l: Listing, a: Conf, b: Conf, c: nat)
    requires a.Node? && b.Node? && Lists(l, b) && GoesThrough(l, a, b, c) && c < |l.keys|
    requires !Mergeable(Sub(a, l.keys[c]), b.m[l.keys[c]])
    ensures !Mergeable(a, b) && ClashAt(l, a, b) == c
  {
    var d := ClashAt(l, a, b);
    hide Lists, Mergeable;
    assert c <= d && d <= c;
  }

  /** `update_nested_dict`; `r` is what `dict1` has become, `listing` the order of the keys of `dict2`. */
  method UpdateNestedDict(dict1: Conf, dict2: Conf, listing: Listing) returns (ok: bool, r: Conf)
    requires dict2.Node? && Lists(listing, dict2)
    ensures ok <==> Mergeable(dict1, dict2)
    ensures r == if ok then Merge(dict1, dict2) else Left(listing, dict1, dict2)
    decreases dict2
  {
    ListedKeys(listing, dict2);
    if dict1.Leaf? {
      // the first key raises, if there is one
      return listing.keys == [], dict1;
    }
    hide Lists, Mergeable, Merge, GoesThrough, UpTo, NoDuplicates, Left, At, Sub, ClashAt;
    r := dict1;
    UpToNothing(listing, dict1, dict2);
    for i := 0 to |listing.keys|
      invariant GoesThrough(listing, dict1, dict2, i) && r == UpTo(listing, dict1, dict2, i)
    {
      var k := listing.keys[i];
      var v := dict2.m[k];
      KeyIsNew(listing, dict1, dict2, i);
      var below := v;
      if v.Node? {
        var done, sub := UpdateNestedDict(Sub(r, k), v, At(listing, k));
        if !done {
          ClashIs(listing, dict1, dict2, i);
          LeftIs(listing, dict1, dict2, i);
          return false, Node(r.m[k := sub]);
        }
        below := sub;
      } else {
        ScalarGoesThrough(Sub(dict1, k), v);
      }
      UpToStep(listing, dict1, dict2, i);
      r := Node(r.m[k := below]);
    }
    UpToAll(listing, dict1, dict2);
    return true, r;
  }

  lemma ListedKeys(l: Listing, b: Conf)
    requires b.Node? && Lists(l, b)
    ensures NoDuplicates(l.keys) && (b.m == map[] <==> l.keys == [])
    ensures forall i | 0 <= i < |l.keys| :: l.keys[i] in b.m && Lists(At(l, l.keys[i]), b.m[l.keys[i]])
  {
    assert l.keys != [] ==> l.keys[0] in b.m;
    if b.m != map[] {
      var k :| k in b.m;
      assert k in l.keys;
    }
  }

  lemma ScalarGoesThrough(a: Conf, v: Conf)
    requires v.Leaf?
    ensures Mergeable(a, v) && Merge(a, v) == v
  {
  }

  lemma LeftIs(l: Listing, a: Conf, b: Conf, c: nat)
    requires a.Node? && b.Node? && Lists(l, b) && !Mergeable(a, b) && c == ClashAt(l, a, b)
    ensures Sub(a, l.keys[c]) == a.m[l.keys[c]]
    ensures var k := l.keys[c]; Left(l, a, b) == Node(UpTo(l, a, b, c).m[k := Left(At(l, k), a.m[k], b.m[k])])
  {
    hide Lists, Mergeable, Merge, UpTo, NoDuplicates;
  }

  lemma KeyIsNew(l: Listing, a: Conf, b: Conf, n: nat)
    requires a.Node? && n < |l.keys| && NoDuplicates(l.keys) && GoesThrough(l, a, b, n)
    ensures Sub(UpTo(l, a, b, n), l.keys[n]) == Sub(a, l.keys[n])
  {
    assert l.keys[n] !in l.keys[..n];
  }

  // ---------- what a failed overlay leaves behind ----------

  /** Key `k` is in the base already and merging it changes nothing. */
  predicate NoEffect(a: Conf, b: Conf, k: string)
    requires a.Node? && b.Node? && k in b.m && Mergeable(Sub(a, k), b.m[k])
  {
    k in a.m && Merge(Sub(a, k), b.m[k]) == a.m[k]
  }

  /**
   * Every key before the first clash has no effect, and the clashing key's own overlay leaves no
   * trace either.
   */
  predicate NoTrace(l: Listing, a: Conf, b: Conf)
    requires b.Node? && Lists(l, b) && !Mergeable(a, b)
    decreases b
  {
    a.Leaf? ||
    var c := ClashAt(l, a, b);
    var k := l.keys[c];
    (forall i | 0 <= i < c :: NoEffect(a, b, l.keys[i])) && NoTrace(At(l, k), a.m[k], b.m[k])
  }

  /** What stands where in the result of a failed overlay. */
  lemma LeftAt(l: Listing, a: Conf, b: Conf, c: nat, q: string)
    requires a.Node? && b.Node? && Lists(l, b) && !Mergeable(a, b) && c == ClashAt(l, a, b)
    ensures Left(l, a, b).Node? && l.keys[c] in a.m
    ensures (q in Left(l, a, b).m <==> q in a.m || q in l.keys[..c])
    ensures q in Left(l, a, b).m ==>
      Left(l, a, b).m[q] == (
        if q == l.keys[c] then Left(At(l, q), a.m[q], b.m[q])
        else if q in l.keys[..c] then Merge(Sub(a, q), b.m[q])
        else a.m[q])
  {
    hide Lists, Merge, Mergeable;
  }

  lemma TakenAt(keys: seq<string>, c: nat, q: string)
    requires c <= |keys|
    ensures q in keys[..c] <==> exists i | 0 <= i < c :: keys[i] == q
  {
    if i :| 0 <= i < c && keys[i] == q {
      assert keys[..c][i] == q;
    }
  }

  /** A failed overlay leaves the base as it was iff it leaves no trace in the order of the document. */
  lemma {:induction false} FailedOverlayUndoneIff(l: Listing, a: Conf, b: Conf)
    requires b.Node? && Lists(l, b) && !Mergeable(a, b)
    ensures Left(l, a, b) == a <==> NoTrace(l, a, b)
    decreases b
  {
    if a.Node? {
      var c := ClashAt(l, a, b);
      var k := l.keys[c];
      FailedOverlayUndoneIff(At(l, k), a.m[k], b.m[k]);
      if Left(l, a, b) == a {
        UndoneHasNoEffect(l, a, b, c);
        LeftAt(l, a, b, c, k);
      }
      if NoTrace(l, a, b) {
        NoEffectIsUndone(l, a, b, c);
      }
      hide Left, Lists, Mergeable, Merge;
    }
  }

  lemma UndoneHasNoEffect(l: Listing, a: Conf, b: Conf, c: nat)
    requires a.Node? && b.Node? && Lists(l, b) && !Mergeable(a, b) && c == ClashAt(l, a, b) && Left(l, a, b) == a
    ensures forall i | 0 <= i < c :: NoEffect(a, b, l.keys[i])
  {
    hide Left, Lists, Mergeable, Merge, ClashAt;
    forall i | 0 <= i < c ensures NoEffect(a, b, l.keys[i]) {
      assert l.keys[..c][i] == l.keys[i];
      LeftAt(l, a, b, c, l.keys[i]);
    }
  }

  lemma NoEffectIsUndone(l: Listing, a: Conf, b: Conf, c: nat)
    requires a.Node? && b.Node? && Lists(l, b) && !Mergeable(a, b) && c == ClashAt(l, a, b)
    requires forall i | 0 <= i < c :: NoEffect(a, b, l.keys[i])
    requires Left(At(l, l.keys[c]), a.m[l.keys[c]], b.m[l.keys[c]]) == a.m[l.keys[c]]
    ensures Left(l, a, b) == a
  {
    var r := Left(l, a, b);
    forall q ensures (q in r.m <==> q in a.m) && (q in a.m ==> r.m[q] == a.m[q]) {
      hide *;
      NoEffectAt(l, a, b, c, q);
    }
    LeftAt(l, a, b, c, l.keys[c]);
    hide *;
    assert r.m == a.m;
  }

  lemma NoEffectAt(l: Listing, a: Conf, b: Conf, c: nat, q: string)
    requires a.Node? && b.Node? && Lists(l, b) && !Mergeable(a, b) && c == ClashAt(l, a, b)
    requires forall i | 0 <= i < c :: NoEffect(a, b, l.keys[i])
    requires Left(At(l, l.keys[c]), a.m[l.keys[c]], b.m[l.keys[c]]) == a.m[l.keys[c]]
    ensures var r := Left(l, a, b); r.Node? && (q in r.m <==> q in a.m) && (q in a.m ==> r.m[q] == a.m[q])
  {
    hide Left, Lists, Mergeable, Merge, ClashAt;
    LeftAt(l, a, b, c, q);
    TakenAt(l.keys, c, q);
    if i :| 0 <= i < c && l.keys[i] == q {
      assert NoEffect(a, b, l.keys[i]);
    }
  }

  lemma {:induction false} AnyListing(b: Conf) returns (l: Listing)
    ensures Lists(l, b)
    decreases b
  {
    l := Listing([], map[]);
    if b.Node? {
      var todo := b.m.Keys;
      while todo != {}
        invariant todo <= b.m.Keys && NoDuplicates(l.keys)
        invariant forall k :: k in l.keys <==> k in b.m && k !in todo
        invariant forall k | k in b.m && k !in todo :: Lists(At(l, k), b.m[k])
      {
        var k :| k in todo;
        var sub := AnyListing(b.m[k]);
        var before := l;
        l := Listing(l.keys + [k], l.below[k := sub]);
        todo := todo - {k};
        assert forall q | q != k :: At(l, q) == At(before, q);
      }
    }
  }

  lemma MoveFirst(keys: seq<string>, i: nat)
    requires i < |keys| && NoDuplicates(keys)
    ensures var moved := [keys[i]] + (keys[..i] + keys[i + 1..]);
      NoDuplicates(moved) && forall q :: q in moved <==> q in keys
  {
    var moved := [keys[i]] + (keys[..i] + keys[i + 1..]);
    assert keys == keys[..i] + [keys[i]] + keys[i + 1..];
    assert multiset(moved) == multiset(keys);
    NoDuplicatesPermuted(keys, moved);
    forall q ensures q in moved <==> q in keys {
      assert q in multiset(moved) <==> q in multiset(keys);
    }
  }

  /** Some listing visits `k` first, with any listing of what is below it. */
  lemma ListingWithFirst(b: Conf, k: string, sub: Listing) returns (l: Listing)
    requires b.Node? && k in b.m && Lists(sub, b.m[k])
    ensures Lists(l, b) && l.keys != [] && l.keys[0] == k && At(l, k) == sub
  {
    var any := AnyListing(b);
    SameKeys(any, b);
    assert forall q | q in b.m :: Lists(At(any, q), b.m[q]);
    hide Lists;
    var i :| 0 <= i < |any.keys| && any.keys[i] == k;
    MoveFirst(any.keys, i);
    l := Listing([k] + (any.keys[..i] + any.keys[i + 1..]), any.below[k := sub]);
    forall q | q in b.m ensures Lists(At(l, q), b.m[q]) {
      assert q != k ==> At(l, q) == At(any, q);
    }
    hide NoDuplicates, At;
    ListsWith(l, b);
  }

  lemma SameKeys(l: Listing, b: Conf)
    requires b.Node? && Lists(l, b)
    ensures NoDuplicates(l.keys) && forall k :: k in l.keys <==> k in b.m
  {
    hide NoDuplicates;
  }

  lemma ListsWith(l: Listing, b: Conf)
    requires b.Node? && NoDuplicates(l.keys) && (forall k :: k in l.keys <==> k in b.m)
    requires forall k | k in b.m :: Lists(At(l, k), b.m[k])
    ensures Lists(l, b)
  {
    hide NoDuplicates;
  }

  /** No key leaves a trace, wherever it stands. */
  predicate Traceless(a: Conf, b: Conf)
    decreases b
  {
    a.Leaf? || b.Leaf? || forall k | k in b.m ::
      if Mergeable(Sub(a, k), b.m[k]) then NoEffect(a, b, k) else Traceless(Sub(a, k), b.m[k])
  }

  /** A failed overlay is undone in every order of the keys iff no key by itself leaves a trace. */
  lemma {:induction false} UndoneInEveryOrderIff(a: Conf, b: Conf)
    requires b.Node? && !Mergeable(a, b)
    ensures (forall l | Lists(l, b) :: Left(l, a, b) == a) <==> Traceless(a, b)
    decreases b
  {
    if Traceless(a, b) {
      forall l | Lists(l, b) ensures Left(l, a, b) == a {
        TracelessLeavesNoTrace(l, a, b);
        FailedOverlayUndoneIff(l, a, b);
      }
    } else {
      var k :| k in b.m && !(if Mergeable(Sub(a, k), b.m[k]) then NoEffect(a, b, k) else Traceless(Sub(a, k), b.m[k]));
      var sub := AnyListing(b.m[k]);
      if !Mergeable(Sub(a, k), b.m[k]) {
        UndoneInEveryOrderIff(Sub(a, k), b.m[k]);
        sub :| Lists(sub, b.m[k]) && Left(sub, Sub(a, k), b.m[k]) != Sub(a, k);
      }
      var l := ListingWithFirst(b, k, sub);
      FirstLeavesTrace(l, a, b);
    }
  }

  lemma {:induction false} TracelessLeavesNoTrace(l: Listing, a: Conf, b: Conf)
    requires b.Node? && Lists(l, b) && !Mergeable(a, b) && Traceless(a, b)
    ensures NoTrace(l, a, b)
    decreases b
  {
    if a.Node? {
      var c := ClashAt(l, a, b);
      TracelessLeavesNoTrace(At(l, l.keys[c]), a.m[l.keys[c]], b.m[l.keys[c]]);
    }
  }

  lemma FirstLeavesTrace(l: Listing, a: Conf, b: Conf)
    requires a.Node? && b.Node? && Lists(l, b) && !Mergeable(a, b) && l.keys != []
    requires var k := l.keys[0];
      if Mergeable(Sub(a, k), b.m[k]) then !NoEffect(a, b, k) else Left(At(l, k), Sub(a, k), b.m[k]) != Sub(a, k)
    ensures Left(l, a, b) != a
  {
    var k, c := l.keys[0], ClashAt(l, a, b);
    if !Mergeable(Sub(a, k), b.m[k]) {
      ClashIs(l, a, b, 0);
    } else {
      FailedOverlayUndoneIff(l, a, b);
      assert c > 0;
    }
  }

  /** One overlay, two orders: with the clash last something is left behind, with the clash first nothing. */
  lemma FailedOverlayLeavesTraces()
    ensures var base := Node(map["x" := Leaf("1"), "k" := Leaf("0")]);
      var overlay := Node(map["x" := Leaf("2"), "k" := Node(map["j" := Leaf("3")])]);
      var below := map["k" := Listing(["j"], map[])];
      var late, early := Listing(["x", "k"], below), Listing(["k", "x"], below);
      && !Mergeable(base, overlay) && Lists(late, overlay) && Lists(early, overlay)
      && Left(late, base, overlay) != base && Left(early, base, overlay) == base
  {
    var base := Node(map["x" := Leaf("1"), "k" := Leaf("0")]);
    var overlay := Node(map["x" := Leaf("2"), "k" := Node(map["j" := Leaf("3")])]);
    var below := map["k" := Listing(["j"], map[])];
    var late, early := Listing(["x", "k"], below), Listing(["k", "x"], below);
    TracesWitness(base, overlay, late, early);
    hide *;
    FirstClashOnScalar(early, base, overlay);
    FirstLeavesTrace(late, base, overlay);
  }

  lemma FirstClashOnScalar(l: Listing, a: Conf, b: Conf)
    requires a.Node? && b.Node? && Lists(l, b) && l.keys != []
    requires var k := l.keys[0]; k in a.m && a.m[k].Leaf? && !Mergeable(a.m[k], b.m[k])
    ensures !Mergeable(a, b) && Left(l, a, b) == a
  {
    ClashIs(l, a, b, 0);
    FailedOverlayUndoneIff(l, a, b);
    hide Left, Lists, Mergeable, ClashAt;
  }

  lemma TracesWitness(base: Conf, overlay: Conf, late: Listing, early: Listing)
    requires base == Node(map["x" := Leaf("1"), "k" := Leaf("0")])
    requires overlay == Node(map["x" := Leaf("2"), "k" := Node(map["j" := Leaf("3")])])
    requires late == Listing(["x", "k"], map["k" := Listing(["j"], map[])])
    requires early == Listing(["k", "x"], map["k" := Listing(["j"], map[])])
    ensures !Mergeable(base, overlay) && Lists(late, overlay) && Lists(early, overlay)
    ensures !Mergeable(base.m["k"], overlay.m["k"]) && Mergeable(Sub(base, "x"), overlay.m["x"])
    ensures !NoEffect(base, overlay, "x")
  {
    assert "x" != "k";
    assert late.keys[0] == "x" && late.keys[1] == "k" && early.keys[0] == "k" && early.keys[1] == "x";
    var clash := overlay.m["k"];
    assert Lists(At(late, "k"), clash) by { assert ["j"][0] == "j"; }
    assert !Mergeable(Sub(base, "k"), clash) && !Mergeable(base, overlay) by { assert "j" in clash.m; }
    assert !NoEffect(base, overlay, "x");
    hide Mergeable, Merge, NoEffect, Lists, Sub;
    ListsWith(late, overlay);
    ListsWith(early, overlay);
  }

  // ---------- the directory loader ----------

  /** A file as the YAML parser leaves it; what is not a mapping, also an empty file, is a leaf. */
  datatype File = Parsed(conf: Conf, listing: Listing) | Unreadable

  predicate IsListed(f: File) {
    f.Parsed? ==> Lists(f.listing, f.conf)
  }

  type YamlFile = f: File | IsListed(f) witness Unreadable

  function LoadStep(before: Conf, f: YamlFile): (r: Conf)
    ensures before.Node? ==> r.Node?
  {
    if f.Parsed? && f.conf.Node? then
      if Mergeable(before, f.conf) then Merge(before, f.conf) else Left(f.listing, before, f.conf)
    else before
  }

  /** What the loop over the files ends with. */
  function LoadAll(files: seq<YamlFile>): (r: Conf)
    ensures r.Node?
  {
    if files == [] then EMPTY else LoadStep(LoadAll(files[..|files| - 1]), files[|files| - 1])
  }

  /** A file that fails is half loaded: the scalars before the key that clashes are there. */
  lemma FailedFileIsHalfLoaded(files: seq<YamlFile>, f: YamlFile, i: nat)
    requires f.Parsed? && f.conf.Node? && !Mergeable(LoadAll(files), f.conf)
    requires i < ClashAt(f.listing, LoadAll(files), f.conf) && f.conf.m[f.listing.keys[i]].Leaf?
    ensures Get(LoadAll(files + [f]), [f.listing.keys[i]]) == Some(f.conf.m[f.listing.keys[i]])
  {
    var base, k := LoadAll(files), f.listing.keys[i];
    var c := ClashAt(f.listing, base, f.conf);
    assert (files + [f])[..|files|] == files;
    assert f.listing.keys[..c][i] == k;
    hide Lists, Mergeable, Left, ClashAt, Merge;
    LeftAt(f.listing, base, f.conf, c, k);
    ScalarGoesThrough(Sub(base, k), f.conf.m[k]);
    assert [k][1..] == [];
  }

  function Mappings(files: seq<YamlFile>): seq<Conf> {
    if files == [] then []
    else
      var f := files[|files| - 1];
      Mappings(files[..|files| - 1]) + if f.Parsed? && f.conf.Node? then [f.conf] else []
  }

  /** `_load_yaml_from_directory`; None stands for its IOError. */
  method LoadYamlFromDirectory(files: seq<YamlFile>) returns (r: Option<Conf>)
    ensures r == if LoadAll(files) == EMPTY then None else Some(LoadAll(files))
  {
    var conf := EMPTY;
    for i := 0 to |files|
      invariant conf == LoadAll(files[..i])
    {
      assert files[..i + 1][..i] == files[..i];
      var f := files[i];
      if f.Parsed? && f.conf.Node? {
        var ok;
        ok, conf := UpdateNestedDict(conf, f.conf, f.listing);
      }
    }
    assert files[..|files|] == files;
    r := if conf == EMPTY then None else Some(conf);
  }

  /** When no file clashes with the ones before it, loading is folding the files that are mappings. */
  lemma {:induction false} LoadingIsFolding(files: seq<YamlFile>)
    requires AllMergeable(Mappings(files))
    ensures LoadAll(files) == MergeAll(Mappings(files))
  {
    if files != [] {
      var n := |files| - 1;
      var before, all, f := Mappings(files[..n]), Mappings(files), files[n];
      if f.Parsed? && f.conf.Node? {
        assert all[..|all| - 1] == before && all[|all| - 1] == f.conf;
      } else {
        assert all == before;
      }
      LoadingIsFolding(files[..n]);
    }
  }

  /** `_apply_json_args`; `args` is None when the JSON file has none. */
  method ApplyJsonArgs(conf: Conf, args: Option<Conf>, listing: Listing) returns (ok: bool, r: Conf)
    requires conf.Node? && (args.Some? ==> Lists(listing, args.value))
    ensures args.Some? && args.value.Leaf? ==> ok && r == conf
    ensures args.None? || args.value.Node? ==>
      var overlay := Node(map["config" := if args.None? then EMPTY else args.value]);
      (ok <==> Mergeable(conf, overlay)) && (ok ==> r == Merge(conf, overlay))
    ensures !ok ==>
      && args.Some? && args.value.Node? && !Mergeable(Sub(conf, "config"), args.value)
      && r == Node(conf.m["config" := Left(listing, Sub(conf, "config"), args.value)])
  {
    var jsonArgs := if args.None? then EMPTY else args.value;
    if jsonArgs.Leaf? {
      return true, conf;
    }
    ghost var overlay := Node(map["config" := jsonArgs]);
    assert "config" in overlay.m;
    EmptyOverlay(Sub(conf, "config"));
    var config;
    ok, config := UpdateNestedDict(Sub(conf, "config"), jsonArgs, if args.None? then Listing([], map[]) else listing);
    r := Node(conf.m["config" := config]);
    if ok {
      MergedKeys(conf, overlay);
      assert r.m == Merge(conf, overlay).m;
    }
  }
}

/**
 * Rebuilding a flat catalog and flattening it again. `unflattenObject`
 * groups the entries of a flat object by their first segments, so the
 * flattened result is in general ordered differently from the input; what
 * comes back is the same key-to-value lookup. That holds when every key
 * splits on `.` into non-empty segments and no key's path is a prefix of
 * another's (no two equal keys, and no `a` beside `a.b`).
 */
module FlatRoundTrip {
  import opened Wrappers
  import opened Text
  import opened JsObject
  import opened LocaleJson
  import opened TranslationManager
  import opened CatalogRoundTrip

  /** `r` is `p` or a path leading to it. */
  predicate PrefixOf(r: Path, p: Path) {
    |r| <= |p| && p[..|r|] == r
  }

  // ---------------------------------------------------------------------------
  // What one `SetPath` does to the nodes of a tree
  // ---------------------------------------------------------------------------

  /** An entry of an assignment is an old entry or the assigned one. */
  lemma {:induction false} PutEntry<V>(d: Dict<V>, k: string, v: V, i: nat)
    requires i < |Put(d, k, v)|
    ensures Put(d, k, v)[i] in d || Put(d, k, v)[i] == (k, v)
  {
    if |d| > 0 && d[0].0 != k && i > 0 {
      PutEntry(d[1..], k, v, i - 1);
    }
  }

  /** A value read from an object is one of its entries. */
  lemma {:induction false} GetEntry<V>(d: Dict<V>, k: string)
    requires Get(d, k).Some?
    ensures (k, Get(d, k).value) in d
  {
    if d[0].0 != k {
      GetEntry(d[1..], k);
    }
  }

  /** What storing `v` at `q` does to the node at `r`. */
  predicate StoredAt(t: Json, q: Path, v: Scalar, r: Path)
    requires |q| >= 1
  {
    (r == q ==> Lookup(SetPath(t, q, v), r) == Some(Leaf(v))) &&
    (PrefixOf(r, q) && r != q ==> Lookup(SetPath(t, q, v), r).Some? && Lookup(SetPath(t, q, v), r).value.Obj?) &&
    (!PrefixOf(r, q) ==> Lookup(SetPath(t, q, v), r) == Lookup(t, r))
  }

  /** Storing at a one-key path. */
  lemma StoredAtKey(t: Json, q: Path, v: Scalar, r: Path)
    requires t.Obj? && |q| == 1 && Lookup(t, q).None?
    ensures StoredAt(t, q, v, r)
  {
    var k := q[0];
    assert SetPath(t, q, v) == Obj(Put(t.fields, k, Leaf(v)));
    if |r| > 0 {
      GetPut(t.fields, k, Leaf(v), r[0]);
      if r[0] == k && |r| > 1 {
        assert !PrefixOf(r, q);
      }
    }
  }

  /** Prefixes through a common first key. */
  lemma PrefixCons(k: string, r: Path, q: Path)
    ensures PrefixOf([k] + r, [k] + q) <==> PrefixOf(r, q)
    ensures [k] + r == [k] + q <==> r == q
  {
    ConsInjective(k, r, q);
    if |r| <= |q| {
      assert ([k] + q)[..|r| + 1] == [k] + q[..|r|];
      ConsInjective(k, r, q[..|r|]);
    }
  }

  /** Putting the same key in front keeps paths apart. */
  lemma ConsInjective(k: string, r: Path, q: Path)
    ensures [k] + r == [k] + q <==> r == q
  {
    if [k] + r == [k] + q {
      assert r == ([k] + r)[1..] && q == ([k] + q)[1..];
    }
  }

  /** The child below the first key of a fresh path that runs through objects meets the same conditions. */
  lemma FreshBelow(t: Json, q: Path)
    requires t.Obj? && |q| >= 2
    requires Lookup(t, q).None?
    requires forall j :: 0 < j < |q| ==> Lookup(t, q[..j]).None? || Lookup(t, q[..j]).value.Obj?
    ensures OrEmpty(Get(t.fields, q[0])).Obj?
    ensures Lookup(OrEmpty(Get(t.fields, q[0])), q[1..]).None?
    ensures forall j :: 0 < j < |q| - 1 ==>
              Lookup(OrEmpty(Get(t.fields, q[0])), q[1..][..j]).None? ||
              Lookup(OrEmpty(Get(t.fields, q[0])), q[1..][..j]).value.Obj?
  {
    var k := q[0];
    var x := Get(t.fields, k);
    var c := OrEmpty(x);
    var q' := q[1..];
    assert q[..1] == [k];
    assert Lookup(t, [k]) == if x.None? then None else Some(x.value);
    if x.Some? {
      assert Lookup(t, q) == Lookup(c, q');
    }
    forall j | 0 < j < |q'| ensures Lookup(c, q'[..j]).None? || Lookup(c, q'[..j]).value.Obj? {
      assert q[..j + 1][0] == k && q[..j + 1][1..] == q'[..j];
      if x.Some? {
        assert Lookup(t, q[..j + 1]) == Lookup(c, q'[..j]);
      }
    }
  }

  /** Storing below the first key of `q` leaves the other keys' nodes alone. */
  lemma StoredOffKey(t: Json, q: Path, v: Scalar, r: Path)
    requires t.Obj? && |q| >= 2 && |r| >= 1 && r[0] != q[0]
    ensures StoredAt(t, q, v, r)
  {
    var child := SetPath(OrEmpty(Get(t.fields, q[0])), q[1..], v);
    assert SetPath(t, q, v) == Obj(Put(t.fields, q[0], child));
    GetPut(t.fields, q[0], child, r[0]);
    assert !PrefixOf(r, q);
  }

  /** `SetPath` one level down. */
  lemma SetPathCons(t: Json, q: Path, v: Scalar)
    requires t.Obj? && |q| >= 2
    ensures SetPath(t, q, v) == Obj(Put(t.fields, q[0], SetPath(OrEmpty(Get(t.fields, q[0])), q[1..], v)))
  {
  }

  /** Looking up through a key just stored. */
  lemma LookupPut(fs: Dict<Json>, k: string, x: Json, r: Path)
    ensures Lookup(Obj(Put(fs, k, x)), [k] + r) == Lookup(x, r)
  {
    GetPut(fs, k, x, k);
    assert ([k] + r)[0] == k && ([k] + r)[1..] == r;
  }

  /** A lookup at least two keys deep, one level down (a missing key reads as `{}`). */
  lemma LookupCons(t: Json, r: Path)
    requires t.Obj? && |r| >= 2
    ensures Lookup(t, r) == Lookup(OrEmpty(Get(t.fields, r[0])), r[1..])
  {
  }

  /** Through the first key of `q`, paths, prefixes and lookups are those one level down. */
  lemma ThroughKey(t: Json, q: Path, v: Scalar, r: Path)
    requires t.Obj? && |q| >= 2 && |r| >= 1 && r[0] == q[0]
    ensures Lookup(SetPath(t, q, v), r) == Lookup(SetPath(OrEmpty(Get(t.fields, q[0])), q[1..], v), r[1..])
    ensures r == q <==> r[1..] == q[1..]
    ensures PrefixOf(r, q) <==> PrefixOf(r[1..], q[1..])
    ensures !PrefixOf(r, q) ==> Lookup(t, r) == Lookup(OrEmpty(Get(t.fields, q[0])), r[1..])
  {
    var k := q[0];
    SetPathCons(t, q, v);
    assert r == [k] + r[1..] && q == [k] + q[1..];
    LookupPut(t.fields, k, SetPath(OrEmpty(Get(t.fields, k)), q[1..], v), r[1..]);
    PrefixCons(k, r[1..], q[1..]);
    if !PrefixOf(r, q) {
      LookupCons(t, r);
    }
  }

  /**
   * Storing a leaf at a fresh path `q` that runs only through objects puts the
   * leaf at `q`, objects at the paths leading to it, and leaves every node off
   * that route as it was.
   */
  lemma {:induction false} SetPathLookup(t: Json, q: Path, v: Scalar, r: Path)
    requires t.Obj? && |q| >= 1
    requires Lookup(t, q).None?
    requires forall j :: 0 < j < |q| ==> Lookup(t, q[..j]).None? || Lookup(t, q[..j]).value.Obj?
    ensures r == q ==> Lookup(SetPath(t, q, v), r) == Some(Leaf(v))
    ensures PrefixOf(r, q) && r != q ==> Lookup(SetPath(t, q, v), r).Some? && Lookup(SetPath(t, q, v), r).value.Obj?
    ensures !PrefixOf(r, q) ==> Lookup(SetPath(t, q, v), r) == Lookup(t, r)
    decreases |q|
  {
    if |q| == 1 {
      StoredAtKey(t, q, v, r);
    } else if |r| == 0 {
      assert SetPath(t, q, v).Obj?;
    } else if r[0] == q[0] {
      FreshBelow(t, q);
      SetPathLookup(OrEmpty(Get(t.fields, q[0])), q[1..], v, r[1..]);
      ThroughKey(t, q, v, r);
    } else {
      StoredOffKey(t, q, v, r);
    }
  }

  /** Storing along a path of plain keys keeps every object's keys distinct and plain. */
  lemma {:induction false} SetPathKeysOk(t: Json, q: Path, v: Scalar)
    requires |q| >= 1 && KeysOk(t) && PlainPath(q)
    ensures KeysOk(SetPath(t, q, v))
    decreases |q|
  {
    match t
    case Leaf(_) =>
    case Obj(fs) =>
      var k := q[0];
      var child: Json;
      if |q| == 1 {
        child := Leaf(v);
      } else {
        var c := OrEmpty(Get(fs, k));
        if Get(fs, k).Some? && JsonTruthy(Get(fs, k).value) {
          GetEntry(fs, k);
          var i :| 0 <= i < |fs| && fs[i] == (k, Get(fs, k).value);
          assert KeysOk(fs[i].1);
        }
        assert KeysOk(c);
        assert PlainPath(q[1..]) by {
          forall j | 0 <= j < |q[1..]| ensures PlainKey(q[1..][j]) {
            assert q[1..][j] == q[j + 1];
          }
        }
        SetPathKeysOk(c, q[1..], v);
        child := SetPath(c, q[1..], v);
      }
      assert SetPath(t, q, v) == Obj(Put(fs, k, child));
      var fs' := Put(fs, k, child);
      PutDistinct(fs, k, child);
      forall i | 0 <= i < |fs'| ensures PlainKey(fs'[i].0) && KeysOk(fs'[i].1) {
        PutEntry(fs, k, child, i);
        if fs'[i] in fs {
          var j :| 0 <= j < |fs| && fs[j] == fs'[i];
        }
      }
  }

  // ---------------------------------------------------------------------------
  // The tree `unflattenObject` builds
  // ---------------------------------------------------------------------------

  /** The paths the keys of `m` split into. */
  function Paths(m: Dict<Scalar>): (ps: seq<Path>)
    ensures |ps| == |m|
    ensures forall i :: 0 <= i < |m| ==> ps[i] == Split(m[i].0, '.')
  {
    seq(|m|, i requires 0 <= i < |m| => Split(m[i].0, '.'))
  }

  function Values(m: Dict<Scalar>): (vs: seq<Scalar>)
    ensures |vs| == |m|
    ensures forall i :: 0 <= i < |m| ==> vs[i] == m[i].1
  {
    seq(|m|, i requires 0 <= i < |m| => m[i].1)
  }

  /** No path is a prefix of another one (so no two are equal). */
  predicate NoPrefix(ps: seq<Path>) {
    forall i, j :: 0 <= i < |ps| && 0 <= j < |ps| && i != j ==> !PrefixOf(ps[i], ps[j])
  }

  /**
   * A flat catalog `unflattenObject` rebuilds without loss: every key splits
   * into non-empty segments, and no key's path leads to another key's.
   */
  predicate FlatOk(m: Dict<Scalar>) {
    (forall i :: 0 <= i < |m| ==> PlainPath(Split(m[i].0, '.'))) && NoPrefix(Paths(m))
  }

  /** Every node of `t` lies on the way to one of the paths `ps`. */
  ghost predicate Covered(t: Json, ps: seq<Path>) {
    forall r :: Lookup(t, r).Some? ==> |r| == 0 || exists i :: 0 <= i < |ps| && PrefixOf(r, ps[i])
  }

  /** `t` holds `vs[i]` at `ps[i]`. */
  predicate Holds(t: Json, ps: seq<Path>, vs: seq<Scalar>)
    requires |ps| == |vs|
  {
    forall i :: 0 <= i < |ps| ==> Lookup(t, ps[i]) == Some(Leaf(vs[i]))
  }

  /** Every leaf of `t` sits at one of the paths `ps`. */
  ghost predicate LeavesIn(t: Json, ps: seq<Path>) {
    forall r :: Lookup(t, r).Some? && Lookup(t, r).value.Leaf? ==> r in ps
  }

  /**
   * `t` holds exactly the leaves `vs` at the paths `ps`: an object with plain,
   * distinct keys whose nodes all lie on the way to some path, holding
   * `vs[i]` at `ps[i]` and no other leaf.
   */
  ghost predicate TreeOf(t: Json, ps: seq<Path>, vs: seq<Scalar>)
    requires |ps| == |vs|
  {
    t.Obj? && KeysOk(t) && Covered(t, ps) && Holds(t, ps, vs) && LeavesIn(t, ps)
  }

  /** A path appended to a list without prefixes is no prefix of an earlier one, nor has one. */
  lemma NoPrefixLast(ps: seq<Path>, q: Path)
    requires NoPrefix(ps + [q])
    ensures forall i :: 0 <= i < |ps| ==> !PrefixOf(q, ps[i]) && !PrefixOf(ps[i], q)
  {
    var all := ps + [q];
    forall i | 0 <= i < |ps| ensures !PrefixOf(q, ps[i]) && !PrefixOf(ps[i], q) {
      assert all[i] == ps[i] && all[|ps|] == q;
    }
  }

  /** The next path is not in the tree yet. */
  lemma NextPathFree(t: Json, ps: seq<Path>, q: Path)
    requires Covered(t, ps) && |q| >= 1
    requires forall i :: 0 <= i < |ps| ==> !PrefixOf(q, ps[i])
    ensures Lookup(t, q).None?
  {
  }

  /** No leaf lies on the way to the next path. */
  lemma NextPathOpen(t: Json, ps: seq<Path>, q: Path, j: nat)
    requires LeavesIn(t, ps) && j < |q|
    requires forall i :: 0 <= i < |ps| ==> !PrefixOf(ps[i], q)
    ensures Lookup(t, q[..j]).None? || Lookup(t, q[..j]).value.Obj?
  {
    assert PrefixOf(q[..j], q);
  }

  /** Storing the next entry extends the tree by that leaf. */
  lemma TreeStep(t: Json, ps: seq<Path>, vs: seq<Scalar>, q: Path, v: Scalar)
    requires |ps| == |vs| && TreeOf(t, ps, vs) && PlainPath(q)
    requires NoPrefix(ps + [q])
    ensures TreeOf(SetPath(t, q, v), ps + [q], vs + [v])
  {
    NoPrefixLast(ps, q);
    NextPathFree(t, ps, q);
    forall j | 0 < j < |q| ensures Lookup(t, q[..j]).None? || Lookup(t, q[..j]).value.Obj? {
      NextPathOpen(t, ps, q, j);
    }
    var t' := SetPath(t, q, v);
    var all := ps + [q];
    var vals := vs + [v];
    SetPathKeysOk(t, q, v);
    assert all[|ps|] == q;
    forall r | Lookup(t', r).Some? ensures |r| == 0 || exists i :: 0 <= i < |all| && PrefixOf(r, all[i]) {
      SetPathLookup(t, q, v, r);
      if !PrefixOf(r, q) && |r| > 0 {
        var i :| 0 <= i < |ps| && PrefixOf(r, ps[i]);
        assert all[i] == ps[i];
      }
    }
    forall i | 0 <= i < |all| ensures Lookup(t', all[i]) == Some(Leaf(vals[i])) {
      SetPathLookup(t, q, v, all[i]);
      if i < |ps| {
        assert all[i] == ps[i] && vals[i] == vs[i];
        assert !PrefixOf(all[i], all[|ps|]);
      }
    }
    forall r | Lookup(t', r).Some? && Lookup(t', r).value.Leaf? ensures r in all {
      SetPathLookup(t, q, v, r);
    }
  }

  /** All but the last entry of a rebuildable catalog are rebuildable, and the last path can follow them. */
  lemma FlatOkInit(m: Dict<Scalar>)
    requires FlatOk(m) && |m| > 0
    ensures FlatOk(m[..|m| - 1])
    ensures Paths(m) == Paths(m[..|m| - 1]) + [Split(m[|m| - 1].0, '.')]
    ensures Values(m) == Values(m[..|m| - 1]) + [m[|m| - 1].1]
    ensures PlainPath(Split(m[|m| - 1].0, '.'))
  {
    var n := |m| - 1;
    var m' := m[..n];
    assert Paths(m) == Paths(m') + [Split(m[n].0, '.')];
    assert Values(m) == Values(m') + [m[n].1];
    forall i, j | 0 <= i < n && 0 <= j < n && i != j ensures !PrefixOf(Paths(m')[i], Paths(m')[j]) {
      assert Paths(m')[i] == Paths(m)[i] && Paths(m')[j] == Paths(m)[j];
    }
  }

  /** `unflattenObject(m)` holds exactly the values of `m` at the paths of its keys. */
  lemma {:induction false} UnflattenTree(m: Dict<Scalar>)
    requires FlatOk(m)
    ensures TreeOf(Unflatten(m), Paths(m), Values(m))
    decreases |m|
  {
    if |m| == 0 {
      forall r | Lookup(Obj([]), r).Some? ensures |r| == 0 {
      }
    } else {
      var n := |m| - 1;
      var m' := m[..n];
      FlatOkInit(m);
      UnflattenTree(m');
      TreeStep(Unflatten(m'), Paths(m'), Values(m'), Split(m[n].0, '.'), m[n].1);
    }
  }

  // ---------------------------------------------------------------------------
  // Flattening the rebuilt tree
  // ---------------------------------------------------------------------------

  /** A leaf prefixed by `k` is a leaf of the listing below `k`, one level up. */
  lemma PrefixAllIn(k: string, ps: seq<(Path, Scalar)>, p: Path, v: Scalar)
    ensures (p, v) in PrefixAll(k, ps) <==> |p| >= 1 && p[0] == k && (p[1..], v) in ps
  {
    var r := PrefixAll(k, ps);
    if (p, v) in r {
      var i :| 0 <= i < |r| && r[i] == (p, v);
      assert p[1..] == ps[i].0;
    }
    if |p| >= 1 && p[0] == k && (p[1..], v) in ps {
      var i :| 0 <= i < |ps| && ps[i] == (p[1..], v);
      assert p == [k] + p[1..];
    }
  }

  lemma KeysPrefixStep<V>(d: Dict<V>, n: nat, x: string)
    requires 0 < n <= |d|
    ensures x in Keys(d)[..n] <==> x in Keys(d)[..n - 1] || x == d[n - 1].0
  {
    var ks := Keys(d);
    assert ks[..n] == ks[..n - 1] + [ks[n - 1]];
  }

  /** In an object with distinct keys, a path through the field `(k, c)` continues in `c`. */
  lemma LookupField(o: Json, i: nat, p: Path)
    requires o.Obj? && i < |o.fields| && DistinctKeys(o.fields) && |p| >= 1 && p[0] == o.fields[i].0
    ensures Lookup(o, p) == Lookup(o.fields[i].1, p[1..])
  {
    GetIn(o.fields, i);
  }

  /** A leaf below a node is reached through one of its keys. */
  lemma LeafBelowKey(c: Json, q: Path, v: Scalar)
    requires Lookup(c, q) == Some(Leaf(v)) && c.Obj?
    ensures |q| >= 1 && q[0] in Keys(c.fields)
  {
  }

  /** A leaf listed by the first `n` fields is listed by the first `n - 1` or by field `n - 1`. */
  lemma ListedStep(o: Json, n: nat, x: (Path, Scalar))
    requires o.Obj? && 0 < n <= |o.fields|
    ensures x in LeafPaths(o, n) <==> x in LeafPaths(o, n - 1) || x in FieldLeaves(o.fields[n - 1].0, o.fields[n - 1].1)
  {
    LeafPathsStep(o, n);
  }

  /** A leaf that field `i` lists is reached through its key. */
  lemma {:induction false} FieldSound(o: Json, i: nat, p: Path, v: Scalar)
    requires o.Obj? && i < |o.fields| && KeysOk(o)
    ensures (p, v) in FieldLeaves(o.fields[i].0, o.fields[i].1) ==>
              |p| >= 1 && p[0] == o.fields[i].0 && Lookup(o, p) == Some(Leaf(v))
    decreases o, i + 1, 0
  {
    FieldOk(o, i);
    var (k, c) := o.fields[i];
    match c
    case Leaf(w) =>
      if (p, v) in FieldLeaves(k, c) {
        assert p == [k];
        LookupField(o, i, p);
      }
    case Obj(cfs) =>
      PrefixAllIn(k, LeafPaths(c, |cfs|), p, v);
      if |p| >= 1 {
        ListedSound(c, |cfs|, p[1..], v);
        if p[0] == k {
          LookupField(o, i, p);
        }
      }
  }

  /** A leaf that the first `n` fields list is reached through one of their keys. */
  lemma {:induction false} ListedSound(o: Json, n: nat, p: Path, v: Scalar)
    requires o.Obj? && n <= |o.fields| && KeysOk(o)
    ensures (p, v) in LeafPaths(o, n) ==> |p| >= 1 && p[0] in Keys(o.fields)[..n] && Lookup(o, p) == Some(Leaf(v))
    decreases o, n, 1
  {
    if n > 0 {
      ListedStep(o, n, (p, v));
      ListedSound(o, n - 1, p, v);
      FieldSound(o, n - 1, p, v);
      if |p| >= 1 {
        KeysPrefixStep(o.fields, n, p[0]);
      }
    }
  }

  /** A leaf reached through the key of field `i` is listed by that field. */
  lemma {:induction false} FieldComplete(o: Json, i: nat, p: Path, v: Scalar)
    requires o.Obj? && i < |o.fields| && KeysOk(o)
    ensures |p| >= 1 && p[0] == o.fields[i].0 && Lookup(o, p) == Some(Leaf(v)) ==>
              (p, v) in FieldLeaves(o.fields[i].0, o.fields[i].1)
    decreases o, i + 1, 0
  {
    FieldOk(o, i);
    var (k, c) := o.fields[i];
    if |p| >= 1 && p[0] == k {
      LookupField(o, i, p);
      match c
      case Leaf(w) =>
        if Lookup(o, p) == Some(Leaf(v)) {
          assert p == [k];
        }
      case Obj(cfs) =>
        if Lookup(c, p[1..]) == Some(Leaf(v)) {
          LeafBelowKey(c, p[1..], v);
          assert Keys(cfs)[..|cfs|] == Keys(cfs);
          ListedComplete(c, |cfs|, p[1..], v);
        }
        PrefixAllIn(k, LeafPaths(c, |cfs|), p, v);
    }
  }

  /** A leaf reached through one of the first `n` keys is listed by the first `n` fields. */
  lemma {:induction false} ListedComplete(o: Json, n: nat, p: Path, v: Scalar)
    requires o.Obj? && n <= |o.fields| && KeysOk(o)
    ensures |p| >= 1 && p[0] in Keys(o.fields)[..n] && Lookup(o, p) == Some(Leaf(v)) ==> (p, v) in LeafPaths(o, n)
    decreases o, n, 1
  {
    if n > 0 && |p| >= 1 && p[0] in Keys(o.fields)[..n] && Lookup(o, p) == Some(Leaf(v)) {
      KeysPrefixStep(o.fields, n, p[0]);
      ListedStep(o, n, (p, v));
      if p[0] == o.fields[n - 1].0 {
        FieldComplete(o, n - 1, p, v);
      } else {
        ListedComplete(o, n - 1, p, v);
      }
    }
  }

  /**
   * The leaf listing of the first `n` fields of a well-keyed object holds a
   * leaf exactly at the paths through those fields that reach one.
   */
  lemma LeafPathsLookup(o: Json, n: nat, p: Path, v: Scalar)
    requires o.Obj? && n <= |o.fields| && KeysOk(o)
    ensures (p, v) in LeafPaths(o, n) <==> |p| >= 1 && p[0] in Keys(o.fields)[..n] && Lookup(o, p) == Some(Leaf(v))
  {
    ListedSound(o, n, p, v);
    ListedComplete(o, n, p, v);
  }


  /** The flattened tree lists the `.`-joined leaf paths. */
  lemma FlatAsLeafPaths(t: Json)
    requires t.Obj? && KeysOk(t)
    ensures FlattenObject(t, "") == JoinKeys([], LeafPaths(t, |t.fields|))
    ensures forall j :: 0 <= j < |LeafPaths(t, |t.fields|)| ==>
              FlattenObject(t, "")[j] == (Join(LeafPaths(t, |t.fields|)[j].0, '.'), LeafPaths(t, |t.fields|)[j].1)
  {
    assert Join([], '.') == "";
    FlattenAsPaths(t, |t.fields|, []);
    var ls := LeafPaths(t, |t.fields|);
    forall j | 0 <= j < |ls| ensures [] + ls[j].0 == ls[j].0 {
    }
  }

  /** A leaf of the tree appears in its flattening under its joined path. */
  lemma LeafFlattened(t: Json, p: Path, v: Scalar)
    requires t.Obj? && KeysOk(t) && Lookup(t, p) == Some(Leaf(v))
    ensures exists j :: 0 <= j < |FlattenObject(t, "")| && FlattenObject(t, "")[j] == (Join(p, '.'), v)
  {
    FlatAsLeafPaths(t);
    LeafBelowKey(t, p, v);
    assert Keys(t.fields)[..|t.fields|] == Keys(t.fields);
    LeafPathsLookup(t, |t.fields|, p, v);
    var ls := LeafPaths(t, |t.fields|);
    var j :| 0 <= j < |ls| && ls[j] == (p, v);
    assert FlattenObject(t, "")[j] == (Join(p, '.'), v);
  }

  /** Every flattened entry is the joined path of a leaf of the tree. */
  lemma FlattenedLeaf(t: Json, j: nat)
    requires t.Obj? && KeysOk(t) && j < |FlattenObject(t, "")|
    ensures exists p :: Lookup(t, p) == Some(Leaf(FlattenObject(t, "")[j].1)) && Join(p, '.') == FlattenObject(t, "")[j].0
  {
    FlatAsLeafPaths(t);
    var ls := LeafPaths(t, |t.fields|);
    assert ls[j] in ls;
    LeafPathsLookup(t, |t.fields|, ls[j].0, ls[j].1);
    assert Lookup(t, ls[j].0) == Some(Leaf(FlattenObject(t, "")[j].1));
  }

  /** Distinct paths come from distinct keys. */
  lemma FlatOkDistinct(m: Dict<Scalar>)
    requires FlatOk(m)
    ensures DistinctKeys(m)
  {
    var ps := Paths(m);
    forall i, j | 0 <= i < j < |m| ensures m[i].0 != m[j].0 {
      assert !PrefixOf(ps[i], ps[j]);
    }
  }

  /** Each entry of `m` is found in the flattened tree under its own key. */
  lemma EntryKept(m: Dict<Scalar>, t: Json, i: nat)
    requires t.Obj? && KeysOk(t) && Holds(t, Paths(m), Values(m)) && i < |m|
    ensures Get(FlattenObject(t, ""), m[i].0) == Some(m[i].1)
  {
    var p := Paths(m)[i];
    assert Lookup(t, p) == Some(Leaf(m[i].1));
    LeafFlattened(t, p, m[i].1);
    JoinSplit(m[i].0, '.');
    var f := FlattenObject(t, "");
    var j :| 0 <= j < |f| && f[j] == (m[i].0, m[i].1);
    GetIn(f, j);
  }

  /** Each key of the flattened tree is a key of `m`. */
  lemma KeyFromEntry(m: Dict<Scalar>, t: Json, j: nat)
    requires t.Obj? && KeysOk(t) && LeavesIn(t, Paths(m)) && j < |FlattenObject(t, "")|
    ensures FlattenObject(t, "")[j].0 in Keys(m)
  {
    var f := FlattenObject(t, "");
    FlattenedLeaf(t, j);
    var p :| Lookup(t, p) == Some(Leaf(f[j].1)) && Join(p, '.') == f[j].0;
    assert p in Paths(m);
    var i :| 0 <= i < |m| && Paths(m)[i] == p;
    JoinSplit(m[i].0, '.');
    assert Keys(m)[i] == f[j].0;
  }

  /**
   * `flattenObject(unflattenObject(m))` looks up like `m`: the same keys, each
   * with the same value, for a flat catalog whose keys split into non-empty
   * segments with no key's path leading to another key's.
   */
  lemma FlattenUnflatten(m: Dict<Scalar>, k: string)
    requires FlatOk(m)
    ensures k in Keys(FlattenObject(Unflatten(m), "")) <==> k in Keys(m)
    ensures Get(FlattenObject(Unflatten(m), ""), k) == Get(m, k)
  {
    UnflattenTree(m);
    FlatOkDistinct(m);
    var t := Unflatten(m);
    var f := FlattenObject(t, "");
    if k in Keys(m) {
      var i :| 0 <= i < |m| && m[i].0 == k;
      EntryKept(m, t, i);
      GetIn(m, i);
    } else if k in Keys(f) {
      var j :| 0 <= j < |f| && f[j].0 == k;
      KeyFromEntry(m, t, j);
    }
  }
}

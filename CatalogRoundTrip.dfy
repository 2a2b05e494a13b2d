/**
 * Flattening a catalog and rebuilding it: flattened keys are the `.`-joined
 * leaf paths in depth-first key order, and rebuilding from them gives the
 * original catalog back when keys are plain and no nested object is empty.
 */
module CatalogRoundTrip {
  import opened Wrappers
  import opened Text
  import opened JsObject
  import opened LocaleJson
  import opened TranslationManager

  predicate PlainPath(p: Path) {
    |p| >= 1 && forall j :: 0 <= j < |p| ==> PlainKey(p[j])
  }

  /** Every path is plain and starts with one of `ks`. */
  predicate PathsUnder(ps: seq<(Path, Scalar)>, ks: seq<string>) {
    forall i :: 0 <= i < |ps| ==> PlainPath(ps[i].0) && ps[i].0[0] in ks
  }

  predicate PathsDistinct(ps: seq<(Path, Scalar)>) {
    forall i, j :: 0 <= i < j < |ps| ==> ps[i].0 != ps[j].0
  }

  /** The leaves contributed by the field `(k, c)`. */
  function FieldLeaves(k: string, c: Json): seq<(Path, Scalar)> {
    match c
    case Leaf(v) => [([k], v)]
    case Obj(cfs) => PrefixAll(k, LeafPaths(c, |cfs|))
  }

  lemma LeafPathsStep(o: Json, n: nat)
    requires o.Obj? && 0 < n <= |o.fields|
    ensures LeafPaths(o, n) == LeafPaths(o, n - 1) + FieldLeaves(o.fields[n - 1].0, o.fields[n - 1].1)
  {
  }

  lemma FieldOk(o: Json, i: nat)
    requires o.Obj? && i < |o.fields| && KeysOk(o)
    ensures PlainKey(o.fields[i].0) && KeysOk(o.fields[i].1)
    ensures o.fields[i].0 !in Keys(o.fields)[..i]
  {
  }

  /** Appending leaves under a new key keeps the paths distinct. */
  lemma DistinctAppend(a: seq<(Path, Scalar)>, ks: seq<string>, k: string, b: seq<(Path, Scalar)>)
    requires PathsUnder(a, ks) && PathsDistinct(a) && PathsDistinct(b) && k !in ks
    requires forall i :: 0 <= i < |b| ==> |b[i].0| >= 1 && b[i].0[0] == k
    ensures PathsDistinct(a + b)
  {
    forall i, j | 0 <= i < j < |a + b| ensures (a + b)[i].0 != (a + b)[j].0 {
      if i < |a| && j >= |a| {
        assert (a + b)[i].0[0] in ks;
        assert (a + b)[j].0[0] == k;
      }
    }
  }

  lemma PrefixAllDistinct(k: string, ps: seq<(Path, Scalar)>)
    requires PathsDistinct(ps)
    ensures PathsDistinct(PrefixAll(k, ps))
  {
    var r := PrefixAll(k, ps);
    forall i, j | 0 <= i < j < |r| ensures r[i].0 != r[j].0 {
      assert r[i].0[1..] == ps[i].0;
      assert r[j].0[1..] == ps[j].0;
    }
  }

  lemma {:induction false} FieldLeavesFacts(k: string, c: Json)
    requires PlainKey(k) && KeysOk(c)
    ensures PathsUnder(FieldLeaves(k, c), [k]) && PathsDistinct(FieldLeaves(k, c))
    decreases c, 1
  {
    if c.Obj? {
      LeafPathsFacts(c, |c.fields|);
      PrefixAllDistinct(k, LeafPaths(c, |c.fields|));
    }
  }

  /** The leaf paths of a well-keyed object are plain, distinct and start with one of its keys. */
  lemma {:induction false} LeafPathsFacts(o: Json, n: nat)
    requires o.Obj? && n <= |o.fields| && KeysOk(o)
    ensures PathsUnder(LeafPaths(o, n), Keys(o.fields)[..n]) && PathsDistinct(LeafPaths(o, n))
    decreases o, 0, n
  {
    if n > 0 {
      var (k, c) := o.fields[n - 1];
      var a := LeafPaths(o, n - 1);
      var b := FieldLeaves(k, c);
      var ks := Keys(o.fields)[..n];
      assert LeafPaths(o, n) == a + b by {
        LeafPathsStep(o, n);
      }
      assert ks == Keys(o.fields)[..n - 1] + [k];
      assert PathsUnder(a, Keys(o.fields)[..n - 1]) && PathsDistinct(a) by {
        LeafPathsFacts(o, n - 1);
      }
      assert PathsUnder(b, [k]) && PathsDistinct(b) by {
        FieldOk(o, n - 1);
        FieldLeavesFacts(k, c);
      }
      var ks0 := Keys(o.fields)[..n - 1];
      assert k !in ks0 by {
        forall j | 0 <= j < n - 1 ensures ks0[j] != k {
          assert ks0[j] == o.fields[j].0;
        }
      }
      AppendFacts(a, Keys(o.fields)[..n - 1], k, b);
    }
  }

  /** The leaves of the first fields followed by those of one more field with a new key. */
  lemma AppendFacts(a: seq<(Path, Scalar)>, ks: seq<string>, k: string, b: seq<(Path, Scalar)>)
    requires PathsUnder(a, ks) && PathsDistinct(a) && k !in ks
    requires PathsUnder(b, [k]) && PathsDistinct(b)
    ensures PathsUnder(a + b, ks + [k]) && PathsDistinct(a + b)
  {
    DistinctAppend(a, ks, k, b);
    forall i | 0 <= i < |a + b| ensures PlainPath((a + b)[i].0) && (a + b)[i].0[0] in ks + [k] {
      if i < |a| { assert (a + b)[i] == a[i]; } else { assert (a + b)[i] == b[i - |a|]; }
    }
  }

  /** Leaf paths with each path `.`-joined behind the prefix path `pre`. */
  function JoinKeys(pre: Path, ps: seq<(Path, Scalar)>): (d: Dict<Scalar>)
    ensures |d| == |ps|
    ensures forall i :: 0 <= i < |ps| ==> d[i] == (Join(pre + ps[i].0, '.'), ps[i].1)
  {
    if |ps| == 0 then [] else [(Join(pre + ps[0].0, '.'), ps[0].1)] + JoinKeys(pre, ps[1..])
  }

  lemma {:induction false} JoinKeysAppend(pre: Path, a: seq<(Path, Scalar)>, b: seq<(Path, Scalar)>)
    ensures JoinKeys(pre, a + b) == JoinKeys(pre, a) + JoinKeys(pre, b)
  {
    if |a| == 0 {
      assert a + b == b;
    } else {
      assert (a + b)[1..] == a[1..] + b;
      JoinKeysAppend(pre, a[1..], b);
    }
  }

  lemma JoinKeysPrefix(pre: Path, k: string, ps: seq<(Path, Scalar)>)
    ensures JoinKeys(pre + [k], ps) == JoinKeys(pre, PrefixAll(k, ps))
  {
    forall i | 0 <= i < |ps| ensures JoinKeys(pre + [k], ps)[i] == JoinKeys(pre, PrefixAll(k, ps))[i] {
      assert pre + [k] + ps[i].0 == pre + ([k] + ps[i].0);
    }
  }

  predicate PlainKeys(pre: Path) {
    forall j :: 0 <= j < |pre| ==> PlainKey(pre[j])
  }

  lemma PlainConcat(pre: Path, p: Path)
    requires PlainKeys(pre) && PlainPath(p)
    ensures |pre + p| >= 1 && NoSep(pre + p, '.')
  {
    forall j | 0 <= j < |pre + p| ensures '.' !in (pre + p)[j] {
      if j < |pre| { assert PlainKey(pre[j]); } else { assert PlainKey(p[j - |pre|]); }
    }
  }

  /** Equal joined keys behind plain prefixes mean equal paths. */
  lemma JoinedEqual(pre: Path, p: Path, q: Path)
    requires PlainKeys(pre) && PlainPath(p) && PlainPath(q)
    requires Join(pre + p, '.') == Join(pre + q, '.')
    ensures p == q
  {
    PlainConcat(pre, p);
    PlainConcat(pre, q);
    JoinInjective(pre + p, pre + q, '.');
    assert p == (pre + p)[|pre|..];
    assert q == (pre + q)[|pre|..];
  }

  /** Distinct plain paths have distinct joined keys, none of them shared between two halves. */
  lemma JoinKeysFresh(pre: Path, a: seq<(Path, Scalar)>, b: seq<(Path, Scalar)>, ks: seq<string>)
    requires PlainKeys(pre) && PathsUnder(a + b, ks) && PathsDistinct(a + b)
    ensures DistinctKeys(JoinKeys(pre, b))
    ensures forall i :: 0 <= i < |b| ==> JoinKeys(pre, b)[i].0 !in Keys(JoinKeys(pre, a))
  {
    var e := JoinKeys(pre, b);
    var acc := JoinKeys(pre, a);
    forall i, j | 0 <= i < j < |e| ensures e[i].0 != e[j].0 {
      if e[i].0 == e[j].0 {
        assert (a + b)[|a| + i] == b[i] && (a + b)[|a| + j] == b[j];
        JoinedEqual(pre, b[i].0, b[j].0);
      }
    }
    forall i | 0 <= i < |e| ensures e[i].0 !in Keys(acc) {
      if e[i].0 in Keys(acc) {
        var j :| 0 <= j < |acc| && Keys(acc)[j] == e[i].0;
        assert (a + b)[j] == a[j] && (a + b)[|a| + i] == b[i];
        JoinedEqual(pre, a[j].0, b[i].0);
      }
    }
  }

  /** The key prefix built by `flattenObject` for the child `k` is the join of the longer path. */
  lemma ChildPrefix(pre: Path, k: string)
    requires PlainKeys(pre)
    ensures (if |Join(pre, '.')| > 0 then Join(pre, '.') + "." else "") + k == Join(pre + [k], '.')
  {
    if |pre| == 0 {
      assert pre + [k] == [k];
    } else {
      assert PlainKey(pre[0]);
      JoinNonEmpty(pre, '.');
      JoinSnoc(pre, k, '.');
    }
  }

  /** Flattening the first `n` fields of `o` under `pre` gives their leaves keyed by joined paths. */
  predicate FlatIsPaths(o: Json, n: nat, pre: Path)
    requires o.Obj? && n <= |o.fields|
  {
    FlattenFields(o, n, Join(pre, '.')) == JoinKeys(pre, LeafPaths(o, n))
  }

  /** The step of `FlattenAsPaths` for a field whose value is not an object. */
  lemma FlattenLeafStep(o: Json, n: nat, pre: Path)
    requires o.Obj? && 0 < n <= |o.fields| && KeysOk(o) && PlainKeys(pre) && o.fields[n - 1].1.Leaf?
    requires FlatIsPaths(o, n - 1, pre)
    ensures FlatIsPaths(o, n, pre)
  {
    var (k, c) := o.fields[n - 1];
    var a, b := LeafPaths(o, n - 1), FieldLeaves(k, c);
    LeafPathsFacts(o, n);
    LeafPathsStep(o, n);
    FieldOk(o, n - 1);
    ChildPrefix(pre, k);
    JoinKeysAppend(pre, a, b);
    JoinKeysFresh(pre, a, b, Keys(o.fields)[..n]);
    assert JoinKeys(pre, b) == [(Join(pre + [k], '.'), c.value)];
    PutNew(JoinKeys(pre, a), Join(pre + [k], '.'), c.value);
  }

  /** The step of `FlattenAsPaths` for a field whose value is an object, given the claim for that object. */
  lemma FlattenObjStep(o: Json, n: nat, pre: Path, k: string, c: Json)
    requires o.Obj? && 0 < n <= |o.fields| && KeysOk(o) && PlainKeys(pre) && o.fields[n - 1] == (k, c) && c.Obj?
    requires FlatIsPaths(o, n - 1, pre)
    requires FlatIsPaths(c, |c.fields|, pre + [k])
    ensures FlatIsPaths(o, n, pre)
  {
    var a, b := LeafPaths(o, n - 1), FieldLeaves(k, c);
    LeafPathsFacts(o, n);
    LeafPathsStep(o, n);
    FieldOk(o, n - 1);
    ChildPrefix(pre, k);
    JoinKeysAppend(pre, a, b);
    JoinKeysFresh(pre, a, b, Keys(o.fields)[..n]);
    JoinKeysPrefix(pre, k, LeafPaths(c, |c.fields|));
    AssignFresh(JoinKeys(pre, a), JoinKeys(pre, b));
  }

  /** The child of the `n`-th field is well keyed and extends a plain prefix by a plain key. */
  lemma ChildKeys(o: Json, n: nat, pre: Path)
    requires o.Obj? && 0 < n <= |o.fields| && KeysOk(o) && PlainKeys(pre)
    ensures KeysOk(o.fields[n - 1].1) && PlainKeys(pre + [o.fields[n - 1].0])
  {
    FieldOk(o, n - 1);
    var p := pre + [o.fields[n - 1].0];
    assert forall j :: 0 <= j < |pre| ==> p[j] == pre[j];
  }

  /**
   * `flattenObject` under the prefix `pre` (joined) lists exactly the leaves,
   * in depth-first key order, keyed by their joined paths.
   */
  lemma {:induction false} FlattenAsPaths(o: Json, n: nat, pre: Path)
    requires o.Obj? && n <= |o.fields| && KeysOk(o) && PlainKeys(pre)
    ensures FlatIsPaths(o, n, pre)
    decreases o, n
  {
    if n > 0 {
      FlattenAsPaths(o, n - 1, pre);
      var k, c := o.fields[n - 1].0, o.fields[n - 1].1;
      if c.Leaf? {
        FlattenLeafStep(o, n, pre);
      } else {
        ChildKeys(o, n, pre);
        FlattenAsPaths(c, |c.fields|, pre + [k]);
        FlattenObjStep(o, n, pre, k, c);
      }
    }
  }

  /** Rebuilding by paths from a start tree, one `SetPath` per entry (an empty path writes nothing). */
  function FoldPaths(t: Json, ps: seq<(Path, Scalar)>): Json {
    if |ps| == 0 then t
    else
      var prev := FoldPaths(t, ps[..|ps| - 1]);
      var (p, v) := ps[|ps| - 1];
      if |p| == 0 then prev else SetPath(prev, p, v)
  }

  lemma {:induction false} FoldAppend(t: Json, a: seq<(Path, Scalar)>, b: seq<(Path, Scalar)>)
    ensures FoldPaths(t, a + b) == FoldPaths(FoldPaths(t, a), b)
  {
    if |b| == 0 {
      assert a + b == a;
    } else {
      FoldAppend(t, a, b[..|b| - 1]);
      assert (a + b)[..|a + b| - 1] == a + b[..|b| - 1];
    }
  }

  lemma {:induction false} FoldKeepsObject(t: Json, ps: seq<(Path, Scalar)>)
    requires t.Obj?
    ensures FoldPaths(t, ps).Obj?
  {
    if |ps| > 0 {
      FoldKeepsObject(t, ps[..|ps| - 1]);
    }
  }

  lemma GetLast(xs: Dict<Json>, k: string, x: Json)
    requires k !in Keys(xs)
    ensures Get(xs + [(k, x)], k) == Some(x)
  {
    PutNew(xs, k, x);
    GetPut(xs, k, x, k);
  }

  /** Rebuilding paths that all start with `k` only rebuilds the last entry `k`. */
  lemma {:induction false} FoldUnder(xs: Dict<Json>, k: string, t: Json, ps: seq<(Path, Scalar)>)
    requires k !in Keys(xs) && t.Obj?
    requires forall i :: 0 <= i < |ps| ==> |ps[i].0| >= 1
    ensures FoldPaths(Obj(xs + [(k, t)]), PrefixAll(k, ps)) == Obj(xs + [(k, FoldPaths(t, ps))])
  {
    if |ps| > 0 {
      var ps' := ps[..|ps| - 1];
      var (q, v) := ps[|ps| - 1];
      FoldUnder(xs, k, t, ps');
      assert PrefixAll(k, ps)[..|ps| - 1] == PrefixAll(k, ps');
      var t' := FoldPaths(t, ps');
      FoldKeepsObject(t, ps');
      GetLast(xs, k, t');
      assert ([k] + q)[0] == k && ([k] + q)[1..] == q;
      PutLast(xs, k, t', SetPath(t', q, v));
    }
  }

  lemma {:induction false} LeafPathsNonEmpty(o: Json, n: nat)
    requires o.Obj? && 0 < n <= |o.fields| && NoEmptyObjects(o)
    ensures |LeafPaths(o, n)| > 0
    decreases o, n
  {
    LeafPathsStep(o, n);
    var c := o.fields[n - 1].1;
    if c.Obj? {
      LeafPathsNonEmpty(c, |c.fields|);
    }
  }

  lemma FoldOne(t: Json, p: Path, v: Scalar)
    requires |p| >= 1
    ensures FoldPaths(t, [(p, v)]) == SetPath(t, p, v)
  {
    assert [(p, v)][..0] == [];
  }

  /** The first leaf under a new key `k` creates the entry `k` at the end. */
  lemma FoldFirst(ys: Dict<Json>, k: string, q: Path, v: Scalar)
    requires k !in Keys(ys) && |q| >= 1
    ensures FoldPaths(Obj(ys), [([k] + q, v)]) == Obj(ys + [(k, SetPath(Obj([]), q, v))])
  {
    FoldOne(Obj(ys), [k] + q, v);
    assert ([k] + q)[0] == k && ([k] + q)[1..] == q;
    PutNew(ys, k, SetPath(Obj([]), q, v));
  }

  lemma PrefixAllCons(k: string, ps: seq<(Path, Scalar)>)
    requires |ps| > 0
    ensures PrefixAll(k, ps) == [([k] + ps[0].0, ps[0].1)] + PrefixAll(k, ps[1..])
  {
  }

  /** Rebuilding paths under a new key `k`: the first creates `k`, the rest rebuild inside it. */
  lemma FoldHead(ys: Dict<Json>, k: string, ps: seq<(Path, Scalar)>)
    requires k !in Keys(ys) && |ps| > 0
    requires forall i :: 0 <= i < |ps| ==> |ps[i].0| >= 1
    ensures FoldPaths(Obj(ys), PrefixAll(k, ps)) == Obj(ys + [(k, FoldPaths(Obj([]), ps))])
  {
    var first := ps[0];
    var rest := ps[1..];
    assert forall i :: 0 <= i < |rest| ==> |rest[i].0| >= 1 by {
      assert forall i :: 0 <= i < |rest| ==> rest[i] == ps[i + 1];
    }
    var t0 := SetPath(Obj([]), first.0, first.1);
    var head := [([k] + first.0, first.1)];
    calc {
      FoldPaths(Obj(ys), PrefixAll(k, ps));
      { PrefixAllCons(k, ps); }
      FoldPaths(Obj(ys), head + PrefixAll(k, rest));
      { FoldAppend(Obj(ys), head, PrefixAll(k, rest)); }
      FoldPaths(FoldPaths(Obj(ys), head), PrefixAll(k, rest));
      { FoldFirst(ys, k, first.0, first.1); }
      FoldPaths(Obj(ys + [(k, t0)]), PrefixAll(k, rest));
      { FoldUnder(ys, k, t0, rest); }
      Obj(ys + [(k, FoldPaths(t0, rest))]);
      { FoldOne(Obj([]), first.0, first.1); FoldAppend(Obj([]), [first], rest); assert [first] + rest == ps; }
      Obj(ys + [(k, FoldPaths(Obj([]), ps))]);
    }
  }

  /** Rebuilding the leaves of a non-empty object `c` under a new key `k` appends `(k, c)`. */
  lemma {:induction false} FoldChild(ys: Dict<Json>, k: string, c: Json)
    requires k !in Keys(ys) && c.Obj? && |c.fields| > 0 && KeysOk(c) && NoEmptyObjects(c)
    ensures FoldPaths(Obj(ys), PrefixAll(k, LeafPaths(c, |c.fields|))) == Obj(ys + [(k, c)])
    decreases c, 3
  {
    var ps := LeafPaths(c, |c.fields|);
    LeafPathsFacts(c, |c.fields|);
    LeafPathsNonEmpty(c, |c.fields|);
    assert forall i :: 0 <= i < |ps| ==> |ps[i].0| >= 1;
    var empty: Dict<Json> := [];
    assert FoldPaths(Obj(empty), ps) == c by {
      FoldLeafPaths(empty, c, |c.fields|);
      assert empty + c.fields[..|c.fields|] == c.fields;
    }
    FoldHead(ys, k, ps);
  }

  lemma NoEmptyField(o: Json, i: nat)
    requires o.Obj? && i < |o.fields| && NoEmptyObjects(o)
    ensures NoEmptyObjects(o.fields[i].1)
    ensures o.fields[i].1.Obj? ==> |o.fields[i].1.fields| > 0
  {
  }

  /** The `n`-th key is new to `xs` extended by the fields before it. */
  lemma FreshField(xs: Dict<Json>, o: Json, n: nat)
    requires o.Obj? && 0 < n <= |o.fields| && KeysOk(o)
    requires forall i :: 0 <= i < |o.fields| ==> o.fields[i].0 !in Keys(xs)
    ensures o.fields[n - 1].0 !in Keys(xs + o.fields[..n - 1])
  {
    FieldOk(o, n - 1);
    KeysAppend(xs, o.fields[..n - 1]);
    assert Keys(o.fields[..n - 1]) == Keys(o.fields)[..n - 1];
  }

  /** Rebuilding the leaves of one field of a well-formed object into `ys` appends that field. */
  lemma {:induction false} FoldField(ys: Dict<Json>, o: Json, i: nat)
    requires o.Obj? && i < |o.fields| && KeysOk(o) && NoEmptyObjects(o)
    requires o.fields[i].0 !in Keys(ys)
    ensures FoldPaths(Obj(ys), FieldLeaves(o.fields[i].0, o.fields[i].1)) == Obj(ys + [o.fields[i]])
    decreases o, 1
  {
    var (k, c) := o.fields[i];
    FieldOk(o, i);
    NoEmptyField(o, i);
    if c.Leaf? {
      FoldOne(Obj(ys), [k], c.value);
      PutNew(ys, k, c);
    } else {
      FoldChild(ys, k, c);
    }
  }

  /** Rebuilding from the leaf paths of the first `n` fields appends exactly those fields. */
  lemma {:induction false} FoldLeafPaths(xs: Dict<Json>, o: Json, n: nat)
    requires o.Obj? && n <= |o.fields| && KeysOk(o) && NoEmptyObjects(o)
    requires forall i :: 0 <= i < |o.fields| ==> o.fields[i].0 !in Keys(xs)
    ensures FoldPaths(Obj(xs), LeafPaths(o, n)) == Obj(xs + o.fields[..n])
    decreases o, 2, n
  {
    if n == 0 {
      assert xs + o.fields[..0] == xs;
    } else {
      var a := LeafPaths(o, n - 1);
      var b := FieldLeaves(o.fields[n - 1].0, o.fields[n - 1].1);
      var ys := xs + o.fields[..n - 1];
      calc {
        FoldPaths(Obj(xs), LeafPaths(o, n));
        { LeafPathsStep(o, n); }
        FoldPaths(Obj(xs), a + b);
        { FoldAppend(Obj(xs), a, b); }
        FoldPaths(FoldPaths(Obj(xs), a), b);
        { FoldLeafPaths(xs, o, n - 1); }
        FoldPaths(Obj(ys), b);
        { FreshField(xs, o, n); FoldField(ys, o, n - 1); }
        Obj(ys + [o.fields[n - 1]]);
        { assert ys + [o.fields[n - 1]] == xs + o.fields[..n]; }
        Obj(xs + o.fields[..n]);
      }
    }
  }

  /** Rebuilding joined keys by splitting them is rebuilding by the paths. */
  lemma {:induction false} UnflattenJoined(ps: seq<(Path, Scalar)>, ks: seq<string>)
    requires PathsUnder(ps, ks)
    ensures Unflatten(JoinKeys([], ps)) == FoldPaths(Obj([]), ps)
  {
    if |ps| > 0 {
      var ps' := ps[..|ps| - 1];
      UnflattenJoined(ps', ks);
      var d := JoinKeys([], ps);
      assert d[..|d| - 1] == JoinKeys([], ps');
      var (p, v) := ps[|ps| - 1];
      assert [] + p == p;
      PlainConcat([], p);
      SplitJoin(p, '.');
      assert d[|d| - 1] == (Join(p, '.'), v);
      assert Unflatten(d) == SetPath(Unflatten(JoinKeys([], ps')), p, v);
      assert FoldPaths(Obj([]), ps) == SetPath(FoldPaths(Obj([]), ps'), p, v);
    }
  }

  /**
   * Round trip: `unflattenObject(flattenObject(o))` is `o` itself, key order
   * included, when every key is non-empty and free of `.`, and no nested object is empty.
   */
  lemma UnflattenFlatten(o: Json)
    requires o.Obj? && KeysOk(o) && NoEmptyObjects(o)
    ensures Unflatten(FlattenObject(o, "")) == o
  {
    var n := |o.fields|;
    var ps := LeafPaths(o, n);
    assert FlattenObject(o, "") == JoinKeys([], ps) by {
      assert Join([], '.') == "";
      FlattenAsPaths(o, n, []);
    }
    assert Unflatten(JoinKeys([], ps)) == FoldPaths(Obj([]), ps) by {
      LeafPathsFacts(o, n);
      UnflattenJoined(ps, Keys(o.fields)[..n]);
    }
    assert FoldPaths(Obj([]), ps) == o by {
      FoldLeafPaths([], o, n);
      assert [] + o.fields[..n] == o.fields;
    }
  }

  /** Every leaf below `j` is truthy. */
  predicate TruthyLeaves(j: Json)
    decreases j
  {
    match j
    case Leaf(v) => Truthy(v)
    case Obj(fs) => forall i :: 0 <= i < |fs| ==> TruthyLeaves(fs[i].1)
  }

  predicate ValuesTruthy(ps: seq<(Path, Scalar)>) {
    forall i :: 0 <= i < |ps| ==> Truthy(ps[i].1)
  }

  lemma ValuesTruthyAppend(a: seq<(Path, Scalar)>, b: seq<(Path, Scalar)>)
    requires ValuesTruthy(a) && ValuesTruthy(b)
    ensures ValuesTruthy(a + b)
  {
    forall i | 0 <= i < |a + b| ensures Truthy((a + b)[i].1) {
      if i < |a| { assert (a + b)[i] == a[i]; } else { assert (a + b)[i] == b[i - |a|]; }
    }
  }

  lemma {:induction false} FieldLeavesTruthy(k: string, c: Json)
    requires TruthyLeaves(c)
    ensures ValuesTruthy(FieldLeaves(k, c))
    decreases c, 1
  {
    if c.Obj? {
      LeafPathsTruthy(c, |c.fields|);
      var ps := LeafPaths(c, |c.fields|);
      assert forall i :: 0 <= i < |ps| ==> PrefixAll(k, ps)[i].1 == ps[i].1;
    }
  }

  lemma TruthyField(o: Json, i: nat)
    requires o.Obj? && i < |o.fields| && TruthyLeaves(o)
    ensures TruthyLeaves(o.fields[i].1)
  {
  }

  lemma {:induction false} LeafPathsTruthy(o: Json, n: nat)
    requires o.Obj? && n <= |o.fields| && TruthyLeaves(o)
    ensures ValuesTruthy(LeafPaths(o, n))
    decreases o, 0, n
  {
    if n > 0 {
      var a := LeafPaths(o, n - 1);
      var b := FieldLeaves(o.fields[n - 1].0, o.fields[n - 1].1);
      LeafPathsStep(o, n);
      assert LeafPaths(o, n) == a + b;
      LeafPathsTruthy(o, n - 1);
      TruthyField(o, n - 1);
      FieldLeavesTruthy(o.fields[n - 1].0, o.fields[n - 1].1);
      ValuesTruthyAppend(a, b);
    }
  }

  /**
   * The flattened catalog of a well-keyed object: distinct, non-empty keys,
   * and truthy values when every leaf is truthy.
   */
  lemma FlatCatalogFacts(cat: Dict<Json>)
    requires KeysOk(Obj(cat))
    ensures DistinctKeys(FlatCatalog(cat))
    ensures forall i :: 0 <= i < |FlatCatalog(cat)| ==> FlatCatalog(cat)[i].0 != ""
    ensures TruthyLeaves(Obj(cat)) ==> forall i :: 0 <= i < |FlatCatalog(cat)| ==> Truthy(FlatCatalog(cat)[i].1)
  {
    FlatKeysNonEmpty(cat);
    if TruthyLeaves(Obj(cat)) {
      FlatValuesTruthy(cat);
    }
  }

  /** The flattened catalog of a well-keyed object has no empty key. */
  lemma FlatKeysNonEmpty(cat: Dict<Json>)
    requires KeysOk(Obj(cat))
    ensures forall i :: 0 <= i < |FlatCatalog(cat)| ==> FlatCatalog(cat)[i].0 != ""
  {
    var o := Obj(cat);
    assert Join([], '.') == "";
    FlattenAsPaths(o, |cat|, []);
    LeafPathsFacts(o, |cat|);
    var ps := LeafPaths(o, |cat|);
    forall i | 0 <= i < |ps| ensures FlatCatalog(cat)[i].0 != "" {
      assert [] + ps[i].0 == ps[i].0;
      assert PlainKey(ps[i].0[0]);
      JoinNonEmpty(ps[i].0, '.');
    }
  }

  /** When every leaf is truthy, so is every flattened value. */
  lemma FlatValuesTruthy(cat: Dict<Json>)
    requires KeysOk(Obj(cat)) && TruthyLeaves(Obj(cat))
    ensures forall i :: 0 <= i < |FlatCatalog(cat)| ==> Truthy(FlatCatalog(cat)[i].1)
  {
    var o := Obj(cat);
    assert Join([], '.') == "";
    FlattenAsPaths(o, |cat|, []);
    LeafPathsTruthy(o, |cat|);
  }
}

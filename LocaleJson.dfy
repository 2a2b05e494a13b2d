/**
 * JSON values as the locale tooling sees them. A leaf is any value that is not
 * a plain object (string, number, boolean, null or array); an object keeps its
 * keys in insertion order. Paths address nested objects key by key.
 */
module LocaleJson {
  import opened Wrappers
  import opened Text
  import opened JsObject

  /** A JavaScript value that is not a plain object. Numbers are integers here. */
  datatype Scalar = Str(s: string) | Num(n: int) | Bool(b: bool) | Null | Arr(items: seq<Scalar>)

  datatype Json = Leaf(value: Scalar) | Obj(fields: Dict<Json>)

  type Path = seq<string>

  /** JavaScript truthiness: `""`, `0`, `false`, `null`/`undefined` are falsy; arrays are truthy. */
  predicate Truthy(v: Scalar) {
    match v
    case Str(s) => s != ""
    case Num(n) => n != 0
    case Bool(b) => b
    case Null => false
    case Arr(_) => true
  }

  /** Objects are always truthy. */
  predicate JsonTruthy(j: Json) {
    j.Obj? || Truthy(j.value)
  }

  /** `String(v)`, the property key a cell value is stored under. */
  function KeyString(v: Scalar): string
    decreases v, 1
  {
    match v
    case Str(s) => s
    case Num(n) => IntToString(n)
    case Bool(b) => if b then "true" else "false"
    case Null => "null"
    case Arr(items) => ArrayString(v, |items|)
  }

  /** `a.slice(0, n).join(',')`, where `null` elements become empty strings. */
  function ArrayString(a: Scalar, n: nat): string
    requires a.Arr? && n <= |a.items|
    decreases a, 0, n
  {
    if n == 0 then ""
    else
      var e := a.items[n - 1];
      var s := if e.Null? then "" else KeyString(e);
      if n == 1 then s else ArrayString(a, n - 1) + "," + s
  }

  /** The node reached from `t` by following the keys of `p`. */
  function Lookup(t: Json, p: Path): Option<Json>
    decreases |p|
  {
    if |p| == 0 then Some(t)
    else match t
      case Leaf(_) => None
      case Obj(fs) =>
        match Get(fs, p[0])
        case None => None
        case Some(c) => Lookup(c, p[1..])
  }

  /** The leaf value at exactly `p`, if there is one. */
  function LeafAt(t: Json, p: Path): Option<Scalar> {
    match Lookup(t, p)
    case Some(Leaf(v)) => Some(v)
    case _ => None
  }

  /** A key usable as one path step: non-empty and free of the `.` separator. */
  predicate PlainKey(k: string) {
    k != "" && '.' !in k
  }

  /** Every object in `j` has distinct, plain keys. */
  predicate KeysOk(j: Json)
    decreases j
  {
    match j
    case Leaf(_) => true
    case Obj(fs) =>
      DistinctKeys(fs) &&
      forall i :: 0 <= i < |fs| ==> PlainKey(fs[i].0) && KeysOk(fs[i].1)
  }

  /** No object nested below `j` is empty (`j` itself may be). */
  predicate NoEmptyObjects(j: Json)
    decreases j
  {
    match j
    case Leaf(_) => true
    case Obj(fs) =>
      forall i :: 0 <= i < |fs| ==>
        (fs[i].1.Obj? ==> |fs[i].1.fields| > 0) && NoEmptyObjects(fs[i].1)
  }

  /** Every leaf of the first `n` fields of `o` with its path, depth first in key order. */
  function LeafPaths(o: Json, n: nat): seq<(Path, Scalar)>
    requires o.Obj? && n <= |o.fields|
    decreases o, n
  {
    if n == 0 then []
    else
      var (k, c) := o.fields[n - 1];
      LeafPaths(o, n - 1) +
      match c
      case Leaf(v) => [([k], v)]
      case Obj(cfs) => PrefixAll(k, LeafPaths(c, |cfs|))
  }

  function PrefixAll(k: string, ps: seq<(Path, Scalar)>): (r: seq<(Path, Scalar)>)
    ensures |r| == |ps|
    ensures forall i :: 0 <= i < |ps| ==> r[i] == ([k] + ps[i].0, ps[i].1)
  {
    if |ps| == 0 then [] else [([k] + ps[0].0, ps[0].1)] + PrefixAll(k, ps[1..])
  }

  predicate StrictPrefix(p: Path, q: Path) {
    |p| < |q| && q[..|p|] == p
  }

  // ---------------------------------------------------------------------------
  // Writing into a tree through a cursor. The cursor of the source's loops is an
  // object reference; here it is the path from the root to that object.
  // ---------------------------------------------------------------------------

  /** `current || {}` for a property read `current`. */
  function OrEmpty(x: Option<Json>): Json {
    if x.Some? && JsonTruthy(x.value) then x.value else Obj([])
  }

  /**
   * `current[k] = x` where `current` is the node at `p`. When that node is not
   * an object the assignment has no visible effect.
   */
  function AssignAt(t: Json, p: Path, k: string, x: Json): Json
    decreases |p|
  {
    match t
    case Leaf(_) => t
    case Obj(fs) =>
      if |p| == 0 then Obj(Put(fs, k, x))
      else match Get(fs, p[0])
        case None => t
        case Some(c) => Obj(Put(fs, p[0], AssignAt(c, p[1..], k, x)))
  }

  /** Stores `v` at `path`, creating `{}` for every missing or falsy step (the nested spec of both loops). */
  function SetPath(t: Json, path: Path, v: Scalar): Json
    requires |path| >= 1
    decreases |path|
  {
    match t
    case Leaf(_) => t
    case Obj(fs) =>
      if |path| == 1 then Obj(Put(fs, path[0], Leaf(v)))
      else Obj(Put(fs, path[0], SetPath(OrEmpty(Get(fs, path[0])), path[1..], v)))
  }

  /** `SetPath` applied to the node at `p` (the rest of a walk that has reached `p`). */
  function SetPathAt(t: Json, p: Path, rest: Path, v: Scalar): Json
    requires |rest| >= 1
    decreases |p|
  {
    if |p| == 0 then SetPath(t, rest, v)
    else match t
      case Leaf(_) => t
      case Obj(fs) =>
        match Get(fs, p[0])
        case None => t
        case Some(c) => Obj(Put(fs, p[0], SetPathAt(c, p[1..], rest, v)))
  }

  /** One intermediate step of the walk: `current[k] = current[k] || {}; current = current[k]`. */
  lemma {:induction false} WalkStep(t: Json, p: Path, k: string, rest: Path, v: Scalar)
    requires |rest| >= 1
    ensures SetPathAt(AssignAt(t, p, k, OrEmpty(Lookup(t, p + [k]))), p + [k], rest, v)
         == SetPathAt(t, p, [k] + rest, v)
    decreases |p|
  {
    var x := OrEmpty(Lookup(t, p + [k]));
    match t
    case Leaf(_) =>
    case Obj(fs) =>
      if |p| == 0 {
        assert p + [k] == [k];
        assert Lookup(t, [k]) == Get(fs, k);
        GetPut(fs, k, x, k);
        PutPut(fs, k, x, SetPath(x, rest, v));
        assert ([k] + rest)[1..] == rest;
      } else {
        assert (p + [k])[0] == p[0] && (p + [k])[1..] == p[1..] + [k];
        match Get(fs, p[0])
        case None =>
        case Some(c) =>
          WalkStep(c, p[1..], k, rest, v);
          var c' := AssignAt(c, p[1..], k, x);
          GetPut(fs, p[0], c', p[0]);
          PutPut(fs, p[0], c', SetPathAt(c', p[1..] + [k], rest, v));
      }
  }

  /** Step `i` of the walk along `keys`, with the cursor at `keys[..i]`. */
  lemma WalkAdvance(t: Json, keys: Path, i: nat, v: Scalar)
    requires i + 1 < |keys|
    ensures SetPathAt(AssignAt(t, keys[..i], keys[i], OrEmpty(Lookup(t, keys[..i] + [keys[i]]))), keys[..i + 1], keys[i + 1..], v)
         == SetPathAt(t, keys[..i], keys[i..], v)
  {
    assert keys[..i + 1] == keys[..i] + [keys[i]];
    assert keys[i..] == [keys[i]] + keys[i + 1..];
    WalkStep(t, keys[..i], keys[i], keys[i + 1..], v);
  }

  /** The last step of the walk: `current[k] = value`. */
  lemma {:induction false} WalkLast(t: Json, p: Path, k: string, v: Scalar)
    ensures AssignAt(t, p, k, Leaf(v)) == SetPathAt(t, p, [k], v)
    decreases |p|
  {
    match t
    case Leaf(_) =>
    case Obj(fs) =>
      if |p| > 0 {
        match Get(fs, p[0])
        case None =>
        case Some(c) => WalkLast(c, p[1..], k, v);
      }
  }
}

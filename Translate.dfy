/**
 * frontend/scripts/translate.js: the rows of the first sheet are turned into
 * flat English and Vietnamese catalogs (Vietnamese falling back to English),
 * which `flatToNested` rebuilds into nested catalogs. Reading the workbook and
 * writing the JSON files are left to the caller.
 */
module Translate {
  import opened Wrappers
  import opened Text
  import opened JsObject
  import opened LocaleJson
  import opened TranslationManager
  import TranslationTemplate
  import CatalogRoundTrip

  /** A sheet row as `sheet_to_json` gives it; a blank or missing cell is `Null`. */
  datatype SheetRow = SheetRow(key: Scalar, en: Scalar, vi: Scalar)

  /**
   * `flatToNested(obj)`: for each entry, walk a cursor through all but the last
   * key segment, creating `{}` for missing or falsy steps, then assign the value
   * at the last segment.
   */
  method FlatToNested(obj: Dict<Scalar>) returns (result: Json)
    ensures result == Unflatten(obj)
  {
    result := Obj([]);
    var n := 0;
    while n < |obj|
      invariant 0 <= n <= |obj|
      invariant result == Unflatten(obj[..n])
    {
      var (key, value) := obj[n];
      result := AssignNested(result, Split(key, '.'), value);
      assert obj[..n + 1][..n] == obj[..n];
      n := n + 1;
    }
    assert obj[..n] == obj;
  }

  /**
   * The body of `flatToNested` for one entry: walk a cursor through all but
   * the last of `keys`, creating `{}` for missing or falsy steps, then assign
   * `value` at the last one.
   */
  method AssignNested(root: Json, keys: Path, value: Scalar) returns (result: Json)
    requires |keys| >= 1
    ensures result == SetPath(root, keys, value)
  {
    result := root;
    var current: Path := [];
    var i := 0;
    while i < |keys| - 1
      invariant 0 <= i <= |keys| - 1
      invariant current == keys[..i]
      invariant SetPathAt(result, current, keys[i..], value) == SetPath(root, keys, value)
    {
      WalkAdvance(result, keys, i, value);
      result := AssignAt(result, current, keys[i], OrEmpty(Lookup(result, current + [keys[i]])));
      current := keys[..i + 1];
      i := i + 1;
    }
    WalkLast(result, current, keys[|keys| - 1], value);
    assert keys[i..] == [keys[|keys| - 1]];
    result := AssignAt(result, current, keys[|keys| - 1], Leaf(value));
  }

  /** Row `i` fills key `k`: `row.key && row.en`, with `k` the key as a property name. */
  predicate Fills(data: seq<SheetRow>, i: int, k: string)
  {
    0 <= i < |data| && Truthy(data[i].key) && Truthy(data[i].en) && KeyString(data[i].key) == k
  }

  /** The Vietnamese value stored for a row: `row.vi`, or `row.en` when that is falsy. */
  function ViValue(r: SheetRow): (v: Scalar)
    ensures Truthy(r.vi) ==> v == r.vi
    ensures !Truthy(r.vi) ==> v == r.en
  {
    if Truthy(r.vi) then r.vi else r.en
  }

  /** The `en` object after the first `n` rows. */
  function EnFlat(data: seq<SheetRow>, n: nat): (d: Dict<Scalar>)
    requires n <= |data|
    ensures DistinctKeys(d)
  {
    if n == 0 then []
    else
      var r := data[n - 1];
      var acc := EnFlat(data, n - 1);
      if Truthy(r.key) && Truthy(r.en) then
        PutDistinct(acc, KeyString(r.key), r.en);
        Put(acc, KeyString(r.key), r.en)
      else acc
  }

  /** The `vi` object after the first `n` rows. */
  function ViFlat(data: seq<SheetRow>, n: nat): (d: Dict<Scalar>)
    requires n <= |data|
    ensures DistinctKeys(d)
  {
    if n == 0 then []
    else
      var r := data[n - 1];
      var acc := ViFlat(data, n - 1);
      if Truthy(r.key) && Truthy(r.en) then
        PutDistinct(acc, KeyString(r.key), ViValue(r));
        Put(acc, KeyString(r.key), ViValue(r))
      else acc
  }

  /**
   * Neither object ever holds a falsy value: a row stores only with a truthy
   * `en`, and a falsy `vi` is replaced by that `en`.
   */
  lemma {:induction false} StoredTruthy(data: seq<SheetRow>, n: nat)
    requires n <= |data|
    ensures forall i :: 0 <= i < |EnFlat(data, n)| ==> Truthy(EnFlat(data, n)[i].1)
    ensures forall i :: 0 <= i < |ViFlat(data, n)| ==> Truthy(ViFlat(data, n)[i].1)
  {
    if n > 0 {
      StoredTruthy(data, n - 1);
      var r := data[n - 1];
      if Truthy(r.key) && Truthy(r.en) {
        PutValues(EnFlat(data, n - 1), KeyString(r.key), r.en, Truthy);
        PutValues(ViFlat(data, n - 1), KeyString(r.key), ViValue(r), Truthy);
      }
    }
  }

  /**
   * The `forEach` over the rows: the flat `en` and `vi` objects, and the keys
   * warned about (a filled row with a falsy `vi`), in row order.
   */
  method FillTranslations(data: seq<SheetRow>) returns (en: Dict<Scalar>, vi: Dict<Scalar>, warned: seq<string>)
    ensures en == EnFlat(data, |data|) && vi == ViFlat(data, |data|)
    ensures forall k :: k in warned <==> exists i :: Fills(data, i, k) && !Truthy(data[i].vi)
  {
    en, vi, warned := [], [], [];
    var n := 0;
    while n < |data|
      invariant 0 <= n <= |data|
      invariant en == EnFlat(data, n) && vi == ViFlat(data, n)
      invariant forall k :: k in warned <==> exists i :: 0 <= i < n && Fills(data, i, k) && !Truthy(data[i].vi)
    {
      var row := data[n];
      if Truthy(row.key) && Truthy(row.en) {
        en := Put(en, KeyString(row.key), row.en);
        if Truthy(row.vi) {
          vi := Put(vi, KeyString(row.key), row.vi);
        } else {
          vi := Put(vi, KeyString(row.key), row.en);
          warned := warned + [KeyString(row.key)];
        }
      }
      assert forall k :: Fills(data, n, k) ==> k == KeyString(row.key);
      n := n + 1;
    }
  }

  /** `processTranslations` once the sheet is read: the nested catalogs it writes. */
  method ProcessTranslations(data: seq<SheetRow>) returns (enNested: Json, viNested: Json)
    ensures enNested == Unflatten(EnFlat(data, |data|))
    ensures viNested == Unflatten(ViFlat(data, |data|))
  {
    var en, vi, warned := FillTranslations(data);
    enNested := FlatToNested(en);
    viNested := FlatToNested(vi);
  }

  /** Both flat objects get the same keys, in the same order. */
  lemma {:induction false} SameKeys(data: seq<SheetRow>, n: nat)
    requires n <= |data|
    ensures Keys(EnFlat(data, n)) == Keys(ViFlat(data, n))
  {
    if n > 0 {
      SameKeys(data, n - 1);
      var r := data[n - 1];
      var en, vi := EnFlat(data, n - 1), ViFlat(data, n - 1);
      if Truthy(r.key) && Truthy(r.en) {
        var k := KeyString(r.key);
        KeysPutSame(en, vi, k, r.en, ViValue(r));
        assert EnFlat(data, n) == Put(en, k, r.en);
        assert ViFlat(data, n) == Put(vi, k, ViValue(r));
      } else {
        assert EnFlat(data, n) == en && ViFlat(data, n) == vi;
      }
    }
  }

  /** One row: a filling row overwrites its key in both objects, nothing else changes. */
  lemma FillStep(data: seq<SheetRow>, n: nat, k: string)
    requires 0 < n <= |data|
    ensures Get(EnFlat(data, n), k) == if Fills(data, n - 1, k) then Some(data[n - 1].en) else Get(EnFlat(data, n - 1), k)
    ensures Get(ViFlat(data, n), k) == if Fills(data, n - 1, k) then Some(ViValue(data[n - 1])) else Get(ViFlat(data, n - 1), k)
  {
    var r := data[n - 1];
    if Truthy(r.key) && Truthy(r.en) {
      GetPut(EnFlat(data, n - 1), KeyString(r.key), r.en, k);
      GetPut(ViFlat(data, n - 1), KeyString(r.key), ViValue(r), k);
    }
  }

  /** The English half of `FillStep`, as a presence test. */
  lemma EnStep(data: seq<SheetRow>, n: nat, k: string)
    requires 0 < n <= |data|
    ensures Get(EnFlat(data, n), k).Some? <==> Fills(data, n - 1, k) || Get(EnFlat(data, n - 1), k).Some?
  {
    FillStep(data, n, k);
  }

  /** Some row below `n` fills `k`. */
  ghost predicate FilledBelow(data: seq<SheetRow>, n: nat, k: string)
  {
    exists i :: 0 <= i < n && Fills(data, i, k)
  }

  /** A key is present exactly when some row fills it. */
  lemma {:induction false} FilledKeys(data: seq<SheetRow>, n: nat, k: string)
    requires n <= |data|
    ensures Get(EnFlat(data, n), k).Some? <==> FilledBelow(data, n, k)
  {
    if n > 0 {
      FilledKeys(data, n - 1, k);
      EnStep(data, n, k);
      SomeRowFills(data, n, k);
    }
  }

  /** Some row below `n` fills `k` exactly when row `n - 1` does or some row below `n - 1` does. */
  lemma SomeRowFills(data: seq<SheetRow>, n: nat, k: string)
    requires 0 < n
    ensures FilledBelow(data, n, k) <==> Fills(data, n - 1, k) || FilledBelow(data, n - 1, k)
  {
    if !Fills(data, n - 1, k) && FilledBelow(data, n, k) {
      var i :| 0 <= i < n && Fills(data, i, k);
      assert i < n - 1;
    }
  }

  /** For a key filled by several rows, the last of them wins in both objects. */
  lemma {:induction false} LastRowWins(data: seq<SheetRow>, n: nat, k: string, i: nat)
    requires n <= |data| && i < n && Fills(data, i, k)
    requires forall j :: i < j < n ==> !Fills(data, j, k)
    ensures Get(EnFlat(data, n), k) == Some(data[i].en)
    ensures Get(ViFlat(data, n), k) == Some(ViValue(data[i]))
  {
    FillStep(data, n, k);
    if i < n - 1 {
      LastRowWins(data, n - 1, k, i);
    }
  }

  /** The template rows as `translate.js` reads them back from the sheet. */
  function TemplateSheet(rows: seq<TranslationTemplate.TemplateRow>): (data: seq<SheetRow>)
    ensures |data| == |rows|
    ensures forall i :: 0 <= i < |rows| ==> data[i] == SheetRow(Str(rows[i].key), rows[i].en, rows[i].vi)
  {
    seq(|rows|, i requires 0 <= i < |rows| => SheetRow(Str(rows[i].key), rows[i].en, rows[i].vi))
  }

  /** Rows with distinct, non-empty keys and truthy English values fill `en` with exactly those entries. */
  lemma {:induction false} EnFlatOfDistinct(flat: Dict<Scalar>, data: seq<SheetRow>, n: nat)
    requires n <= |data| == |flat| && DistinctKeys(flat)
    requires forall i :: 0 <= i < |flat| ==> data[i].key == Str(flat[i].0) && data[i].en == flat[i].1
    requires forall i :: 0 <= i < |flat| ==> flat[i].0 != "" && Truthy(flat[i].1)
    ensures EnFlat(data, n) == flat[..n]
  {
    if n > 0 {
      EnFlatOfDistinct(flat, data, n - 1);
      assert flat[n - 1].0 !in Keys(flat[..n - 1]);
      PutNew(flat[..n - 1], flat[n - 1].0, flat[n - 1].1);
      assert flat[..n] == flat[..n - 1] + [flat[n - 1]];
    }
  }

  /**
   * The English half of the template pipeline: template rows for `enCatalog`,
   * read back by `translate.js`, rebuild `enCatalog` itself, when keys are
   * plain, no nested object is empty and no leaf is falsy.
   */
  lemma TemplatePipeline(en: Dict<Json>, vi: Dict<Json>)
    requires KeysOk(Obj(en)) && NoEmptyObjects(Obj(en)) && CatalogRoundTrip.TruthyLeaves(Obj(en))
    ensures var data := TemplateSheet(TranslationTemplate.TemplateRows(en, vi));
      Unflatten(EnFlat(data, |data|)) == Obj(en)
  {
    var flat := FlatCatalog(en);
    CatalogRoundTrip.FlatCatalogFacts(en);
    TranslationTemplate.RowsFollowEnglish(en, vi);
    var rows := TranslationTemplate.TemplateRows(en, vi);
    var data := TemplateSheet(rows);
    forall i | 0 <= i < |flat| ensures data[i].key == Str(flat[i].0) && data[i].en == flat[i].1 {
      assert rows[i].key == flat[i].0;
      GetIn(flat, i);
    }
    EnFlatOfDistinct(flat, data, |data|);
    assert flat[..|data|] == flat;
    CatalogRoundTrip.UnflattenFlatten(Obj(en));
  }
}

/**
 * frontend/scripts/create-translation-template.js: the template rows built
 * from the English and Vietnamese catalogs. The script has its own copy of
 * `flattenObject`; it is modelled separately and proved to agree with the one
 * of translation-manager.js.
 */
module TranslationTemplate {
  import opened Wrappers
  import opened JsObject
  import opened LocaleJson
  import TranslationManager

  /**
   * This script's `flattenObject`, reduced over the first `n` keys of `o`. It
   * gives what the copy in translation-manager.js gives, on every object and
   * prefix.
   */
  function TemplateFlatten(o: Json, n: nat, prefix: string): (r: Dict<Scalar>)
    requires o.Obj? && n <= |o.fields|
    ensures r == TranslationManager.FlattenFields(o, n, prefix)
    decreases o, n
  {
    if n == 0 then []
    else
      var acc := TemplateFlatten(o, n - 1, prefix);
      var (k, c) := o.fields[n - 1];
      var pre := if |prefix| > 0 then prefix + "." else "";
      if c.Obj? then Assign(acc, TemplateFlatten(c, |c.fields|, pre + k))
      else Put(acc, pre + k, c.value)
  }

  /** One template row `{ key, en, vi }`. */
  datatype TemplateRow = TemplateRow(key: string, en: Scalar, vi: Scalar)

  /** `a || b` on two property reads. */
  function Or(a: Option<Scalar>, b: Scalar): Scalar
  {
    if a.Some? && Truthy(a.value) then a.value else b
  }

  /** `Object.keys(flatEn).map(key => ({ key, en: flatEn[key], vi: flatVi[key] || flatEn[key] }))`. */
  function TemplateRows(en: Dict<Json>, vi: Dict<Json>): (rows: seq<TemplateRow>)
    ensures |rows| == |TemplateFlatten(Obj(en), |en|, "")|
    // each row carries the English value of its key
    ensures forall i :: 0 <= i < |rows| ==> Get(TemplateFlatten(Obj(en), |en|, ""), rows[i].key) == Some(rows[i].en)
    // the Vietnamese cell is the Vietnamese value when that is truthy, and the English value otherwise
    ensures forall i :: 0 <= i < |rows| ==>
      var v := Get(TemplateFlatten(Obj(vi), |vi|, ""), rows[i].key);
      (v.Some? && Truthy(v.value) ==> rows[i].vi == v.value) && (!(v.Some? && Truthy(v.value)) ==> rows[i].vi == rows[i].en)
    // a Vietnamese cell is falsy only where the English value is, and is then that value
    ensures forall i :: 0 <= i < |rows| && !Truthy(rows[i].vi) ==> !Truthy(rows[i].en) && rows[i].vi == rows[i].en
  {
    var flatEn := TemplateFlatten(Obj(en), |en|, "");
    var flatVi := TemplateFlatten(Obj(vi), |vi|, "");
    EntriesFound(flatEn);
    seq(|flatEn|, i requires 0 <= i < |flatEn| => TemplateRow(flatEn[i].0, flatEn[i].1, Or(Get(flatVi, flatEn[i].0), flatEn[i].1)))
  }

  /** In an object with distinct keys, each entry is what its key reads. */
  lemma EntriesFound<V>(d: Dict<V>)
    requires DistinctKeys(d)
    ensures forall i :: 0 <= i < |d| ==> Get(d, d[i].0) == Some(d[i].1)
  {
    forall i | 0 <= i < |d| ensures Get(d, d[i].0) == Some(d[i].1) {
      GetIn(d, i);
    }
  }

  /**
   * The rows are the English keys, once each and in English order; a key only
   * the Vietnamese catalog has gets no row.
   */
  lemma RowsFollowEnglish(en: Dict<Json>, vi: Dict<Json>)
    ensures |TemplateRows(en, vi)| == |TranslationManager.FlatCatalog(en)|
    ensures forall i :: 0 <= i < |TemplateRows(en, vi)| ==> TemplateRows(en, vi)[i].key == Keys(TranslationManager.FlatCatalog(en))[i]
    ensures forall i, j :: 0 <= i < j < |TemplateRows(en, vi)| ==> TemplateRows(en, vi)[i].key != TemplateRows(en, vi)[j].key
    ensures forall k :: (exists i :: 0 <= i < |TemplateRows(en, vi)| && TemplateRows(en, vi)[i].key == k) <==>
      k in Keys(TranslationManager.FlatCatalog(en))
  {
    var rows := TemplateRows(en, vi);
    var flatEn := TranslationManager.FlatCatalog(en);
    forall k ensures (exists i :: 0 <= i < |rows| && rows[i].key == k) <==> k in Keys(flatEn) {
      if k in Keys(flatEn) {
        var i :| 0 <= i < |flatEn| && Keys(flatEn)[i] == k;
        assert rows[i].key == k;
      }
    }
  }

  /** The Vietnamese cell is the Vietnamese value when truthy, and otherwise the English value. */
  lemma ViFallback(en: Dict<Json>, vi: Dict<Json>, i: nat)
    requires i < |TemplateRows(en, vi)|
    ensures var r := TemplateRows(en, vi)[i];
      var v := Get(TranslationManager.FlatCatalog(vi), r.key);
      (v.Some? && Truthy(v.value) ==> r.vi == v.value) &&
      (!(v.Some? && Truthy(v.value)) ==> r.vi == r.en)
  {
  }
}

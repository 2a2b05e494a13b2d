/**
 * The locale-catalog tooling of frontend/scripts/translation-manager.js:
 * flattening a nested catalog into dotted keys and back, the spreadsheet rows
 * of `generate`, the row collection and shallow merge of `import`, and the
 * missing-key report of `validate`. File and spreadsheet I/O are left to the
 * caller: catalogs and sheet rows come in and go out as values.
 */
module TranslationManager {
  import opened Wrappers
  import opened Text
  import opened JsObject
  import opened LocaleJson

  /** The configured locales, English first. */
  const LOCALES: seq<string> := ["en", "vi"]

  // ---------------------------------------------------------------------------
  // flattenObject / unflattenObject
  // ---------------------------------------------------------------------------

  /**
   * `flattenObject` reduced over the first `n` keys of `o`: a nested object is
   * flattened under the longer prefix and `Object.assign`-ed in, any other value
   * is stored under `prefix.key` (just `key` for the empty prefix).
   */
  function FlattenFields(o: Json, n: nat, prefix: string): (r: Dict<Scalar>)
    requires o.Obj? && n <= |o.fields|
    ensures DistinctKeys(r)
    decreases o, n
  {
    if n == 0 then []
    else
      var acc := FlattenFields(o, n - 1, prefix);
      var (k, c) := o.fields[n - 1];
      var pre := if |prefix| > 0 then prefix + "." else "";
      match c
      case Obj(cfs) =>
        AssignDistinct(acc, FlattenFields(c, |cfs|, pre + k));
        Assign(acc, FlattenFields(c, |cfs|, pre + k))
      case Leaf(v) =>
        PutDistinct(acc, pre + k, v);
        Put(acc, pre + k, v)
  }

  /** `flattenObject(obj, prefix)`: an object with each key at most once. */
  function FlattenObject(o: Json, prefix: string): (r: Dict<Scalar>)
    requires o.Obj?
    ensures DistinctKeys(r)
  {
    FlattenFields(o, |o.fields|, prefix)
  }

  /**
   * What `unflattenObject` builds: every entry, in order, stored at the path
   * obtained by splitting its key on `.`.
   */
  function Unflatten(d: Dict<Scalar>): (r: Json)
    ensures r.Obj?
  {
    if |d| == 0 then Obj([])
    else SetPath(Unflatten(d[..|d| - 1]), Split(d[|d| - 1].0, '.'), d[|d| - 1].1)
  }

  /**
   * `unflattenObject(obj)`: for each key, walk a cursor from the root, creating
   * `{}` for missing or falsy steps, and assign the value at the last step.
   */
  method UnflattenObject(obj: Dict<Scalar>) returns (result: Json)
    ensures result == Unflatten(obj)
  {
    result := Obj([]);
    var n := 0;
    while n < |obj|
      invariant 0 <= n <= |obj|
      invariant result == Unflatten(obj[..n])
    {
      var (key, value) := obj[n];
      result := AssignPath(result, Split(key, '.'), value);
      assert obj[..n + 1][..n] == obj[..n];
      n := n + 1;
    }
    assert obj[..n] == obj;
  }

  /**
   * The inner loop of `unflattenObject` for one entry: walk a cursor from the
   * root along `keys`, creating `{}` for missing or falsy steps, and assign
   * `value` at the last step.
   */
  method AssignPath(root: Json, keys: Path, value: Scalar) returns (result: Json)
    requires |keys| >= 1
    ensures result == SetPath(root, keys, value)
  {
    result := root;
    var current: Path := [];
    var i := 0;
    while i < |keys|
      invariant 0 <= i <= |keys|
      invariant i < |keys| ==> current == keys[..i] && SetPathAt(result, current, keys[i..], value) == SetPath(root, keys, value)
      invariant i == |keys| ==> result == SetPath(root, keys, value)
    {
      var k := keys[i];
      if i == |keys| - 1 {
        WalkLast(result, current, k, value);
        assert keys[i..] == [k];
        result := AssignAt(result, current, k, Leaf(value));
      } else {
        WalkAdvance(result, keys, i, value);
        result := AssignAt(result, current, k, OrEmpty(Lookup(result, current + [k])));
        current := keys[..i + 1];
      }
      i := i + 1;
    }
  }

  /** The top-level entries of the rebuilt object (`{...unflattenObject(d)}`). */
  function UnflattenFields(d: Dict<Scalar>): Dict<Json>
  {
    match Unflatten(d)
    case Obj(fs) => fs
    case Leaf(_) => []
  }

  /** The top-level sections of the rebuilt object are exactly the first segments of the keys. */
  lemma {:induction false} UnflattenTopKeys(d: Dict<Scalar>, s: string)
    ensures s in Keys(UnflattenFields(d)) <==> exists i :: 0 <= i < |d| && Split(d[i].0, '.')[0] == s
  {
    if |d| > 0 {
      UnflattenTopKeys(d[..|d| - 1], s);
      TopKeyStep(d, s);
      FirstSegmentBelow(d, s);
    }
  }

  /** Storing the last entry adds its first segment to the top-level sections and drops none. */
  lemma TopKeyStep(d: Dict<Scalar>, s: string)
    requires |d| > 0
    ensures s in Keys(UnflattenFields(d)) <==>
      s in Keys(UnflattenFields(d[..|d| - 1])) || Split(d[|d| - 1].0, '.')[0] == s
  {
    var d' := d[..|d| - 1];
    var p := Split(d[|d| - 1].0, '.');
    var fs := Unflatten(d').fields;
    if |p| == 1 {
      KeysPut(fs, p[0], Leaf(d[|d| - 1].1));
    } else {
      KeysPut(fs, p[0], SetPath(OrEmpty(Get(fs, p[0])), p[1..], d[|d| - 1].1));
    }
  }

  /** Some key of `d` has first segment `s`. */
  ghost predicate SomeFirstSegment(d: Dict<Scalar>, s: string)
  {
    exists i :: 0 <= i < |d| && Split(d[i].0, '.')[0] == s
  }

  /** Some entry has first segment `s` exactly when the last one does or one before it does. */
  lemma FirstSegmentBelow(d: Dict<Scalar>, s: string)
    requires |d| > 0
    ensures SomeFirstSegment(d, s) <==> Split(d[|d| - 1].0, '.')[0] == s || SomeFirstSegment(d[..|d| - 1], s)
  {
    var d' := d[..|d| - 1];
    if exists i :: 0 <= i < |d| && Split(d[i].0, '.')[0] == s {
      var i :| 0 <= i < |d| && Split(d[i].0, '.')[0] == s;
      if i < |d| - 1 {
        assert d'[i] == d[i];
      }
    }
    if exists i :: 0 <= i < |d'| && Split(d'[i].0, '.')[0] == s {
      var i :| 0 <= i < |d'| && Split(d'[i].0, '.')[0] == s;
      assert d[i] == d'[i];
    }
  }

  // ---------------------------------------------------------------------------
  // generateExcel
  // ---------------------------------------------------------------------------

  /** The flattened form of a catalog file (a JSON object). */
  function FlatCatalog(cat: Dict<Json>): Dict<Scalar>
  {
    FlattenObject(Obj(cat), "")
  }

  /** `['Key', 'Context', ...LOCALES]`. */
  function HeaderRow(): seq<Scalar>
  {
    [Str("Key"), Str("Context")] + seq(|LOCALES|, j requires 0 <= j < |LOCALES| => Str(LOCALES[j]))
  }

  /** `x || ''` for a property read `x`. */
  function OrBlank(x: Option<Scalar>): (r: Scalar)
    ensures Truthy(r) ==> x == Some(r)
    ensures x.Some? && Truthy(x.value) ==> r == x.value
    ensures !Truthy(r) ==> r == Str("")
  {
    if x.Some? && Truthy(x.value) then x.value else Str("")
  }

  /**
   * A translation row of the sheet for `key`: the key, an empty context, then
   * per locale that locale's flattened value for `key`, or `''` when it is
   * missing or falsy.
   */
  predicate SheetRow(files: map<string, Dict<Json>>, key: string, row: seq<Scalar>)
  {
    |row| == 2 + |LOCALES| && row[0] == Str(key) && row[1] == Str("") &&
    forall j :: 0 <= j < |LOCALES| ==>
      LOCALES[j] in files && row[2 + j] == OrBlank(Get(FlatCatalog(files[LOCALES[j]]), key))
  }

  /**
   * `generateExcel` for the one namespace: the rows of the sheet, or `None`
   * when a catalog file it reads is missing (the script exits with status 1).
   * `files` maps a locale to its parsed `common.json`.
   */
  method GenerateExcel(files: map<string, Dict<Json>>) returns (data: Option<seq<seq<Scalar>>>)
    ensures "en" !in files ==> data.None?
    ensures "en" in files ==>
      (data.None? <==> |FlatCatalog(files["en"])| > 0 && exists l :: l in LOCALES && l !in files)
    ensures data.Some? ==>
      |data.value| == |FlatCatalog(files["en"])| + 1 && data.value[0] == HeaderRow() &&
      forall i :: 1 <= i < |data.value| ==> SheetRow(files, FlatCatalog(files["en"])[i - 1].0, data.value[i])
  {
    if "en" !in files {
      return None;
    }
    var flattenedEn := FlatCatalog(files["en"]);
    var rows: seq<seq<Scalar>> := [HeaderRow()];
    var n := 0;
    while n < |flattenedEn|
      invariant 0 <= n <= |flattenedEn|
      invariant |rows| == n + 1 && rows[0] == HeaderRow()
      invariant n > 0 ==> forall l :: l in LOCALES ==> l in files
      invariant forall i :: 1 <= i <= n ==> SheetRow(files, flattenedEn[i - 1].0, rows[i])
    {
      var key := flattenedEn[n].0;
      var row := BuildRow(files, key);
      if row.None? {
        return None;
      }
      rows := rows + [row.value];
      n := n + 1;
    }
    assert !(|flattenedEn| > 0 && exists l :: l in LOCALES && l !in files);
    return Some(rows);
  }

  /** The inner loop of `generateExcel`: the row for `key`, or `None` when a locale's catalog file is missing. */
  method BuildRow(files: map<string, Dict<Json>>, key: string) returns (row: Option<seq<Scalar>>)
    ensures row.None? <==> exists l :: l in LOCALES && l !in files
    ensures row.Some? ==> SheetRow(files, key, row.value)
  {
    var r := [Str(key), Str("")];
    var j := 0;
    while j < |LOCALES|
      invariant 0 <= j <= |LOCALES|
      invariant |r| == 2 + j && r[0] == Str(key) && r[1] == Str("")
      invariant forall j' :: 0 <= j' < j ==>
        LOCALES[j'] in files && r[2 + j'] == OrBlank(Get(FlatCatalog(files[LOCALES[j']]), key))
    {
      var locale := LOCALES[j];
      if locale !in files {
        return None;
      }
      var flattenedLocale := FlatCatalog(files[locale]);
      r := r + [OrBlank(Get(flattenedLocale, key))];
      j := j + 1;
    }
    assert forall l :: l in LOCALES ==> l in files by {
      forall l | l in LOCALES ensures l in files {
        var j' :| 0 <= j' < |LOCALES| && LOCALES[j'] == l;
      }
    }
    return Some(r);
  }

  /** In a sheet shaped as `GenerateExcel` promises, no two translation rows share a key in column 0. */
  lemma SheetKeysDistinct(files: map<string, Dict<Json>>, data: seq<seq<Scalar>>)
    requires "en" in files && |data| == |FlatCatalog(files["en"])| + 1
    requires forall i :: 1 <= i < |data| ==> SheetRow(files, FlatCatalog(files["en"])[i - 1].0, data[i])
    ensures forall i, j :: 1 <= i < j < |data| ==> |data[i]| > 0 && |data[j]| > 0 && data[i][0] != data[j][0]
  {
    var flat := FlatCatalog(files["en"]);
    forall i, j | 1 <= i < j < |data| ensures |data[i]| > 0 && |data[j]| > 0 && data[i][0] != data[j][0] {
      assert SheetRow(files, flat[i - 1].0, data[i]) && SheetRow(files, flat[j - 1].0, data[j]);
      assert flat[i - 1].0 != flat[j - 1].0;
    }
  }

  // ---------------------------------------------------------------------------
  // importFromExcel
  // ---------------------------------------------------------------------------

  /** `row[i]`, with `undefined` (here `Null`) past the end of the row. */
  function CellAt(row: seq<Scalar>, i: nat): Scalar
  {
    if i < |row| then row[i] else Null
  }

  /** `s.indexOf(x)`: the first position of `x`, or -1. */
  function IndexOf(s: seq<Scalar>, x: Scalar): (r: int)
    ensures -1 <= r < |s|
    ensures r == -1 <==> x !in s
    ensures r >= 0 ==> s[r] == x && x !in s[..r]
  {
    if |s| == 0 then -1
    else if s[0] == x then 0
    else
      var r := IndexOf(s[1..], x);
      assert r >= 0 ==> s[..r + 1] == [s[0]] + s[1..][..r];
      if r == -1 then -1 else r + 1
  }

  /** Row `i` of the sheet (not the header) carries a translation for `k` in column `col`. */
  predicate Contributes(data: seq<seq<Scalar>>, col: nat, i: nat, k: string)
  {
    1 <= i < |data| && Truthy(CellAt(data[i], 0)) && Truthy(CellAt(data[i], col)) &&
    KeyString(CellAt(data[i], 0)) == k
  }

  /** `newTranslations` after the rows before `n`: `if (key && translation) newTranslations[key] = translation`. */
  function Collected(data: seq<seq<Scalar>>, col: nat, n: nat): (r: Dict<Scalar>)
    requires n <= |data|
    ensures DistinctKeys(r)
    // a falsy cell is never collected
    ensures forall i :: 0 <= i < |r| ==> Truthy(r[i].1)
  {
    if n <= 1 then []
    else
      var acc := Collected(data, col, n - 1);
      var key := CellAt(data[n - 1], 0);
      var translation := CellAt(data[n - 1], col);
      if Truthy(key) && Truthy(translation) then
        PutDistinct(acc, KeyString(key), translation);
        PutValues(acc, KeyString(key), translation, Truthy);
        Put(acc, KeyString(key), translation)
      else acc
  }

  /** One row of the collection loop: a contributing row overwrites its key, nothing else changes. */
  lemma CollectedStep(data: seq<seq<Scalar>>, col: nat, n: nat, k: string)
    requires 1 < n <= |data|
    ensures Get(Collected(data, col, n), k) ==
      if Contributes(data, col, n - 1, k) then Some(CellAt(data[n - 1], col)) else Get(Collected(data, col, n - 1), k)
  {
    var key := CellAt(data[n - 1], 0);
    var translation := CellAt(data[n - 1], col);
    if Truthy(key) && Truthy(translation) {
      GetPut(Collected(data, col, n - 1), KeyString(key), translation, k);
    }
  }

  /** A key is collected exactly when some row contributes it. */
  lemma {:induction false} CollectedKeys(data: seq<seq<Scalar>>, col: nat, n: nat, k: string)
    requires n <= |data|
    ensures Get(Collected(data, col, n), k).Some? <==> exists i :: 0 <= i < n && Contributes(data, col, i, k)
  {
    if n > 1 {
      CollectedKeys(data, col, n - 1, k);
      CollectedStep(data, col, n, k);
      SomeRowBelow(data, col, n, k);
    }
  }

  /** Some row below `n` contributes `k` exactly when row `n - 1` does or some row below `n - 1` does. */
  lemma SomeRowBelow(data: seq<seq<Scalar>>, col: nat, n: nat, k: string)
    requires 0 < n
    ensures (exists i :: 0 <= i < n && Contributes(data, col, i, k)) <==>
      Contributes(data, col, n - 1, k) || exists i :: 0 <= i < n - 1 && Contributes(data, col, i, k)
  {
    if exists i :: 0 <= i < n && Contributes(data, col, i, k) {
      var i :| 0 <= i < n && Contributes(data, col, i, k);
      if i < n - 1 {
      }
    }
  }

  /** The last contributing row for a key wins. */
  lemma {:induction false} CollectedLastWins(data: seq<seq<Scalar>>, col: nat, n: nat, k: string, i: nat)
    requires n <= |data| && i < n && Contributes(data, col, i, k)
    requires forall j :: i < j < n ==> !Contributes(data, col, j, k)
    ensures Get(Collected(data, col, n), k) == Some(CellAt(data[i], col))
  {
    CollectedStep(data, col, n, k);
    if i < n - 1 {
      CollectedLastWins(data, col, n - 1, k, i);
    }
  }

  /** The loop of `importFromExcel` that fills `newTranslations` from column `col`. */
  method CollectTranslations(data: seq<seq<Scalar>>, col: nat) returns (newTranslations: Dict<Scalar>)
    ensures newTranslations == Collected(data, col, |data|)
  {
    newTranslations := [];
    var i := 1;
    while i < |data|
      invariant 1 <= i <= |data| || (|data| == 0 && i == 1)
      invariant newTranslations == Collected(data, col, if |data| == 0 then 0 else i)
    {
      var row := data[i];
      var key := CellAt(row, 0);
      var translation := CellAt(row, col);
      if Truthy(key) && Truthy(translation) {
        newTranslations := Put(newTranslations, KeyString(key), translation);
      }
      i := i + 1;
    }
  }

  /** `{ ...existing, ...unflattenObject(collected) }`: the existing sections and the rebuilt ones, nothing else. */
  function Merge(existing: Dict<Json>, collected: Dict<Scalar>): (r: Dict<Json>)
    ensures forall s :: s in Keys(r) <==> s in Keys(existing) || s in Keys(UnflattenFields(collected))
  {
    forall s ensures s in Keys(Assign(existing, UnflattenFields(collected))) <==>
                     s in Keys(existing) || s in Keys(UnflattenFields(collected)) {
      KeysAssign(existing, UnflattenFields(collected), s);
    }
    Assign(existing, UnflattenFields(collected))
  }

  lemma {:induction false} UnflattenDistinct(d: Dict<Scalar>)
    ensures DistinctKeys(UnflattenFields(d))
  {
    if |d| > 0 {
      var d' := d[..|d| - 1];
      UnflattenDistinct(d');
      var p := Split(d[|d| - 1].0, '.');
      var fs := Unflatten(d').fields;
      if |p| == 1 {
        PutDistinct(fs, p[0], Leaf(d[|d| - 1].1));
      } else {
        PutDistinct(fs, p[0], SetPath(OrEmpty(Get(fs, p[0])), p[1..], d[|d| - 1].1));
      }
    }
  }

  /**
   * The merge is shallow: a top-level section named by the first segment of
   * some collected key is replaced whole by the rebuilt section; every other
   * section of the existing catalog is kept as it was.
   */
  lemma MergeShallow(existing: Dict<Json>, collected: Dict<Scalar>, s: string)
    ensures (exists i :: 0 <= i < |collected| && Split(collected[i].0, '.')[0] == s) ==>
      Get(Merge(existing, collected), s) == Get(UnflattenFields(collected), s)
    ensures (forall i :: 0 <= i < |collected| ==> Split(collected[i].0, '.')[0] != s) ==>
      Get(Merge(existing, collected), s) == Get(existing, s)
  {
    UnflattenDistinct(collected);
    UnflattenTopKeys(collected, s);
    GetAssign(existing, UnflattenFields(collected), s);
  }

  /** What `importFromExcel` leaves in the catalog files, and whether it finished without error. */
  datatype ImportOutcome = ImportOutcome(files: map<string, Dict<Json>>, ok: bool)

  /** The import of the locales `ls`, in order, from a sheet with a header row. */
  function ImportLocales(files: map<string, Dict<Json>>, data: seq<seq<Scalar>>, ls: seq<string>): (r: ImportOutcome)
    requires |data| > 0
    // catalogs are rewritten, never added or removed
    ensures r.files.Keys == files.Keys
    // the import fails exactly when a locale the header names past column 0 has no catalog file
    ensures r.ok <==> forall i :: 0 <= i < |ls| && IndexOf(data[0], Str(ls[i])) > 0 ==> ls[i] in files
  {
    if |ls| == 0 then ImportOutcome(files, true)
    else
      var idx := IndexOf(data[0], Str(ls[0]));
      HeaderCoveredStep(files.Keys, data[0], ls);
      if idx <= 0 then ImportLocales(files, data, ls[1..])
      else if ls[0] !in files then ImportOutcome(files, false)
      else
        var files' := files[ls[0] := Merge(files[ls[0]], Collected(data, idx, |data|))];
        assert files'.Keys == files.Keys;
        ImportLocales(files', data, ls[1..])
  }

  /** Every locale of `ls` that `header` names past column 0 is in `names`, split at the first locale. */
  lemma HeaderCoveredStep(names: set<string>, header: seq<Scalar>, ls: seq<string>)
    requires |ls| > 0
    ensures (forall i :: 0 <= i < |ls| && IndexOf(header, Str(ls[i])) > 0 ==> ls[i] in names) <==>
            (IndexOf(header, Str(ls[0])) > 0 ==> ls[0] in names) &&
            (forall i :: 0 <= i < |ls[1..]| && IndexOf(header, Str(ls[1..][i])) > 0 ==> ls[1..][i] in names)
  {
    if forall i :: 0 <= i < |ls[1..]| && IndexOf(header, Str(ls[1..][i])) > 0 ==> ls[1..][i] in names {
      forall i | 0 < i < |ls| && IndexOf(header, Str(ls[i])) > 0 ensures ls[i] in names {
        assert ls[i] == ls[1..][i - 1];
      }
    }
  }

  /** A catalog of a locale outside `ls`, or one the header does not name past column 0, is never touched. */
  lemma {:induction false} ImportUntouched(files: map<string, Dict<Json>>, data: seq<seq<Scalar>>, ls: seq<string>, l: string)
    requires |data| > 0
    requires l !in ls || IndexOf(data[0], Str(l)) <= 0
    ensures l in ImportLocales(files, data, ls).files <==> l in files
    ensures l in files ==> ImportLocales(files, data, ls).files[l] == files[l]
  {
    if |ls| > 0 {
      var idx := IndexOf(data[0], Str(ls[0]));
      if idx <= 0 {
        ImportUntouched(files, data, ls[1..], l);
      } else if ls[0] in files {
        assert ls[0] != l;
        ImportUntouched(files[ls[0] := Merge(files[ls[0]], Collected(data, idx, |data|))], data, ls[1..], l);
      }
    }
  }

  /** A successful import leaves each named locale's catalog merged with that locale's column. */
  lemma {:induction false} ImportMerges(files: map<string, Dict<Json>>, data: seq<seq<Scalar>>, ls: seq<string>, l: string)
    requires |data| > 0 && l in ls && IndexOf(data[0], Str(l)) > 0
    requires forall i, j :: 0 <= i < j < |ls| ==> ls[i] != ls[j]
    requires ImportLocales(files, data, ls).ok
    ensures l in files && l in ImportLocales(files, data, ls).files
    ensures ImportLocales(files, data, ls).files[l] == Merge(files[l], Collected(data, IndexOf(data[0], Str(l)), |data|))
  {
    var idx := IndexOf(data[0], Str(ls[0]));
    assert forall i, j :: 0 <= i < j < |ls[1..]| ==> ls[1..][i] != ls[1..][j] by {
      forall i, j | 0 <= i < j < |ls[1..]| ensures ls[1..][i] != ls[1..][j] {
        assert ls[1..][i] == ls[i + 1] && ls[1..][j] == ls[j + 1];
      }
    }
    if ls[0] == l {
      assert l !in ls[1..];
      ImportUntouched(files[l := Merge(files[l], Collected(data, idx, |data|))], data, ls[1..], l);
    } else {
      assert l in ls[1..];
      if idx <= 0 {
        ImportMerges(files, data, ls[1..], l);
      } else {
        ImportMerges(files[ls[0] := Merge(files[ls[0]], Collected(data, idx, |data|))], data, ls[1..], l);
      }
    }
  }

  /** The locale catalog files of the one namespace, as the import rewrites them. */
  class LocaleFiles {
    var files: map<string, Dict<Json>>

    constructor (initial: map<string, Dict<Json>>)
      ensures files == initial
    {
      files := initial;
    }

    /**
     * `importFromExcel`: `sheet` is the namespace's worksheet as rows (`None`
     * when the workbook has none). `ok` is false where the script exits with
     * status 1: an empty sheet, or a catalog file missing for a locale to import;
     * catalogs written before that point stay written.
     */
    method ImportFromExcel(sheet: Option<seq<seq<Scalar>>>) returns (ok: bool)
      modifies this
      ensures sheet.None? ==> ok && files == old(files)
      ensures sheet.Some? && |sheet.value| == 0 ==> !ok && files == old(files)
      ensures sheet.Some? && |sheet.value| > 0 ==>
        ImportOutcome(files, ok) == ImportLocales(old(files), sheet.value, LOCALES)
    {
      if sheet.None? {
        return true;
      }
      var data := sheet.value;
      if |data| == 0 {
        return false;
      }
      var headerRow := data[0];
      var j := 0;
      while j < |LOCALES|
        invariant 0 <= j <= |LOCALES|
        invariant ImportLocales(old(files), data, LOCALES) == ImportLocales(files, data, LOCALES[j..])
      {
        var locale := LOCALES[j];
        assert LOCALES[j..][0] == locale && LOCALES[j..][1..] == LOCALES[j + 1..];
        var index := IndexOf(headerRow, Str(locale));
        if index > 0 {
          if locale !in files {
            return false;
          }
          var newTranslations := CollectTranslations(data, index);
          var unflattenedNew := UnflattenObject(newTranslations);
          var merged := Assign(files[locale], unflattenedNew.fields);
          files := files[locale := merged];
        }
        j := j + 1;
      }
      return true;
    }
  }

  /**
   * Importing one key `a.b` into a catalog whose only section is `a` replaces
   * that section by one holding only `b`: every other key of the section is lost.
   */
  lemma SectionReplaced(a: string, b: string, v: Scalar, fs: Dict<Json>)
    requires '.' !in a && '.' !in b
    ensures Merge([(a, Obj(fs))], [(a + "." + b, v)]) == [(a, Obj([(b, Leaf(v))]))]
  {
    var d: Dict<Scalar> := [(a + "." + b, v)];
    assert d[..0] == [];
    SplitPlain(b, '.');
    SplitAround(a, b, '.');
    assert a + ['.'] + b == a + "." + b;
    var p := Split(a + "." + b, '.');
    assert p == [a, b] && p[1..] == [b];
    var section := Obj([(b, Leaf(v))]);
    assert SetPath(Obj([]), [b], v) == section;
    assert Unflatten(d) == SetPath(Obj([]), p, v);
    var fields := [(a, section)];
    assert UnflattenFields(d) == fields;
    assert fields[..0] == [];
    assert Assign([(a, Obj(fs))], fields) == Put([(a, Obj(fs))], a, section);
  }

  /** A nested key that the sheet does not carry is lost when its section is imported. */
  lemma NestedKeyLost()
    ensures Merge([("nav", Obj([("home", Leaf(Str("Home"))), ("about", Leaf(Str("About")))]))],
                  [("nav.home", Str("Trang chủ"))])
         == [("nav", Obj([("home", Leaf(Str("Trang chủ")))]))]
  {
    assert "nav" + "." + "home" == "nav.home";
    SectionReplaced("nav", "home", Str("Trang chủ"), [("home", Leaf(Str("Home"))), ("about", Leaf(Str("About")))]);
  }

  // ---------------------------------------------------------------------------
  // validateTranslations
  // ---------------------------------------------------------------------------

  /** English key `k` has no truthy value in the catalog of locale `l`. */
  predicate MissingTranslation(files: map<string, Dict<Json>>, l: string, k: string)
  {
    "en" in files && l in files && k in Keys(FlatCatalog(files["en"])) &&
    !Truthy(OrBlank(Get(FlatCatalog(files[l]), k)))
  }

  /**
   * `validateTranslations`: the `(locale, key)` pairs it warns about, in
   * order, or `None` where reading a catalog file fails. The run is reported
   * valid exactly when the list is empty.
   */
  method ValidateTranslations(files: map<string, Dict<Json>>) returns (missing: Option<seq<(string, string)>>)
    ensures missing.None? <==> "en" !in files || exists l :: l in LOCALES && l != "en" && l !in files
    ensures missing.Some? ==> forall l, k ::
      (l, k) in missing.value <==> l in LOCALES && l != "en" && MissingTranslation(files, l, k)
  {
    if "en" !in files {
      return None;
    }
    var flattenedEn := FlatCatalog(files["en"]);
    var reports: seq<(string, string)> := [];
    var j := 0;
    while j < |LOCALES|
      invariant 0 <= j <= |LOCALES|
      invariant forall l :: l in LOCALES[..j] && l != "en" ==> l in files
      invariant ReportedLocales(files, reports, LOCALES[..j])
    {
      var locale := LOCALES[j];
      assert LOCALES[..j + 1] == LOCALES[..j] + [locale];
      if locale != "en" {
        if locale !in files {
          return None;
        }
        var warned := MissingKeys(flattenedEn, FlatCatalog(files[locale]), locale);
        ReportLocaleStep(files, reports, warned, LOCALES[..j], locale);
        reports := reports + warned;
      } else {
        SkipEnglish(files, reports, LOCALES[..j]);
      }
      j := j + 1;
    }
    assert LOCALES[..j] == LOCALES;
    return Some(reports);
  }

  /** The inner loop of `validateTranslations`: the `(locale, key)` warnings for the English keys that `flattenedLocale` has no truthy value for. */
  method MissingKeys(flattenedEn: Dict<Scalar>, flattenedLocale: Dict<Scalar>, locale: string) returns (warned: seq<(string, string)>)
    ensures forall l, k :: (l, k) in warned <==>
      l == locale && k in Keys(flattenedEn) && !Truthy(OrBlank(Get(flattenedLocale, k)))
  {
    warned := [];
    var i := 0;
    while i < |flattenedEn|
      invariant 0 <= i <= |flattenedEn|
      invariant forall l, k :: (l, k) in warned <==>
        l == locale && k in Keys(flattenedEn[..i]) && !Truthy(OrBlank(Get(flattenedLocale, k)))
    {
      var key := flattenedEn[i].0;
      if !Truthy(OrBlank(Get(flattenedLocale, key))) {
        warned := warned + [(locale, key)];
      }
      KeysSnoc(flattenedEn, i);
      i := i + 1;
    }
    assert flattenedEn[..i] == flattenedEn;
  }

  /** `reports` holds exactly the missing pairs of the locales in `done`. */
  ghost predicate ReportedLocales(files: map<string, Dict<Json>>, reports: seq<(string, string)>, done: seq<string>)
  {
    forall l, k :: (l, k) in reports <==> l in done && l != "en" && MissingTranslation(files, l, k)
  }

  /** Adding the warnings of one more locale keeps the outer loop's state. */
  lemma ReportLocaleStep(files: map<string, Dict<Json>>, reports: seq<(string, string)>, warned: seq<(string, string)>,
                         done: seq<string>, locale: string)
    requires "en" in files && locale in files && locale != "en"
    requires ReportedLocales(files, reports, done)
    requires forall l, k :: (l, k) in warned <==>
      l == locale && k in Keys(FlatCatalog(files["en"])) && !Truthy(OrBlank(Get(FlatCatalog(files[locale]), k)))
    ensures ReportedLocales(files, reports + warned, done + [locale])
  {
  }

  /** English is not checked against itself. */
  lemma SkipEnglish(files: map<string, Dict<Json>>, reports: seq<(string, string)>, done: seq<string>)
    requires ReportedLocales(files, reports, done)
    ensures ReportedLocales(files, reports, done + ["en"])
  {
  }
}

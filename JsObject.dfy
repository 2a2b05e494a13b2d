/**
 * A JavaScript plain object with string keys, as an insertion-ordered list of
 * entries. Assigning to an existing key keeps its position; assigning to a new
 * key appends it (property order of string keys that are not array indices).
 */
module JsObject {
  import opened Wrappers

  type Dict<V> = seq<(string, V)>

  function Keys<V>(d: Dict<V>): (ks: seq<string>)
    ensures |ks| == |d|
    ensures forall i :: 0 <= i < |d| ==> ks[i] == d[i].0
  {
    seq(|d|, i requires 0 <= i < |d| => d[i].0)
  }

  predicate DistinctKeys<V>(d: Dict<V>) {
    forall i, j :: 0 <= i < j < |d| ==> d[i].0 != d[j].0
  }

  /** `d[k]`, with `None` for a missing key. */
  function Get<V>(d: Dict<V>, k: string): (r: Option<V>)
    ensures r.None? <==> k !in Keys(d)
  {
    if |d| == 0 then None
    else if d[0].0 == k then Some(d[0].1)
    else Get(d[1..], k)
  }

  /** `d[k] = v`. */
  function Put<V>(d: Dict<V>, k: string, v: V): (r: Dict<V>)
  {
    if |d| == 0 then [(k, v)]
    else if d[0].0 == k then [(k, v)] + d[1..]
    else [d[0]] + Put(d[1..], k, v)
  }

  /** `Object.assign(d, e)`, and also `{...d, ...e}`: the entries of `e`, in order, assigned onto `d`. */
  function Assign<V>(d: Dict<V>, e: Dict<V>): Dict<V>
  {
    if |e| == 0 then d
    else Put(Assign(d, e[..|e| - 1]), e[|e| - 1].0, e[|e| - 1].1)
  }

  lemma {:induction false} GetIn<V>(d: Dict<V>, i: nat)
    requires i < |d| && DistinctKeys(d)
    ensures Get(d, d[i].0) == Some(d[i].1)
  {
    if i > 0 {
      GetIn(d[1..], i - 1);
    }
  }

  /** Reading after an assignment: the assigned key has the new value, every other key is unchanged. */
  lemma {:induction false} GetPut<V>(d: Dict<V>, k: string, v: V, k': string)
    ensures Get(Put(d, k, v), k') == if k' == k then Some(v) else Get(d, k')
  {
    if |d| > 0 && d[0].0 != k {
      GetPut(d[1..], k, v, k');
    }
  }

  /** An assignment keeps the key order; a new key goes last. */
  lemma {:induction false} KeysPut<V>(d: Dict<V>, k: string, v: V)
    ensures Keys(Put(d, k, v)) == if k in Keys(d) then Keys(d) else Keys(d) + [k]
  {
    var p := Put(d, k, v);
    if |d| == 0 {
      assert p == [(k, v)];
    } else if d[0].0 == k {
      KeysTail(d);
      KeysTail(p);
      assert p[1..] == d[1..];
    } else {
      KeysPut(d[1..], k, v);
      KeysTail(d);
      KeysTail(p);
      assert p[1..] == Put(d[1..], k, v);
      assert k in Keys(d) <==> k in Keys(d[1..]);
    }
  }

  /** Two objects with the same keys still have the same keys after the same key is assigned in both. */
  lemma KeysPutSame<V>(d: Dict<V>, e: Dict<V>, k: string, x: V, y: V)
    requires Keys(d) == Keys(e)
    ensures Keys(Put(d, k, x)) == Keys(Put(e, k, y))
  {
    KeysPut(d, k, x);
    KeysPut(e, k, y);
  }

  lemma {:induction false} PutDistinct<V>(d: Dict<V>, k: string, v: V)
    requires DistinctKeys(d)
    ensures DistinctKeys(Put(d, k, v))
  {
    if |d| > 0 && d[0].0 != k {
      PutDistinct(d[1..], k, v);
      KeysPut(d[1..], k, v);
      var r := Put(d[1..], k, v);
      assert d[0].0 !in Keys(d[1..]);
      assert d[0].0 !in Keys(r);
    }
  }

  /** An assignment keeps a property every value has when the new value has it too. */
  lemma {:induction false} PutValues<V>(d: Dict<V>, k: string, v: V, good: V -> bool)
    requires forall i :: 0 <= i < |d| ==> good(d[i].1)
    requires good(v)
    ensures forall i :: 0 <= i < |Put(d, k, v)| ==> good(Put(d, k, v)[i].1)
  {
    if |d| > 0 && d[0].0 != k {
      PutValues(d[1..], k, v, good);
    }
  }

  /** Assigning a key that is not there yet appends it. */
  lemma {:induction false} PutNew<V>(d: Dict<V>, k: string, v: V)
    requires k !in Keys(d)
    ensures Put(d, k, v) == d + [(k, v)]
  {
    if |d| > 0 {
      KeysTail(d);
      PutNew(d[1..], k, v);
      assert Put(d, k, v) == [d[0]] + Put(d[1..], k, v);
      assert [d[0]] + (d[1..] + [(k, v)]) == d + [(k, v)];
    }
  }

  /** Assigning the last key of a list whose other keys differ replaces its value in place. */
  lemma {:induction false} PutLast<V>(d: Dict<V>, k: string, old_: V, v: V)
    requires k !in Keys(d)
    ensures Put(d + [(k, old_)], k, v) == d + [(k, v)]
  {
    if |d| == 0 {
      assert (d + [(k, old_)])[1..] == [];
    } else {
      KeysTail(d);
      PutLast(d[1..], k, old_, v);
      var tail := d[1..] + [(k, old_)];
      assert d + [(k, old_)] == [d[0]] + tail;
      PutCons(d[0], tail, k, v);
      assert [d[0]] + (d[1..] + [(k, v)]) == d + [(k, v)];
    }
  }

  /** Assigning past a first entry with another key leaves that entry in front. */
  lemma PutCons<V>(x: (string, V), d: Dict<V>, k: string, v: V)
    requires x.0 != k
    ensures Put([x] + d, k, v) == [x] + Put(d, k, v)
  {
    assert ([x] + d)[1..] == d;
  }

  /** Two assignments to the same key: the second wins, in the first one's place. */
  lemma {:induction false} PutPut<V>(d: Dict<V>, k: string, a: V, b: V)
    ensures Put(Put(d, k, a), k, b) == Put(d, k, b)
  {
    if |d| > 0 && d[0].0 != k {
      PutPut(d[1..], k, a, b);
    }
  }

  /** Reading after `Object.assign`: keys of `e` take their value from `e`, all others keep theirs. */
  lemma {:induction false} GetAssign<V>(d: Dict<V>, e: Dict<V>, k: string)
    requires DistinctKeys(e)
    ensures Get(Assign(d, e), k) == if k in Keys(e) then Get(e, k) else Get(d, k)
  {
    if |e| > 0 {
      var e' := e[..|e| - 1];
      var last := e[|e| - 1];
      assert DistinctKeys(e');
      GetAssign(d, e', k);
      GetPut(Assign(d, e'), last.0, last.1, k);
      KeysLast(e);
      if k in Keys(e) {
        if k == last.0 {
          GetIn(e, |e| - 1);
        } else {
          var i :| 0 <= i < |e'| && Keys(e')[i] == k;
          assert e'[i] == e[i];
          GetIn(e', i);
          GetIn(e, i);
        }
      }
    }
  }

  /** The keys of `d` with its last entry split off. */
  lemma KeysLast<V>(d: Dict<V>)
    requires |d| > 0
    ensures Keys(d) == Keys(d[..|d| - 1]) + [d[|d| - 1].0]
  {
    var ks, init := Keys(d), Keys(d[..|d| - 1]);
    forall i | 0 <= i < |d| ensures ks[i] == (init + [d[|d| - 1].0])[i] {
      if i < |d| - 1 {
        assert init[i] == d[..|d| - 1][i].0;
      }
    }
  }

  lemma KeysSnoc<V>(d: Dict<V>, i: nat)
    requires i < |d|
    ensures Keys(d[..i + 1]) == Keys(d[..i]) + [d[i].0]
  {
    assert d[..i + 1][..i] == d[..i];
    KeysLast(d[..i + 1]);
  }

  lemma KeysAppend<V>(d: Dict<V>, e: Dict<V>)
    ensures Keys(d + e) == Keys(d) + Keys(e)
  {
    var ks, ks' := Keys(d + e), Keys(d) + Keys(e);
    forall i | 0 <= i < |d + e| ensures ks[i] == ks'[i] {
      if i < |d| {
        assert (d + e)[i] == d[i];
      } else {
        assert (d + e)[i] == e[i - |d|];
      }
    }
  }

  /** The keys of `d` with its first entry split off. */
  lemma KeysTail<V>(d: Dict<V>)
    requires |d| > 0
    ensures Keys(d) == [d[0].0] + Keys(d[1..])
  {
    var ks, ks' := Keys(d), [d[0].0] + Keys(d[1..]);
    forall i | 0 <= i < |d| ensures ks[i] == ks'[i] {
      if i > 0 {
        assert d[1..][i - 1] == d[i];
      }
    }
  }

  /** `Object.assign` of fresh, distinct keys concatenates. */
  lemma {:induction false} AssignFresh<V>(d: Dict<V>, e: Dict<V>)
    requires DistinctKeys(e)
    requires forall i :: 0 <= i < |e| ==> e[i].0 !in Keys(d)
    ensures Assign(d, e) == d + e
  {
    if |e| > 0 {
      var e' := e[..|e| - 1];
      var last := e[|e| - 1];
      AssignFresh(d, e');
      KeysAppend(d, e');
      assert last.0 !in Keys(e');
      PutNew(d + e', last.0, last.1);
      assert e == e' + [last];
    }
  }

  /** `Object.assign` keeps keys distinct. */
  lemma {:induction false} AssignDistinct<V>(d: Dict<V>, e: Dict<V>)
    requires DistinctKeys(d)
    ensures DistinctKeys(Assign(d, e))
  {
    if |e| > 0 {
      AssignDistinct(d, e[..|e| - 1]);
      PutDistinct(Assign(d, e[..|e| - 1]), e[|e| - 1].0, e[|e| - 1].1);
    }
  }

  /** After `Object.assign` the keys are those of either side. */
  lemma {:induction false} KeysAssign<V>(d: Dict<V>, e: Dict<V>, k: string)
    ensures k in Keys(Assign(d, e)) <==> k in Keys(d) || k in Keys(e)
  {
    if |e| > 0 {
      var e' := e[..|e| - 1];
      KeysAssign(d, e', k);
      KeysPut(Assign(d, e'), e[|e| - 1].0, e[|e| - 1].1);
      KeysLast(e);
    }
  }
}

/** Array operations shared by the listing pages: `xs[0]`, `xs.slice(1)`, `xs.filter(f)` and `[...new Set(xs)]`. */
module Lists {
  import opened Wrappers

  /** `xs[0]`, which is `undefined` on an empty array. */
  function First<T>(xs: seq<T>): (r: Option<T>)
    ensures r.Some? <==> |xs| > 0
    ensures r.Some? ==> r.value == xs[0]
  {
    if |xs| == 0 then None else Some(xs[0])
  }

  /** `xs.slice(1)`. */
  function Rest<T>(xs: seq<T>): seq<T>
  {
    if |xs| == 0 then [] else xs[1..]
  }

  /** `xs.filter(keep)`: every kept value as often as it occurs, every other value not at all. */
  function Filter<T(!new)>(xs: seq<T>, keep: T -> bool): (r: seq<T>)
    ensures |r| <= |xs|
    ensures forall x :: x in r <==> x in xs && keep(x)
  {
    if |xs| == 0 then []
    else (if keep(xs[0]) then [xs[0]] else []) + Filter(xs[1..], keep)
  }

  /** Every kept element is kept as often as it occurs, and the others not at all. */
  lemma {:induction false} FilterCount<T(!new)>(xs: seq<T>, keep: T -> bool)
    ensures forall x :: multiset(Filter(xs, keep))[x] == if keep(x) then multiset(xs)[x] else 0
  {
    if |xs| > 0 {
      FilterCount(xs[1..], keep);
      assert xs == [xs[0]] + xs[1..];
    }
  }

  /** `a` is `b` with some elements left out: matched greedily from the front. */
  predicate SubseqOf<T(==)>(a: seq<T>, b: seq<T>)
    decreases |b|
  {
    |a| == 0 || (|b| > 0 && if a[0] == b[0] then SubseqOf(a[1..], b[1..]) else SubseqOf(a, b[1..]))
  }

  lemma {:induction false} SubseqTail<T>(a: seq<T>, b: seq<T>)
    requires |a| > 0 && SubseqOf(a, b)
    ensures SubseqOf(a[1..], b)
    decreases |b|, 0
  {
    if a[0] == b[0] {
      SubseqCons(a[1..], b[0], b[1..]);
      assert [b[0]] + b[1..] == b;
    } else {
      SubseqTail(a, b[1..]);
      SubseqCons(a[1..], b[0], b[1..]);
      assert [b[0]] + b[1..] == b;
    }
  }

  /** Putting an element in front of `b` keeps `a` a subsequence of it. */
  lemma {:induction false} SubseqCons<T>(a: seq<T>, x: T, b: seq<T>)
    requires SubseqOf(a, b)
    ensures SubseqOf(a, [x] + b)
    decreases |b|, 1
  {
    if |a| > 0 {
      assert ([x] + b)[1..] == b;
      if a[0] == x {
        SubseqTail(a, b);
      }
    }
  }

  lemma {:induction false} SubseqRefl<T>(a: seq<T>)
    ensures SubseqOf(a, a)
    decreases |a|
  {
    if |a| > 0 {
      SubseqRefl(a[1..]);
    }
  }

  /** What `filter` keeps stays in order. */
  lemma {:induction false} FilterSubseq<T(!new)>(xs: seq<T>, keep: T -> bool)
    ensures SubseqOf(Filter(xs, keep), xs)
    decreases |xs|
  {
    if |xs| > 0 {
      FilterSubseq(xs[1..], keep);
      var r := Filter(xs[1..], keep);
      if keep(xs[0]) {
        assert Filter(xs, keep) == [xs[0]] + r;
        assert ([xs[0]] + r)[1..] == r;
      } else {
        assert Filter(xs, keep) == r;
        SubseqCons(r, xs[0], xs[1..]);
        assert [xs[0]] + xs[1..] == xs;
      }
    }
  }

  /** `slice(1)` keeps order too. */
  lemma RestSubseq<T>(xs: seq<T>)
    ensures SubseqOf(Rest(xs), xs)
  {
    if |xs| > 0 {
      SubseqRefl(xs[1..]);
      SubseqCons(xs[1..], xs[0], xs[1..]);
      assert [xs[0]] + xs[1..] == xs;
    }
  }

  /** `filter` distributes over concatenation. */
  lemma {:induction false} FilterAppend<T(!new)>(xs: seq<T>, ys: seq<T>, keep: T -> bool)
    ensures Filter(xs + ys, keep) == Filter(xs, keep) + Filter(ys, keep)
    decreases |xs|
  {
    if |xs| > 0 {
      assert (xs + ys)[1..] == xs[1..] + ys;
      FilterAppend(xs[1..], ys, keep);
    } else {
      assert xs + ys == ys;
    }
  }

  /** The index of the first occurrence of `x`. */
  function FirstIndex<T(==)>(xs: seq<T>, x: T): (r: nat)
    requires x in xs
    ensures r < |xs| && xs[r] == x && x !in xs[..r]
  {
    if xs[0] == x then 0
    else
      var r := FirstIndex(xs[1..], x);
      assert xs[..r + 1] == [xs[0]] + xs[1..][..r];
      r + 1
  }

  /** `[...new Set(xs)]`: each value once, at the place it first occurs. */
  function Unique<T(==,!new)>(xs: seq<T>): (r: seq<T>)
    ensures forall x :: x in r <==> x in xs
    ensures forall i, j :: 0 <= i < j < |r| ==> r[i] != r[j]
    decreases |xs|
  {
    if |xs| == 0 then []
    else
      var init := xs[..|xs| - 1];
      var u := Unique(init);
      assert forall x :: x in xs <==> x in init || x == xs[|xs| - 1] by {
        assert xs == init + [xs[|xs| - 1]];
      }
      if xs[|xs| - 1] in u then u else u + [xs[|xs| - 1]]
  }

  /** A list without repeats is its own `[...new Set(xs)]`. */
  lemma {:induction false} UniqueOfDistinct<T(!new)>(xs: seq<T>)
    requires forall i, j :: 0 <= i < j < |xs| ==> xs[i] != xs[j]
    ensures Unique(xs) == xs
    decreases |xs|
  {
    if |xs| > 0 {
      var init := xs[..|xs| - 1];
      UniqueOfDistinct(init);
      assert xs[|xs| - 1] !in init;
      assert init + [xs[|xs| - 1]] == xs;
    }
  }

  lemma FirstIndexPrefix<T>(xs: seq<T>, n: nat, x: T)
    requires n <= |xs| && x in xs[..n]
    ensures x in xs && FirstIndex(xs, x) == FirstIndex(xs[..n], x)
  {
    var k := FirstIndex(xs[..n], x);
    assert xs[..n][..k] == xs[..k];
  }

  /** The distinct values come in the order of their first occurrences. */
  lemma {:induction false} UniqueInOrder<T(!new)>(xs: seq<T>)
    ensures forall i, j :: 0 <= i < j < |Unique(xs)| ==>
              FirstIndex(xs, Unique(xs)[i]) < FirstIndex(xs, Unique(xs)[j])
    decreases |xs|
  {
    if |xs| > 0 {
      var n := |xs| - 1;
      UniqueInOrder(xs[..n]);
      InitOrder(xs, xs[..n], Unique(xs[..n]));
      if xs[n] !in Unique(xs[..n]) {
        LastAppended(xs, Unique(xs[..n]));
      }
    }
  }

  /** The distinct values of all but the last element keep their first positions, which lie before the last. */
  lemma InitOrder<T(!new)>(xs: seq<T>, init: seq<T>, u: seq<T>)
    requires |xs| > 0 && init == xs[..|xs| - 1] && u == Unique(init)
    requires forall i, j :: 0 <= i < j < |u| ==> FirstIndex(init, u[i]) < FirstIndex(init, u[j])
    ensures forall x :: x in u ==> x in xs && FirstIndex(xs, x) < |xs| - 1
    ensures forall i, j :: 0 <= i < j < |u| ==> FirstIndex(xs, u[i]) < FirstIndex(xs, u[j])
  {
    var n := |xs| - 1;
    forall x | x in u ensures x in xs && FirstIndex(xs, x) == FirstIndex(init, x) < n {
      FirstIndexPrefix(xs, n, x);
    }
    forall i, j | 0 <= i < j < |u| ensures FirstIndex(xs, u[i]) < FirstIndex(xs, u[j]) {
      assert u[i] in u && u[j] in u;
    }
  }

  /** A last element seen for the first time is appended after all the others. */
  lemma LastAppended<T(!new)>(xs: seq<T>, u: seq<T>)
    requires |xs| > 0 && u == Unique(xs[..|xs| - 1]) && xs[|xs| - 1] !in u
    requires forall x :: x in u ==> x in xs && FirstIndex(xs, x) < |xs| - 1
    requires forall i, j :: 0 <= i < j < |u| ==> FirstIndex(xs, u[i]) < FirstIndex(xs, u[j])
    ensures forall i, j :: 0 <= i < j < |Unique(xs)| ==> FirstIndex(xs, Unique(xs)[i]) < FirstIndex(xs, Unique(xs)[j])
  {
    var n := |xs| - 1;
    assert xs[n] !in xs[..n];
    assert FirstIndex(xs, xs[n]) == n;
    var r := u + [xs[n]];
    assert r == Unique(xs);
    forall i, j | 0 <= i < j < |r| ensures FirstIndex(xs, r[i]) < FirstIndex(xs, r[j]) {
      assert r[i] == u[i];
      if j < |u| {
        assert r[j] == u[j];
      } else {
        assert u[i] in u;
      }
    }
  }
}

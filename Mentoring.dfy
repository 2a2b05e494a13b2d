/**
 * backend/app/api/v1/endpoints/mentoring.py over the `mentee_applications`
 * table (backend/app/models/mentee_application.py): applications are
 * inserted with a fresh id and status "pending", and listed per email,
 * newest id first.
 */
module Mentoring {
  import opened Wrappers
  import Lists

  /** `MenteeApplicationCreate`: every field but the email is optional. */
  datatype ApplicationForm = ApplicationForm(
    userEmail: string,
    fullName: Option<string>,
    goals: Option<string>,
    background: Option<string>,
    areas: Option<string>,
    timeCommitment: Option<string>,
    timezone: Option<string>,
    linkedin: Option<string>,
    github: Option<string>,
    expectations: Option<string>)

  /** A row of `mentee_applications`. */
  datatype Application = Application(id: nat, form: ApplicationForm, status: string)

  const DEFAULT_STATUS: string := "pending"

  /** Each row's id is at least the next one's. */
  predicate Descending(xs: seq<Application>)
  {
    forall i :: 0 < i < |xs| ==> xs[i - 1].id >= xs[i].id
  }

  /** Each row's id is greater than the next one's. */
  predicate StrictlyDescending(xs: seq<Application>)
  {
    forall i :: 0 < i < |xs| ==> xs[i - 1].id > xs[i].id
  }

  predicate DistinctIds(xs: seq<Application>)
  {
    forall i, j :: 0 <= i < j < |xs| ==> xs[i].id != xs[j].id
  }

  /** Descending neighbours make the whole list descending. */
  lemma {:induction false} DescendingPairwise(xs: seq<Application>)
    requires Descending(xs)
    ensures forall i, j :: 0 <= i < j < |xs| ==> xs[i].id >= xs[j].id
  {
    if |xs| > 1 {
      DescendingPairwise(xs[1..]);
      forall i, j | 0 <= i < j < |xs| ensures xs[i].id >= xs[j].id {
        if i > 0 {
          assert xs[i].id == xs[1..][i - 1].id && xs[j].id == xs[1..][j - 1].id;
        } else if j > 1 {
          assert xs[1].id >= xs[j].id by { assert xs[1] == xs[1..][0] && xs[j] == xs[1..][j - 1]; }
        }
      }
    }
  }

  /** Puts `a` into a list ordered by descending id, before the first row with a smaller or equal id. */
  function Insert(a: Application, xs: seq<Application>): (r: seq<Application>)
    ensures multiset(r) == multiset(xs) + multiset{a}
    ensures |r| == |xs| + 1 && (r[0] == a || (|xs| > 0 && r[0] == xs[0]))
  {
    if |xs| == 0 then [a]
    else if a.id >= xs[0].id then [a] + xs
    else
      assert xs == [xs[0]] + xs[1..];
      [xs[0]] + Insert(a, xs[1..])
  }

  /** Inserting keeps a list in descending order. */
  lemma {:induction false} InsertDescending(a: Application, xs: seq<Application>)
    requires Descending(xs)
    ensures Descending(Insert(a, xs))
  {
    if |xs| > 0 && a.id < xs[0].id {
      var tail := xs[1..];
      InsertDescending(a, tail);
      var r := Insert(a, xs);
      assert r == [xs[0]] + Insert(a, tail);
      assert |tail| > 0 ==> tail[0] == xs[1];
      forall i | 0 < i < |r| ensures r[i - 1].id >= r[i].id {
        if i > 1 {
          assert r[i - 1] == Insert(a, tail)[i - 2] && r[i] == Insert(a, tail)[i - 1];
        }
      }
    }
  }

  /** Inserting a new id keeps a list in strictly descending order. */
  lemma {:induction false} InsertStrict(a: Application, xs: seq<Application>)
    requires StrictlyDescending(xs) && forall y | y in xs :: y.id != a.id
    ensures StrictlyDescending(Insert(a, xs))
  {
    if |xs| > 0 && a.id < xs[0].id {
      var tail := xs[1..];
      assert forall y | y in tail :: y in xs;
      InsertStrict(a, tail);
      var r := Insert(a, xs);
      assert r == [xs[0]] + Insert(a, tail);
      assert |tail| > 0 ==> tail[0] == xs[1];
      forall i | 0 < i < |r| ensures r[i - 1].id > r[i].id {
        if i > 1 {
          assert r[i - 1] == Insert(a, tail)[i - 2] && r[i] == Insert(a, tail)[i - 1];
        }
      }
    }
  }

  /** `ORDER BY id DESC`. */
  function SortByIdDesc(xs: seq<Application>): (r: seq<Application>)
    ensures multiset(r) == multiset(xs)
    ensures Descending(r)
    ensures DistinctIds(xs) ==> StrictlyDescending(r)
  {
    if |xs| == 0 then []
    else
      assert xs == [xs[0]] + xs[1..];
      var tail := SortByIdDesc(xs[1..]);
      SortKeepsDistinct(xs, tail);
      InsertDescending(xs[0], tail);
      if DistinctIds(xs) then InsertStrict(xs[0], tail); Insert(xs[0], tail)
      else Insert(xs[0], tail)
  }

  lemma SortKeepsDistinct(xs: seq<Application>, tail: seq<Application>)
    requires |xs| > 0 && multiset(tail) == multiset(xs[1..])
    ensures DistinctIds(xs) ==> DistinctIds(xs[1..]) && forall y | y in tail :: y.id != xs[0].id
  {
    if DistinctIds(xs) {
      forall y | y in tail ensures y.id != xs[0].id {
        assert y in multiset(xs[1..]);
        var k :| 0 <= k < |xs[1..]| && xs[1..][k] == y;
        assert xs[k + 1] == y;
      }
    }
  }

  /** Filtering keeps ids distinct. */
  lemma {:induction false} FilterDistinct(xs: seq<Application>, keep: Application -> bool)
    requires DistinctIds(xs)
    ensures DistinctIds(Lists.Filter(xs, keep))
  {
    if |xs| > 0 {
      var rest := Lists.Filter(xs[1..], keep);
      FilterDistinct(xs[1..], keep);
      if keep(xs[0]) {
        var r := [xs[0]] + rest;
        forall j | 0 < j < |r| ensures xs[0].id != r[j].id {
          assert r[j] == rest[j - 1] && r[j] in xs[1..];
          var k :| 0 <= k < |xs[1..]| && xs[1..][k] == r[j];
          assert xs[k + 1] == r[j];
        }
        assert Lists.Filter(xs, keep) == r;
      } else {
        assert Lists.Filter(xs, keep) == rest;
      }
    }
  }

  function ForEmail(email: string): Application -> bool
  {
    (a: Application) => a.form.userEmail == email
  }

  /** `list_my_applications(user_email)`. */
  function ListMyApplications(rows: seq<Application>, email: string): (r: seq<Application>)
    ensures forall a :: a in r <==> a in rows && a.form.userEmail == email
    ensures multiset(r) == multiset(Lists.Filter(rows, ForEmail(email)))
    ensures Descending(r)
  {
    var f := Lists.Filter(rows, ForEmail(email));
    var r := SortByIdDesc(f);
    assert forall a :: a in r <==> a in multiset(r);
    assert forall a :: a in f <==> a in multiset(f);
    r
  }

  /** With distinct ids in the table, the listing is strictly newest first. */
  lemma ListingStrictlyDescending(rows: seq<Application>, email: string)
    requires DistinctIds(rows)
    ensures StrictlyDescending(ListMyApplications(rows, email))
  {
    FilterDistinct(rows, ForEmail(email));
  }

  /** The table, with the id the database assigns next. */
  class ApplicationTable {
    var rows: seq<Application>
    var nextId: nat

    ghost predicate Valid()
      reads this
    {
      DistinctIds(rows) && forall i :: 0 <= i < |rows| ==> rows[i].id < nextId
    }

    constructor()
      ensures Valid() && rows == [] && nextId == 1
    {
      rows := [];
      nextId := 1;
    }

    /** `create_application(application_in)`: always inserts, whatever the email already has. */
    method CreateApplication(form: ApplicationForm) returns (app: Application)
      requires Valid()
      modifies this
      ensures Valid()
      ensures app == Application(old(nextId), form, DEFAULT_STATUS)
      ensures rows == old(rows) + [app] && nextId == old(nextId) + 1
    {
      app := Application(nextId, form, DEFAULT_STATUS);
      rows := rows + [app];
      nextId := nextId + 1;
    }

    /** `list_my_applications(user_email)` on this table. */
    function List(email: string): (r: seq<Application>)
      reads this
      ensures r == ListMyApplications(rows, email)
    {
      ListMyApplications(rows, email)
    }
  }

  /** A new application heads its email's listing, and other emails' listings do not change. */
  lemma CreatedListedFirst(rows: seq<Application>, nextId: nat, form: ApplicationForm, other: string)
    requires forall i :: 0 <= i < |rows| ==> rows[i].id < nextId
    requires other != form.userEmail
    ensures var app := Application(nextId, form, DEFAULT_STATUS);
      var r := ListMyApplications(rows + [app], form.userEmail);
      |r| > 0 && r[0] == app
    ensures var app := Application(nextId, form, DEFAULT_STATUS);
      ListMyApplications(rows + [app], other) == ListMyApplications(rows, other)
  {
    var app := Application(nextId, form, DEFAULT_STATUS);
    var r := ListMyApplications(rows + [app], form.userEmail);
    assert app in r;
    var k :| 0 <= k < |r| && r[k] == app;
    DescendingPairwise(r);
    assert r[0].id >= app.id;
    Lists.FilterAppend(rows, [app], ForEmail(other));
    assert Lists.Filter([app], ForEmail(other)) == [];
    assert Lists.Filter(rows + [app], ForEmail(other)) == Lists.Filter(rows, ForEmail(other));
  }
}

/** backend/app/api/v1/endpoints/newsletter.py: the subscribe endpoint with its database work in `upsert_subscription`. */
module NewsletterV1 {
  import opened Wrappers
  import opened Http
  import EmailFormat
  import opened Subscribers
  import NewsletterV0

  const INVALID_EMAIL: string := "Invalid email format"
  const ALREADY_SUBSCRIBED: string := "Email already subscribed"
  const REACTIVATED: string := "Subscription reactivated successfully"
  const SUBSCRIBED: string := "Subscribed successfully"
  const FAILED: string := "Failed to subscribe. Please try again."

  /** `is_valid_email(email)`: the same pattern as the other endpoint's. */
  predicate IsValidEmail(email: string)
    ensures IsValidEmail(email) <==> EmailFormat.Matches(email)
  {
    EmailFormat.IsValidEmailMatches(email);
    EmailFormat.IsValidEmail(email)
  }

  /** What `upsert_subscription` returns, `(message, changed)`, or that it raised. */
  datatype Upsert = Done(message: string, changed: bool) | Raised

  /** `upsert_subscription()` on the committed table. */
  function UpsertSpec(table: Table, email: string, commitFails: bool): (r: (Upsert, Table))
    ensures r.0 == Done(ALREADY_SUBSCRIBED, false) <==> email in table && table[email]
    ensures r.0.Raised? <==> commitFails && !(email in table && table[email])
    ensures r.0.Raised? ==> r.1 == table
    ensures r.0.Done? && r.0.changed ==> r.1 == table[email := true]
    ensures email in table && !table[email] && !commitFails ==> r == (Done(REACTIVATED, true), table[email := true])
    ensures email !in table && !commitFails ==> r == (Done(SUBSCRIBED, true), table[email := true])
  {
    if email in table then
      if table[email] then (Done(ALREADY_SUBSCRIBED, false), table)
      else if commitFails then (Raised, table)
      else (Done(REACTIVATED, true), table[email := true])
    else if commitFails then (Raised, table)
    else (Done(SUBSCRIBED, true), table[email := true])
  }

  /** `subscribe(request)`: 400 before any database work, then the upsert's result mapped to a reply. */
  function SubscribeSpec(table: Table, email: string, commitFails: bool): (r: (Outcome<string>, Table))
    ensures !IsValidEmail(email) ==> r == (Raise(HttpError(400, INVALID_EMAIL)), table)
    ensures IsValidEmail(email) ==> r.1 == UpsertSpec(table, email, commitFails).1
    ensures IsValidEmail(email) ==> match UpsertSpec(table, email, commitFails).0
      case Raised => r.0 == Raise(HttpError(500, FAILED))
      case Done(m, changed) =>
        r.0 == if !changed && m == ALREADY_SUBSCRIBED then Raise(HttpError(400, ALREADY_SUBSCRIBED)) else Return(m)
    ensures IsValidEmail(email) && email in table && table[email] ==> r == (Raise(HttpError(400, ALREADY_SUBSCRIBED)), table)
    ensures IsValidEmail(email) && !(email in table && table[email]) ==>
              r == (if commitFails then Raise(HttpError(500, FAILED))
                    else Return(if email in table then REACTIVATED else SUBSCRIBED),
                    if commitFails then table else table[email := true])
    ensures r.0 != Crash
  {
    if !IsValidEmail(email) then (Raise(HttpError(400, INVALID_EMAIL)), table)
    else
      var u := UpsertSpec(table, email, commitFails);
      match u.0
      case Raised => (Raise(HttpError(500, FAILED)), u.1)
      case Done(message, changed) =>
        if !changed && message == ALREADY_SUBSCRIBED then (Raise(HttpError(400, message)), u.1)
        else (Return(message), u.1)
  }

  /**
   * The two endpoints give the same reply and leave the same table, except
   * when the commit that reactivates an inactive subscriber fails: there the
   * other endpoint lets the exception escape while this one answers 500.
   */
  lemma AgreesWithV0(table: Table, email: string, commitFails: bool)
    ensures SubscribeSpec(table, email, commitFails).1 == NewsletterV0.SubscribeSpec(table, email, commitFails).1
    ensures var mine := SubscribeSpec(table, email, commitFails).0;
      var theirs := NewsletterV0.SubscribeSpec(table, email, commitFails).0;
      mine == theirs <==> !(IsValidEmail(email) && email in table && !table[email] && commitFails)
    ensures IsValidEmail(email) && email in table && !table[email] && commitFails ==>
              SubscribeSpec(table, email, commitFails).0 == Raise(HttpError(500, FAILED)) &&
              NewsletterV0.SubscribeSpec(table, email, commitFails).0 == Crash
  {
  }

  /** `upsert_subscription()` on the request's session. */
  method UpsertSubscription(db: Session, email: string, commitFails: bool) returns (u: Upsert)
    requires db.pending == map[]
    modifies db
    ensures (u, db.committed) == UpsertSpec(old(db.committed), email, commitFails)
  {
    var existing := db.Find(email);
    if existing.Some? {
      if existing.value {
        return Done(ALREADY_SUBSCRIBED, false);
      }
      db.Stage(email, true);
      var ok := db.Commit(commitFails);
      if !ok {
        return Raised;
      }
      assert db.committed == old(db.committed)[email := true];
      return Done(REACTIVATED, true);
    }
    db.Stage(email, true);
    var ok := db.Commit(commitFails);
    if !ok {
      db.Rollback();
      return Raised;
    }
    assert db.committed == old(db.committed)[email := true];
    return Done(SUBSCRIBED, true);
  }

  /** `subscribe(request)` on a fresh session. */
  method Subscribe(db: Session, email: string, commitFails: bool) returns (outcome: Outcome<string>)
    requires db.pending == map[]
    modifies db
    ensures (outcome, db.committed) == SubscribeSpec(old(db.committed), email, commitFails)
  {
    if !IsValidEmail(email) {
      return Raise(HttpError(400, INVALID_EMAIL));
    }
    var u := UpsertSubscription(db, email, commitFails);
    match u
    case Raised =>
      return Raise(HttpError(500, FAILED));
    case Done(message, changed) =>
      if !changed && message == ALREADY_SUBSCRIBED {
        return Raise(HttpError(400, message));
      }
      return Return(message);
  }
}

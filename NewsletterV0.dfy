/** backend/app/api/endpoints/newsletter.py: the subscribe endpoint. */
module NewsletterV0 {
  import opened Wrappers
  import opened Http
  import EmailFormat
  import opened Subscribers

  const INVALID_EMAIL: string := "Invalid email format"
  const ALREADY_SUBSCRIBED: string := "Email already subscribed"
  const REACTIVATED: string := "Subscription reactivated successfully"
  const SUBSCRIBED: string := "Subscribed successfully"
  const FAILED: string := "Failed to subscribe. Please try again."

  /** `is_valid_email(email)`. */
  predicate IsValidEmail(email: string)
    ensures IsValidEmail(email) <==> EmailFormat.Matches(email)
  {
    EmailFormat.IsValidEmailMatches(email);
    EmailFormat.IsValidEmail(email)
  }

  /** The endpoint on the committed table: the outcome (its `message`) and the table afterwards. */
  function SubscribeSpec(table: Table, email: string, commitFails: bool): (r: (Outcome<string>, Table))
    ensures !IsValidEmail(email) ==> r == (Raise(HttpError(400, INVALID_EMAIL)), table)
    ensures IsValidEmail(email) && email in table && table[email] ==>
              r == (Raise(HttpError(400, ALREADY_SUBSCRIBED)), table)
    ensures IsValidEmail(email) && email in table && !table[email] ==>
              r == (if commitFails then Crash else Return(REACTIVATED), if commitFails then table else table[email := true])
    ensures IsValidEmail(email) && email !in table ==>
              r == (if commitFails then Raise(HttpError(500, FAILED)) else Return(SUBSCRIBED),
                    if commitFails then table else table[email := true])
    ensures r.1 == table || r.1 == table[email := true]
    ensures r.0.Return? ==> r.1 == table[email := true]
  {
    if !IsValidEmail(email) then (Raise(HttpError(400, INVALID_EMAIL)), table)
    else if email in table then
      if table[email] then (Raise(HttpError(400, ALREADY_SUBSCRIBED)), table)
      else if commitFails then (Crash, table)
      else (Return(REACTIVATED), table[email := true])
    else if commitFails then (Raise(HttpError(500, FAILED)), table)
    else (Return(SUBSCRIBED), table[email := true])
  }

  /** Only the requested address can change, and only to active. */
  lemma OnlyRequestedEmailChanges(table: Table, email: string, commitFails: bool)
    ensures var t := SubscribeSpec(table, email, commitFails).1;
      forall e :: e != email ==> (e in t <==> e in table) && (e in table ==> t[e] == table[e])
    ensures var t := SubscribeSpec(table, email, commitFails).1;
      email in t ==> email in table || t[email]
  {
  }

  /** After a successful call, the address is an active subscriber. */
  lemma ReturnMeansActive(table: Table, email: string, commitFails: bool)
    requires SubscribeSpec(table, email, commitFails).0.Return?
    ensures var t := SubscribeSpec(table, email, commitFails).1;
      email in t && t[email] && IsValidEmail(email)
  {
  }

  /** `subscribe(request)` on a fresh session. */
  method Subscribe(db: Session, email: string, commitFails: bool) returns (outcome: Outcome<string>)
    requires db.pending == map[]
    modifies db
    ensures (outcome, db.committed) == SubscribeSpec(old(db.committed), email, commitFails)
  {
    if !IsValidEmail(email) {
      return Raise(HttpError(400, INVALID_EMAIL));
    }
    var existing := db.Find(email);
    if existing.Some? {
      if existing.value {
        return Raise(HttpError(400, ALREADY_SUBSCRIBED));
      }
      db.Stage(email, true);
      var ok := db.Commit(commitFails);
      if !ok {
        return Crash;
      }
      assert db.committed == old(db.committed)[email := true];
      return Return(REACTIVATED);
    }
    db.Stage(email, true);
    var ok := db.Commit(commitFails);
    if !ok {
      db.Rollback();
      return Raise(HttpError(500, FAILED));
    }
    assert db.committed == old(db.committed)[email := true];
    return Return(SUBSCRIBED);
  }
}

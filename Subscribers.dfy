/**
 * The database session the newsletter endpoints use, reduced to the
 * subscriber table: email to `is_active`. Changes are staged and reach the
 * committed table only through a commit that succeeds; whether a commit fails
 * is an input. The `Subscriber` model file is not part of this model; a new
 * subscriber is taken to be active.
 */
module Subscribers {
  import opened Wrappers

  type Table = map<string, bool>

  class Session {
    var committed: Table
    var pending: Table

    constructor(committed: Table)
      ensures this.committed == committed && pending == map[]
    {
      this.committed := committed;
      pending := map[];
    }

    /** `db.query(Subscriber).filter(Subscriber.email == email).first()`, seen through staged changes. */
    function Find(email: string): (r: Option<bool>)
      reads this
      ensures r.Some? <==> email in pending || email in committed
      ensures email in pending ==> r == Some(pending[email])
      ensures email !in pending && email in committed ==> r == Some(committed[email])
    {
      if email in pending then Some(pending[email])
      else if email in committed then Some(committed[email])
      else None
    }

    /** `db.add(Subscriber(email=email))`, or setting `is_active` on a loaded row. */
    method Stage(email: string, active: bool)
      modifies this
      ensures pending == old(pending)[email := active] && committed == old(committed)
    {
      pending := pending[email := active];
    }

    /** `db.commit()`: on success the staged rows are written; on failure nothing is. */
    method Commit(fails: bool) returns (ok: bool)
      modifies this
      ensures ok == !fails
      ensures ok ==> committed == old(committed) + old(pending) && pending == map[]
      ensures !ok ==> committed == old(committed) && pending == old(pending)
    {
      if fails {
        return false;
      }
      committed := committed + pending;
      pending := map[];
      return true;
    }

    /** `db.rollback()`. */
    method Rollback()
      modifies this
      ensures pending == map[] && committed == old(committed)
    {
      pending := map[];
    }
  }
}

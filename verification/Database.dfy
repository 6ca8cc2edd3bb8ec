/** The connection: what the file holds, what the open transaction sees, and
    statements that may fail at any time without effect. */
module Connection {
  import opened Tables

  /** All there is to know about a connection at one moment. */
  datatype State = State(durable: Tables, work: Tables, inTxn: bool, trace: seq<Tables>, faults: nat, misreads: nat)

  ghost predicate Consistent(c: State) {
    && c.trace != []
    && c.trace[|c.trace| - 1] == c.durable
    && (!c.inTxn ==> c.work == c.durable)
  }

  class Database {
    var durable: Tables   // what another connection, or the next process, reads
    var work: Tables      // what this connection reads
    var inTxn: bool
    var deferred: bool    // PRAGMA defer_foreign_keys, off again after each transaction

    /** Every state the file has been in, oldest first. A kill at any moment leaves
        the file in one of them, so a claim about every element is a claim about every kill. */
    ghost var trace: seq<Tables>
    /** How many statements failed for a reason outside the catalog. */
    ghost var faults: nat
    /** How many of them were reads for an index row, which is then written with what is known. */
    ghost var misreads: nat

    ghost function Now(): State
      reads this
    {
      State(durable, work, inTxn, trace, faults, misreads)
    }

    ghost predicate Valid()
      reads this
    {
      Consistent(Now())
    }

    constructor (t: Tables)
      ensures Valid() && !inTxn && durable == t && trace == [t] && faults == 0 && misreads == 0
    {
      durable, work, inTxn, deferred := t, t, false, false;
      trace, faults, misreads := [t], 0, 0;
    }

    /** A SELECT. When it cannot be prepared or fails while stepping it yields no row. */
    method Read() returns (ok: bool)
      modifies this`faults
      ensures if ok then faults == old(faults) else faults == old(faults) + 1
    {
      if * {
        faults := faults + 1;
        return false;
      }
      ok := true;
    }

    /** One data-changing statement. Outside a transaction it commits by itself; a foreign key
        that would dangle refuses it unless the check is deferred to a COMMIT. */
    method Exec(next: Tables) returns (ok: bool)
      requires Valid()
      modifies this
      ensures Executed(old(Now()), Now(), next, ok) && deferred == old(deferred)
      ensures ok ==> References(next) || (inTxn && deferred)
    {
      if !References(next) && !(inTxn && deferred) {
        return false;
      }
      if * {
        faults := faults + 1;
        return false;
      }
      work := next;
      if !inTxn {
        durable, trace := next, trace + [next];
      }
      ok := true;
    }

    method DeferForeignKeys() returns (ok: bool)
      requires Valid()
      modifies this`deferred, this`faults
      ensures Valid()
      ensures ok ==> deferred == inTxn && faults == old(faults)
      ensures !ok ==> deferred == old(deferred) && faults == old(faults) + 1
    {
      if * {
        faults := faults + 1;
        return false;
      }
      deferred := inTxn;
      ok := true;
    }

    method Begin() returns (ok: bool)
      requires Valid()
      modifies this`inTxn, this`deferred, this`faults
      ensures Valid()
      ensures ok ==> !old(inTxn) && inTxn && !deferred && faults == old(faults)
      ensures !ok ==> inTxn == old(inTxn) && faults == old(faults) + if inTxn then 0 else 1
    {
      if inTxn {
        return false;
      }
      if * {
        faults := faults + 1;
        return false;
      }
      inTxn, deferred := true, false;
      ok := true;
    }

    /** A COMMIT that fails leaves the transaction open. */
    method Commit() returns (ok: bool)
      requires Valid()
      modifies this
      ensures Valid() && work == old(work) && misreads == old(misreads)
      ensures ok ==> old(inTxn) && References(work) && !inTxn && !deferred && trace == old(trace) + [work] && faults == old(faults)
      ensures !ok ==> inTxn == old(inTxn) && durable == old(durable) && trace == old(trace)
                      && faults == old(faults) + if inTxn && References(work) then 1 else 0
    {
      if !inTxn || !References(work) {
        return false;
      }
      if * {
        faults := faults + 1;
        return false;
      }
      durable, trace, inTxn, deferred := work, trace + [work], false, false;
      ok := true;
    }

    method Rollback() returns (ok: bool)
      requires Valid()
      modifies this
      ensures Valid() && durable == old(durable) && trace == old(trace) && misreads == old(misreads)
      ensures ok ==> old(inTxn) && !inTxn && !deferred && faults == old(faults)
      ensures !ok ==> inTxn == old(inTxn) && work == old(work) && faults == old(faults) + if inTxn then 1 else 0
    {
      if !inTxn {
        return false;
      }
      if * {
        faults := faults + 1;
        return false;
      }
      work, inTxn, deferred := durable, false, false;
      ok := true;
    }
  }

  /** What one statement did: all of it, durably outside a transaction, or nothing. */
  ghost predicate Executed(before: State, after: State, next: Tables, ok: bool) {
    && Consistent(after)
    && after.inTxn == before.inTxn
    && after.misreads == before.misreads
    && (ok ==>
          && after.work == next
          && after.faults == before.faults
          && (after.inTxn ==> after.durable == before.durable && after.trace == before.trace)
          && (!after.inTxn ==> after.trace == before.trace + [next]))
    && (!ok ==>
          && after.work == before.work
          && after.durable == before.durable
          && after.trace == before.trace
          && before.faults <= after.faults <= before.faults + 1
          && (References(next) ==> after.faults == before.faults + 1))
  }

  /** The scope guard: begins on construction, rolls back on destruction unless committed. */
  class Transaction {
    const db: Database
    var active: bool
    var committed: bool

    /** When BEGIN fails the guard is inactive, and whatever runs in its scope is unprotected. */
    constructor (db: Database)
      requires db.Valid()
      modifies db`inTxn, db`deferred, db`faults
      ensures this.db == db && db.Valid() && !committed
      ensures active ==> !old(db.inTxn) && db.inTxn && db.faults == old(db.faults)
      ensures !active ==> db.inTxn == old(db.inTxn) && db.faults >= old(db.faults)
      ensures !active && !old(db.inTxn) ==> db.faults > old(db.faults)
    {
      this.db := db;
      committed := false;
      active := false;
      new;
      var ok := db.Begin();
      active := ok;
    }

    method Commit() returns (ok: bool)
      requires db.Valid()
      modifies this, db
      ensures db.Valid() && db.work == old(db.work) && db.faults >= old(db.faults) && db.misreads == old(db.misreads)
      ensures ok ==> old(active) && old(db.inTxn) && !active && committed && !db.inTxn
                     && db.trace == old(db.trace) + [db.work] && db.faults == old(db.faults)
      ensures !ok ==> active == old(active) && committed == old(committed) && db.inTxn == old(db.inTxn)
                      && db.durable == old(db.durable) && db.trace == old(db.trace)
      ensures !ok && old(active) && old(db.inTxn) && References(db.work) ==> db.faults > old(db.faults)
    {
      if !active {
        return false;
      }
      ok := db.Commit();
      if ok {
        active, committed := false, true;
      }
    }

    /** The destructor. */
    method Close()
      requires db.Valid()
      modifies db
      ensures db.Valid() && db.durable == old(db.durable) && db.trace == old(db.trace)
      ensures db.faults >= old(db.faults) && db.misreads == old(db.misreads)
      ensures db.work == old(db.work) || db.work == db.durable
      ensures !(active && !committed) ==> db.work == old(db.work) && db.inTxn == old(db.inTxn)
      ensures db.inTxn ==> old(db.inTxn) && db.work == old(db.work)
      ensures active && !committed && old(db.inTxn) ==> if db.inTxn then db.faults == old(db.faults) + 1 else db.work == db.durable
    {
      if active && !committed {
        var _ := db.Rollback();
      }
    }
  }
}

/**
 * The relational half of backend/app/database/session.py: sessions over one
 * database and the `UnitOfWork` async context manager. A session sees the
 * committed rows as they were when it was entered, plus its own uncommitted
 * writes; `commit` publishes what it sees, `rollback` and `close` drop its
 * uncommitted writes. Each session records the commit, rollback and close
 * calls it receives.
 */
module Session {
  import UserTable

  datatype Event = Committed | RolledBack | Closed

  /** The committed contents of the `user` table. */
  class Database {
    var rows: UserTable.Table

    constructor (rows: UserTable.Table)
      ensures this.rows == rows
    {
      this.rows := rows;
    }
  }

  /** An `AsyncSession` made by the session factory. */
  class AsyncSession {
    const db: Database
    var view: UserTable.Table
    var events: seq<Event>

    ghost predicate Valid()
      reads this, db
    {
      UserTable.Valid(view) && UserTable.Valid(db.rows)
    }

    constructor (db: Database)
      ensures this.db == db && view == db.rows && events == []
    {
      this.db := db;
      view := db.rows;
      events := [];
    }

    method Commit()
      requires Valid()
      modifies this, db
      ensures Valid()
      ensures db.rows == old(view) && view == old(view)
      ensures events == old(events) + [Committed]
    {
      db.rows := view;
      events := events + [Committed];
    }

    method Rollback()
      requires Valid()
      modifies this
      ensures Valid()
      ensures view == db.rows
      ensures events == old(events) + [RolledBack]
    {
      view := db.rows;
      events := events + [RolledBack];
    }

    method Close()
      requires Valid()
      modifies this
      ensures Valid()
      ensures view == db.rows
      ensures events == old(events) + [Closed]
    {
      view := db.rows;
      events := events + [Closed];
    }
  }

  /** The events one `__aexit__` produces: exactly one of commit or rollback, then close. */
  function ExitEvents(failed: bool): (es: seq<Event>)
    ensures |es| == 2 && es[1] == Closed
    ensures es[0] == Committed <==> !failed
    ensures es[0] == RolledBack <==> failed
  {
    [if failed then RolledBack else Committed, Closed]
  }

  class UnitOfWork {
    /** The database the session factory opens sessions on. */
    const db: Database
    /** `self.session`: the session of the most recent `__aenter__`. */
    var session: AsyncSession?
    /** Every session `__aenter__` has created, oldest first. */
    ghost var entered: seq<AsyncSession>

    ghost predicate Valid()
      reads this, session
    {
      session != null ==> session.db == db && |entered| > 0 && entered[|entered| - 1] == session
    }

    constructor (db: Database)
      ensures Valid() && this.db == db && session == null && entered == []
    {
      this.db := db;
      session := null;
      entered := [];
    }

    /** `__aenter__`: opens a fresh session, stores it in `self.session` (replacing any earlier one) and returns it. */
    method Enter() returns (s: AsyncSession)
      modifies this
      ensures Valid()
      ensures fresh(s) && session == s && s.db == db
      ensures s.view == db.rows && s.events == []
      ensures entered == old(entered) + [s]
    {
      s := new AsyncSession(db);
      session := s;
      entered := entered + [s];
    }

    /**
     * `__aexit__`: rolls back when the block raised, commits otherwise, and
     * closes; always on the session `self.session` holds now.
     */
    method Exit(failed: bool)
      requires Valid() && session != null && session.Valid()
      modifies session, db
      ensures Valid() && session.Valid()
      ensures session.events == old(session.events) + ExitEvents(failed)
      ensures failed ==> db.rows == old(db.rows)
      ensures !failed ==> db.rows == old(session.view)
      ensures session.view == db.rows
    {
      if failed {
        session.Rollback();
      } else {
        session.Commit();
      }
      session.Close();
    }
  }

  /**
   * The shape every `transactional` service method takes: the decorator
   * enters the unit of work, the method body enters it again, and both
   * exits run on the second session. The first session is never committed
   * or closed, and the second receives two exits; its second exit changes
   * nothing in the database.
   */
  method NestedScope(uow: UnitOfWork, failed: bool) returns (outer: AsyncSession, inner: AsyncSession)
    requires uow.Valid() && UserTable.Valid(uow.db.rows)
    modifies uow, uow.db
    ensures uow.Valid() && fresh(outer) && fresh(inner) && outer != inner
    ensures uow.entered == old(uow.entered) + [outer, inner] && uow.session == inner
    ensures outer.events == []
    ensures inner.events == ExitEvents(failed) + ExitEvents(failed)
    ensures uow.db.rows == old(uow.db.rows)
  {
    outer := uow.Enter();
    inner := uow.Enter();
    uow.Exit(failed);
    uow.Exit(failed);
  }
}

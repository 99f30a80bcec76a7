/**
 * The database session of one request. SQLAlchemy keeps every write of the
 * session pending until a commit; the session's own reads already see them
 * (an added object is flushed before the next query, a deleted one is gone).
 */
module Sessions {
  import opened Records
  import opened Tables

  /** The tables of a database by name. */
  type Database = map<string, Table>

  /** The model's table exists in db and satisfies the table invariant. */
  ghost predicate Holds(db: Database, m: Model)
  {
    m.table in db && Inv(m, db[m.table])
  }

  /** A database whose given tables are all empty holds every model whose table is among them. */
  lemma EmptyDatabaseHolds(tables: set<string>, m: Model)
    requires m.table in tables
    ensures Holds(map name | name in tables :: EmptyTable, m)
  {
    EmptyTableInv(m);
  }

  class Session {
    /** What reads in this session see: the committed tables with this session's writes applied. */
    var working: Database
    /** What the database holds for every other session. */
    var committed: Database
    /** The last value each table's SERIAL sequence handed out. */
    var serial: map<string, int>

    /** A session over a database whose given tables are all empty. */
    constructor (tables: set<string>)
      ensures working == committed == map name | name in tables :: EmptyTable
      ensures serial == map[]
    {
      working := map name | name in tables :: EmptyTable;
      committed := map name | name in tables :: EmptyTable;
      serial := map[];
    }

    function SerialOf(table: string): int
      reads this
    {
      if table in serial then serial[table] else 0
    }

    /** session.add or session.delete followed by a flush: the table's new state becomes what this session reads. */
    method Stage(table: string, t: Table)
      modifies this
      ensures working == old(working)[table := t]
      ensures committed == old(committed) && serial == old(serial)
    {
      working := working[table := t];
    }

    /** session.commit: every pending write of the session, in every table, becomes permanent. */
    method Commit()
      modifies this
      ensures working == old(working) && committed == old(working) && serial == old(serial)
    {
      committed := working;
    }

    /** The rollback a failed flush causes: every write not yet committed is discarded. */
    method Rollback()
      modifies this
      ensures working == old(committed) && committed == old(committed) && serial == old(serial)
    {
      working := committed;
    }

    /** nextval of a table's SERIAL sequence; sequences are not rolled back. */
    method NextVal(table: string) returns (v: int)
      modifies this
      ensures v == old(SerialOf(table)) + 1
      ensures serial == old(serial)[table := v]
      ensures working == old(working) && committed == old(committed)
    {
      v := SerialOf(table) + 1;
      serial := serial[table := v];
    }
  }
}

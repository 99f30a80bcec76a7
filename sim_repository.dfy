/**
 * The generic repository of the ebsi_sim snapshot: CRUD over one table model
 * through the request's session, where every write either commits or only
 * flushes, as the caller chooses, and `count` counts the matching records.
 */
module SimRepository {
  import opened Results
  import opened Records
  import opened Tables
  import opened Queries
  import opened Sessions

  class BaseRepository {
    /** The table model the repository manages. */
    const model: Model
    /** The session of the current request (`db.session`). */
    const session: Session

    /** The model's table exists, in what the session reads and in what is committed, and both satisfy the table invariant. */
    ghost predicate Valid()
      reads session
    {
      && ModelOk(model)
      && model.table in session.working && Inv(model, session.working[model.table])
      && model.table in session.committed && Inv(model, session.committed[model.table])
    }

    /** The model's table as this session reads it. */
    function Working(): Table
      reads session
    {
      if model.table in session.working then session.working[model.table] else EmptyTable
    }

    constructor (model: Model, session: Session)
      requires ModelOk(model)
      requires Holds(session.working, model) && Holds(session.committed, model)
      ensures this.model == model && this.session == session
      ensures Valid()
    {
      this.model := model;
      this.session := session;
    }

    /** `session.get(model, id)`: the record stored under the primary key id, or None. */
    method Get(id: Value) returns (r: Option<Record>)
      requires Valid()
      ensures r.Some? <==> id in Working().rows
      ensures r.Some? ==> r.value == Working().rows[id] && r.value[model.key] == id && r.value.Keys == model.fields
    {
      var t := Working();
      if id in t.rows {
        r := Some(t.rows[id]);
      } else {
        r := None;
      }
    }

    /** The filtered, ordered and windowed records, or the error the statement raises. */
    method List(offset: int, limit: int, orderBy: Option<Field>, filters: seq<(Field, Value)>)
      returns (r: Result<seq<Record>, Error>)
      requires Valid()
      ensures r == ListSpec(model, Working(), offset, limit, orderBy, filters)
    {
      var w := Where(model, filters);
      if w.Err? {
        return Err(w.error);
      }
      var order: Option<Field> := None;
      if orderBy.Some? && orderBy.value != "" {
        if orderBy.value !in model.fields {
          return Err(UnknownField(orderBy.value));
        }
        order := orderBy;
      }
      r := Select(Query(w.value, order, offset, limit), Rows(Working()));
    }

    /** The number of records matching the filters, or the error of the first unknown filter field. */
    method Count(filters: seq<(Field, Value)>) returns (r: Result<nat, Error>)
      requires Valid()
      ensures r == CountSpec(model, Working(), filters)
    {
      var w := Where(model, filters);
      if w.Err? {
        return Err(w.error);
      }
      r := Ok(|Filtered(Rows(Working()), w.value)|);
    }

    /**
     * Builds the model from data and adds it; the flush (and the commit when
     * asked) stores it when it has a fresh key and no NULL column, and otherwise
     * fails and rolls the session back. A SERIAL key is drawn either way.
     */
    method Create(data: map<Field, Value>, commit: bool) returns (r: Result<Record, Error>)
      requires Valid()
      modifies session
      ensures Valid()
      ensures session.serial ==
        if UsesSerial(model, data) then old(session.serial)[model.table := old(session.SerialOf(model.table)) + 1]
        else old(session.serial)
      ensures var rec := CreateRecord(model, data, old(session.SerialOf(model.table)) + 1);
        if Storable(model, old(Working()), rec) then
          && r == Ok(rec)
          && session.working == old(session.working)[model.table := Insert(model, old(Working()), rec)]
          && session.committed == if commit then session.working else old(session.committed)
        else
          && r == Err(Integrity)
          && session.working == old(session.committed)
          && session.committed == old(session.committed)
    {
      ghost var next := session.SerialOf(model.table) + 1;
      var obj := Construct(model, data);
      if UsesSerial(model, data) {
        var v := session.NextVal(model.table);
        obj := obj[model.key := Int(v)];
      }
      assert obj == CreateRecord(model, data, next);
      var t := Working();
      if !Storable(model, t, obj) {
        session.Rollback();
        return Err(Integrity);
      }
      InsertSpec(model, t, obj);
      session.Stage(model.table, Insert(model, t, obj));
      if commit {
        session.Commit();
      }
      r := Ok(obj);
    }

    /**
     * Sets data's fields in order on the record stored under id. A missing
     * record raises NotFound; an unknown field raises with the assignments
     * before it left on the session's object; a NULL column fails the flush and
     * rolls back; otherwise the changed record is flushed, and committed when asked.
     */
    method Update(id: Value, data: seq<(Field, Value)>, commit: bool) returns (r: Result<Record, Error>)
      requires Valid()
      requires Unnamed(data, model.key)
      modifies session
      ensures Valid()
      ensures session.serial == old(session.serial)
      ensures id !in old(Working().rows) ==> r == Err(NotFound(id)) && unchanged(session)
      ensures id in old(Working().rows) ==>
        var a := ApplyData(model, old(Working().rows[id]), data);
        if a.unknown.Some? then
          && r == Err(UnknownField(a.unknown.value))
          && session.working == old(session.working)[model.table := Replace(old(Working()), id, a.rec)]
          && session.committed == old(session.committed)
        else if !NoNulls(a.rec) then
          && r == Err(Integrity)
          && session.working == old(session.committed)
          && session.committed == old(session.committed)
        else
          && r == Ok(a.rec)
          && session.working == old(session.working)[model.table := Replace(old(Working()), id, a.rec)]
          && session.committed == if commit then session.working else old(session.committed)
    {
      var found := Get(id);
      if found.None? {
        return Err(NotFound(id));
      }
      var t := Working();
      var rec0 := found.value;
      ApplyDataSpec(model, rec0, data);
      var obj := rec0;
      for i := 0 to |data|
        invariant ApplyData(model, rec0, data) == ApplyData(model, obj, data[i..])
      {
        var (field, value) := data[i];
        if field !in model.fields {
          ReplaceSpec(model, t, id, obj);
          session.Stage(model.table, Replace(t, id, obj));
          return Err(UnknownField(field));
        }
        assert data[i..][1..] == data[i + 1..];
        obj := obj[field := value];
      }
      assert data[|data|..] == [];
      if !NoNulls(obj) {
        session.Rollback();
        return Err(Integrity);
      }
      ReplaceSpec(model, t, id, obj);
      session.Stage(model.table, Replace(t, id, obj));
      if commit {
        session.Commit();
      }
      r := Ok(obj);
    }

    /** Deletes the record stored under id, committing when asked; an absent id changes nothing. */
    method Delete(id: Value, commit: bool)
      requires Valid()
      modifies session
      ensures Valid()
      ensures id !in old(Working().rows) ==> unchanged(session)
      ensures id in old(Working().rows) ==>
        && session.working == old(session.working)[model.table := Remove(old(Working()), id)]
        && session.committed == (if commit then session.working else old(session.committed))
        && session.serial == old(session.serial)
    {
      var found := Get(id);
      if found.None? {
        return;
      }
      var t := Working();
      RemoveSpec(model, t, id);
      session.Stage(model.table, Remove(t, id));
      if commit {
        session.Commit();
      }
    }
  }

  /** The three repositories of the snapshot over one session whose tables exist. */
  method Repositories(session: Session) returns (documents: BaseRepository, events: BaseRepository, accesses: BaseRepository)
    requires Holds(session.working, SimDocument) && Holds(session.committed, SimDocument)
    requires Holds(session.working, SimEvent) && Holds(session.committed, SimEvent)
    requires Holds(session.working, SimAccess) && Holds(session.committed, SimAccess)
    ensures documents.model == SimDocument && events.model == SimEvent && accesses.model == SimAccess
    ensures documents.session == session && events.session == session && accesses.session == session
    ensures documents.Valid() && events.Valid() && accesses.Valid()
  {
    documents := new BaseRepository(SimDocument, session);
    events := new BaseRepository(SimEvent, session);
    accesses := new BaseRepository(SimAccess, session);
  }

  /** A session over a database whose three tables are empty, and the snapshot's repositories over it. */
  method Open() returns (session: Session, documents: BaseRepository, events: BaseRepository, accesses: BaseRepository)
    ensures fresh(session)
    ensures documents.model == SimDocument && events.model == SimEvent && accesses.model == SimAccess
    ensures documents.session == session && events.session == session && accesses.session == session
    ensures documents.Valid() && events.Valid() && accesses.Valid()
    ensures documents.Working() == events.Working() == accesses.Working() == EmptyTable
  {
    var tables := {"documents", "events", "accesses"};
    session := new Session(tables);
    EmptyDatabaseHolds(tables, SimDocument);
    EmptyDatabaseHolds(tables, SimEvent);
    EmptyDatabaseHolds(tables, SimAccess);
    documents, events, accesses := Repositories(session);
  }
}

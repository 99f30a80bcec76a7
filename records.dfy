/** Option and Result, for the absent records and the error paths of the repositories and the API. */
module Results {
  datatype Option<+T> = None | Some(value: T)

  datatype Result<+T, +E> = Ok(value: T) | Err(error: E)
}

/**
 * The record model shared by both snapshots of the track-and-trace registry:
 * field values, records as maps from field name to value, the table models
 * (Document, Event, Access) and the errors the persistence layer and the API raise.
 */
module Records {
  import opened Results

  /** The permission of an access grant, in declaration order. */
  datatype Permission = Write | Delegate | Creator

  /** The string value each permission carries on the wire and in the database. */
  function PermissionName(p: Permission): string
  {
    match p
    case Write => "write"
    case Delegate => "delegate"
    case Creator => "creator"
  }

  /** Validation of a permission string: only the three enumerated values are accepted. */
  function ParsePermission(s: string): (r: Option<Permission>)
    ensures r.Some? ==> PermissionName(r.value) == s
    ensures r.None? ==> s != "write" && s != "delegate" && s != "creator"
  {
    if s == "write" then Some(Write)
    else if s == "delegate" then Some(Delegate)
    else if s == "creator" then Some(Creator)
    else None
  }

  lemma PermissionNameParses(p: Permission)
    ensures ParsePermission(PermissionName(p)) == Some(p)
  {
  }

  /**
   * A column value. `Null` is Python's None (SQL NULL); datetimes are carried
   * as their text; `Perm` is a value of the permission enumeration.
   */
  datatype Value = Null | Str(s: string) | Int(i: int) | Perm(p: Permission)

  type Field = string

  /** One row of a table: the model's field names mapped to their values. */
  type Record = map<Field, Value>

  /**
   * A table model: its class name, its table name, its primary-key field,
   * all its fields, and whether the primary key is an integer the database
   * draws from a sequence (SERIAL) when no value is given.
   */
  datatype Model = Model(name: string, table: string, key: Field, fields: set<Field>, serialKey: bool)

  predicate ModelOk(m: Model)
  {
    m.key in m.fields
  }

  /** Errors raised by the persistence layer and the API handlers. */
  datatype Error =
    | UnknownField(field: Field)   // getattr/setattr on a name the model does not have
    | NotFound(key: Value)         // update of an id with no record (ValueError)
    | Integrity                    // a flush rejected a row: NULL column or duplicate primary key
    | UngroupedOrder(field: Field) // the database refuses ORDER BY a column of an ungrouped aggregate query
    | NegativeOffset               // the database refuses OFFSET < 0
    | NegativeLimit                // the database refuses LIMIT < 0
    | DivisionByZero               // ceil(count / page_size) with page_size == 0
    | InvalidMethod(name: string)  // a JSON-RPC method outside the enumeration

  // The table models of the ebsi_sim snapshot.

  const SimDocument := Model("Document", "documents", "id",
    {"id", "metadata_text", "timestamp_datetime", "timestamp_source", "timestamp_proof", "creator"}, false)

  const SimEvent := Model("Event", "events", "id",
    {"id", "document_id", "timestamp_datetime", "timestamp_source", "timestamp_proof",
     "metadata_text", "sender", "origin", "hash", "external_hash"}, false)

  const SimAccess := Model("Access", "accesses", "id",
    {"id", "document_id", "subject", "granted_by", "permission"}, true)

  // The table models of the app snapshot.

  const AppDocument := Model("Document", "documents", "id",
    {"id", "metadata_json", "timestamp_datetime", "timestamp_source", "timestamp_proof", "creator"}, false)

  const AppEvent := Model("Event", "events", "id",
    {"id", "document_id", "timestamp_datetime", "timestamp_source", "timestamp_proof",
     "metadata_json", "sender", "origin", "hash", "external_hash"}, false)

  const AppAccess := Model("Access", "accesses", "id",
    {"id", "document_id", "subject", "grantedBy", "permission"}, false)

  /** The value of a field, or Null when the record does not have it. */
  function FieldOf(r: Record, f: Field): Value
  {
    if f in r then r[f] else Null
  }
}

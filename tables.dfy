/**
 * A database table as the session sees it: records by primary key plus the
 * keys in storage order (the order rows come back in when no ORDER BY is given),
 * and the three single-record writes a repository performs on it.
 */
module Tables {
  import opened Results
  import opened Records

  datatype Table = Table(rows: map<Value, Record>, order: seq<Value>)

  const EmptyTable := Table(map[], [])

  predicate Distinct(s: seq<Value>)
  {
    forall i, j :: 0 <= i < j < |s| ==> s[i] != s[j]
  }

  /**
   * Every stored record has exactly the model's fields and is stored under the
   * value of its own primary key; the storage order lists every key exactly once.
   */
  ghost predicate Inv(m: Model, t: Table)
  {
    && Distinct(t.order)
    && (forall k :: k in t.rows <==> k in t.order)
    && (forall k :: k in t.rows ==> t.rows[k].Keys == m.fields && m.key in t.rows[k] && t.rows[k][m.key] == k)
  }

  function RowAt(t: Table, k: Value): Record
  {
    if k in t.rows then t.rows[k] else map[]
  }

  /** The records of the table in storage order. */
  function Rows(t: Table): seq<Record>
  {
    seq(|t.order|, i requires 0 <= i < |t.order| => RowAt(t, t.order[i]))
  }

  /** session.add of a new record: stored under its key, placed last in storage order. */
  function Insert(m: Model, t: Table, r: Record): Table
    requires m.key in r
  {
    Table(t.rows[r[m.key] := r], t.order + [r[m.key]])
  }

  /** Every element of s except k, in order. */
  function Without(s: seq<Value>, k: Value): (w: seq<Value>)
    ensures forall x :: x in w <==> x in s && x != k
    ensures |w| <= |s|
  {
    if s == [] then [] else (if s[0] == k then [] else [s[0]]) + Without(s[1..], k)
  }

  /** session.delete of the record stored under k. */
  function Remove(t: Table, k: Value): Table
  {
    Table(t.rows - {k}, Without(t.order, k))
  }

  /** A flush of the changed record stored under k: same key, same place in storage order. */
  function Replace(t: Table, k: Value, r: Record): Table
  {
    Table(t.rows[k := r], t.order)
  }

  lemma EmptyTableInv(m: Model)
    ensures Inv(m, EmptyTable) && Rows(EmptyTable) == []
  {
  }

  lemma {:induction false} WithoutDistinct(s: seq<Value>, k: Value)
    requires Distinct(s)
    ensures Distinct(Without(s, k))
    ensures k in s ==> |Without(s, k)| == |s| - 1
    ensures k !in s ==> Without(s, k) == s
  {
    if s != [] {
      WithoutDistinct(s[1..], k);
      var w := Without(s, k);
      var head := if s[0] == k then [] else [s[0]];
      assert w == head + Without(s[1..], k);
      assert s[0] !in s[1..];
      if s[0] == k {
        assert k !in s[1..];
      }
    }
  }

  lemma {:induction false} DistinctCard(s: seq<Value>)
    requires Distinct(s)
    ensures |set x | x in s| == |s|
  {
    if s != [] {
      DistinctCard(s[1..]);
      assert (set x | x in s) == {s[0]} + (set x | x in s[1..]);
      assert s[0] !in (set x | x in s[1..]);
    }
  }

  /** There are as many rows as stored records, and each row is the record stored under its own key. */
  lemma RowsAreRecords(m: Model, t: Table)
    requires Inv(m, t)
    ensures |Rows(t)| == |t.rows|
    ensures forall i :: 0 <= i < |Rows(t)| ==>
      m.key in Rows(t)[i] && Rows(t)[i][m.key] in t.rows && t.rows[Rows(t)[i][m.key]] == Rows(t)[i]
  {
    DistinctCard(t.order);
    assert t.rows.Keys == set x | x in t.order;
  }

  /** Inserting a record with a fresh key keeps the invariant and adds exactly that record. */
  lemma InsertSpec(m: Model, t: Table, r: Record)
    requires Inv(m, t)
    requires r.Keys == m.fields && m.key in r && r[m.key] !in t.rows
    ensures Inv(m, Insert(m, t, r))
    ensures Insert(m, t, r).rows.Keys == t.rows.Keys + {r[m.key]}
    ensures Insert(m, t, r).rows[r[m.key]] == r
    ensures |Insert(m, t, r).rows| == |t.rows| + 1
    ensures forall k :: k in t.rows ==> Insert(m, t, r).rows[k] == t.rows[k]
  {
    InsertKeepsInv(m, t, r);
    FreshKey(t.rows, r[m.key], r);
  }

  lemma FreshKey(rows: map<Value, Record>, k: Value, r: Record)
    requires k !in rows
    ensures rows[k := r].Keys == rows.Keys + {k}
    ensures |rows[k := r]| == |rows| + 1
    ensures forall k' :: k' in rows ==> rows[k := r][k'] == rows[k']
  {
  }

  /** After an insert the table lists its former records in their order, then the new one. */
  lemma InsertListing(m: Model, t: Table, r: Record)
    requires Inv(m, t)
    requires m.key in r && r[m.key] !in t.rows
    ensures Rows(Insert(m, t, r)) == Rows(t) + [r]
  {
    InsertRows(t, r, r[m.key]);
  }

  lemma InsertKeepsInv(m: Model, t: Table, r: Record)
    requires Inv(m, t)
    requires r.Keys == m.fields && m.key in r && r[m.key] !in t.rows
    ensures Inv(m, Insert(m, t, r))
  {
    assert r[m.key] !in t.order;
    InsertKeepsOrderDistinct(t.order, r[m.key]);
  }

  lemma InsertKeepsOrderDistinct(s: seq<Value>, k: Value)
    requires Distinct(s) && k !in s
    ensures Distinct(s + [k])
  {
    forall i, j | 0 <= i < j < |s| + 1
      ensures (s + [k])[i] != (s + [k])[j]
    {
      if j == |s| {
        assert (s + [k])[i] == s[i];
      }
    }
  }

  lemma InsertRows(t: Table, r: Record, k: Value)
    requires k !in t.rows && forall x :: x in t.order ==> x in t.rows
    ensures Rows(Table(t.rows[k := r], t.order + [k])) == Rows(t) + [r]
  {
    var t' := Table(t.rows[k := r], t.order + [k]);
    forall i | 0 <= i < |t.order|
      ensures Rows(t')[i] == Rows(t)[i]
    {
      assert t'.order[i] == t.order[i] != k;
    }
  }

  /** Removing the record under k keeps the invariant and removes exactly that record. */
  lemma RemoveSpec(m: Model, t: Table, k: Value)
    requires Inv(m, t)
    ensures Inv(m, Remove(t, k))
    ensures k in t.rows ==> |Remove(t, k).rows| == |t.rows| - 1
    ensures k !in t.rows ==> Remove(t, k) == t
    ensures Remove(t, k).rows.Keys == t.rows.Keys - {k}
    ensures forall k' :: k' in Remove(t, k).rows ==> Remove(t, k).rows[k'] == t.rows[k']
  {
    RemoveKeepsInv(m, t, k);
    if k !in t.rows {
      RemoveAbsent(m, t, k);
    }
  }

  /** After a delete the table lists its former records except the deleted one, in their order. */
  lemma RemoveListing(m: Model, t: Table, k: Value)
    requires Inv(m, t)
    ensures Rows(Remove(t, k)) == DropKey(m, Rows(t), k)
  {
    assert KeysStored(m, t.rows, t.order);
    RowsOfWithout(m, t.rows, t.order, k);
  }

  lemma RemoveKeepsInv(m: Model, t: Table, k: Value)
    requires Inv(m, t)
    ensures Inv(m, Remove(t, k))
  {
    WithoutDistinct(t.order, k);
  }

  lemma RemoveAbsent(m: Model, t: Table, k: Value)
    requires Inv(m, t) && k !in t.rows
    ensures Remove(t, k) == t
  {
    WithoutDistinct(t.order, k);
    assert t.rows - {k} == t.rows;
  }

  /** The records of s whose key is not k, in order. */
  function DropKey(m: Model, s: seq<Record>, k: Value): seq<Record>
  {
    if s == [] then [] else (if FieldOf(s[0], m.key) == k then [] else [s[0]]) + DropKey(m, s[1..], k)
  }

  lemma RowsCons(rows: map<Value, Record>, h: Value, o: seq<Value>)
    ensures Rows(Table(rows, [h] + o)) == [RowAt(Table(rows, o), h)] + Rows(Table(rows, o))
  {
  }

  lemma DropKeyCons(m: Model, x: Record, s: seq<Record>, k: Value)
    ensures DropKey(m, [x] + s, k) == (if FieldOf(x, m.key) == k then [] else [x]) + DropKey(m, s, k)
  {
    assert ([x] + s)[0] == x && ([x] + s)[1..] == s;
  }

  /** Every key listed in o is stored, under a record whose key field holds it. */
  predicate KeysStored(m: Model, rows: map<Value, Record>, o: seq<Value>)
  {
    forall i :: 0 <= i < |o| ==> o[i] in rows && FieldOf(rows[o[i]], m.key) == o[i]
  }

  /** Listing the keys of o other than k over the records without k drops exactly k's record from the listing of o. */
  lemma {:induction false} RowsOfWithout(m: Model, rows: map<Value, Record>, o: seq<Value>, k: Value)
    requires KeysStored(m, rows, o)
    ensures Rows(Table(rows - {k}, Without(o, k))) == DropKey(m, Rows(Table(rows, o)), k)
  {
    if o != [] {
      var h := o[0];
      var rest := o[1..];
      assert o == [h] + rest;
      assert KeysStored(m, rows, rest) by {
        forall i | 0 <= i < |rest|
          ensures rest[i] in rows && FieldOf(rows[rest[i]], m.key) == rest[i]
        {
          assert rest[i] == o[i + 1];
        }
      }
      RowsOfWithout(m, rows, rest, k);
      RowsCons(rows, h, rest);
      var row := RowAt(Table(rows, rest), h);
      assert FieldOf(row, m.key) == h;
      DropKeyCons(m, row, Rows(Table(rows, rest)), k);
      if h != k {
        assert Without(o, k) == [h] + Without(rest, k);
        RowsCons(rows - {k}, h, Without(rest, k));
      } else {
        assert Without(o, k) == Without(rest, k);
      }
    }
  }

  /** Replacing the record under k with one of the same key keeps the invariant and touches only row k. */
  lemma ReplaceSpec(m: Model, t: Table, k: Value, r: Record)
    requires Inv(m, t)
    requires k in t.rows && r.Keys == m.fields && m.key in r && r[m.key] == k
    ensures Inv(m, Replace(t, k, r))
    ensures Replace(t, k, r).rows.Keys == t.rows.Keys
    ensures Replace(t, k, r).rows[k] == r
    ensures forall k' :: k' in t.rows && k' != k ==> Replace(t, k, r).rows[k'] == t.rows[k']
  {
    assert Replace(t, k, r).order == t.order;
  }

  /** After an update the table lists the same keys in the same order, with the new record in the updated one's place. */
  lemma ReplaceListing(t: Table, k: Value, r: Record)
    ensures |Rows(Replace(t, k, r))| == |Rows(t)|
    ensures forall i :: 0 <= i < |Rows(t)| ==>
      Rows(Replace(t, k, r))[i] == if t.order[i] == k then r else Rows(t)[i]
  {
  }

  // What the ORM does with the keyword arguments of a create or an update.

  /**
   * `model(**data)` for a table model: each field of the model takes its value
   * from data, names the model does not have are ignored, and a field data
   * does not give stays unset, which the INSERT writes as NULL.
   */
  function Construct(m: Model, data: map<Field, Value>): (r: Record)
    ensures r.Keys == m.fields
    ensures forall f :: f in m.fields && f in data ==> r[f] == data[f]
    ensures forall f :: f in m.fields && f !in data ==> r[f] == Null
  {
    map f | f in m.fields :: if f in data then data[f] else Null
  }

  /** Whether the INSERT leaves the key to the table's SERIAL sequence. */
  predicate UsesSerial(m: Model, data: map<Field, Value>)
  {
    m.serialKey && FieldOf(data, m.key) == Null
  }

  /** The record a create stores: the constructed model, with a SERIAL key drawn as `next` when none is given. */
  function CreateRecord(m: Model, data: map<Field, Value>, next: int): (r: Record)
    requires ModelOk(m)
    ensures r.Keys == m.fields
    ensures forall f :: f in m.fields && f != m.key ==> r[f] == FieldOf(data, f)
    ensures r[m.key] == if UsesSerial(m, data) then Int(next) else FieldOf(data, m.key)
  {
    var c := Construct(m, data);
    if UsesSerial(m, data) then c[m.key := Int(next)] else c
  }

  /** Every column of the database is NOT NULL: a flushed row may hold no Null. */
  predicate NoNulls(r: Record)
  {
    forall f :: f in r ==> r[f] != Null
  }

  /** A flush accepts a new row when its key is not taken and no column is Null. */
  predicate Storable(m: Model, t: Table, r: Record)
  {
    m.key in r && r[m.key] !in t.rows && NoNulls(r)
  }

  /** The record after a setattr loop, and the first name setattr refused, if any. */
  datatype Applied = Applied(rec: Record, unknown: Option<Field>)

  /**
   * `for field, value in data: setattr(obj, field, value)`: assignments apply in
   * order; the first name the model does not have raises, and the assignments
   * before it have already been made on the object.
   */
  function ApplyData(m: Model, rec: Record, data: seq<(Field, Value)>): Applied
    decreases |data|
  {
    if data == [] then Applied(rec, None)
    else if data[0].0 !in m.fields then Applied(rec, Some(data[0].0))
    else ApplyData(m, rec[data[0].0 := data[0].1], data[1..])
  }

  /** No pair of data names field f. */
  predicate Unnamed(data: seq<(Field, Value)>, f: Field)
  {
    forall j :: 0 <= j < |data| ==> data[j].0 != f
  }

  /**
   * The setattr loop keeps the record's fields and its key; it fails exactly
   * when data names a field the model lacks; when it succeeds, every field
   * named takes the value of its last assignment and every other field is unchanged.
   */
  lemma {:induction false} ApplyDataSpec(m: Model, rec: Record, data: seq<(Field, Value)>)
    requires rec.Keys == m.fields && m.key in rec
    requires Unnamed(data, m.key)
    ensures var a := ApplyData(m, rec, data);
      && a.rec.Keys == m.fields
      && a.rec[m.key] == rec[m.key]
      && (a.unknown.None? <==> forall i :: 0 <= i < |data| ==> data[i].0 in m.fields)
      && (a.unknown.Some? ==> a.unknown.value !in m.fields)
      && (a.unknown.None? ==> forall f :: f in m.fields && Unnamed(data, f) ==> a.rec[f] == rec[f])
      && (a.unknown.None? ==> forall i :: 0 <= i < |data| && Unnamed(data[i + 1..], data[i].0) ==> a.rec[data[i].0] == data[i].1)
    decreases |data|
  {
    if data != [] && data[0].0 in m.fields {
      var rec' := rec[data[0].0 := data[0].1];
      var rest := data[1..];
      assert Unnamed(rest, m.key);
      ApplyDataSpec(m, rec', rest);
      var a := ApplyData(m, rec', rest);
      if a.unknown.None? {
        forall f | f in m.fields && Unnamed(data, f)
          ensures a.rec[f] == rec[f]
        {
          assert Unnamed(rest, f);
        }
        forall i | 0 <= i < |data| && Unnamed(data[i + 1..], data[i].0)
          ensures a.rec[data[i].0] == data[i].1
        {
          if i == 0 {
            assert rest == data[1..];
          } else {
            assert rest[i - 1] == data[i] && rest[i..] == data[i + 1..];
          }
        }
      }
    }
  }
}

/**
 * What the database does with the statements the repositories build:
 * WHERE field == value filters, ORDER BY one field, OFFSET and LIMIT, and
 * the count aggregate. Both repository snapshots build their statements
 * with the same filter loop (`Where`) and are specified by the functions here.
 */
module Queries {
  import opened Results
  import opened Records
  import opened Tables

  /** The conjunction of `field == value` conditions a filter loop adds to a statement. */
  predicate Matches(r: Record, conds: seq<(Field, Value)>)
  {
    forall i :: 0 <= i < |conds| ==> FieldOf(r, conds[i].0) == conds[i].1
  }

  /** The rows that satisfy every condition, in their original order. */
  function Filtered(s: seq<Record>, conds: seq<(Field, Value)>): seq<Record>
  {
    if s == [] then [] else (if Matches(s[0], conds) then [s[0]] else []) + Filtered(s[1..], conds)
  }

  lemma {:induction false} FilteredSpec(s: seq<Record>, conds: seq<(Field, Value)>)
    ensures forall x :: x in Filtered(s, conds) <==> x in s && Matches(x, conds)
    ensures |Filtered(s, conds)| <= |s|
  {
    if s != [] {
      FilteredSpec(s[1..], conds);
      assert s == [s[0]] + s[1..];
    }
  }

  /** Without conditions nothing is filtered out. */
  lemma {:induction false} NoConditions(s: seq<Record>)
    ensures Filtered(s, []) == s
  {
    if s != [] {
      NoConditions(s[1..]);
      assert Matches(s[0], []);
    }
  }

  // ORDER BY: ascending, integers numerically, text character by character,
  // enumeration values in declaration order, NULLs last.

  function Rank(v: Value): nat
  {
    match v
    case Int(_) => 0
    case Str(_) => 1
    case Perm(_) => 2
    case Null => 3
  }

  function PermRank(p: Permission): nat
  {
    match p
    case Write => 0
    case Delegate => 1
    case Creator => 2
  }

  predicate StrLe(a: string, b: string)
    decreases |a|
  {
    |a| == 0 || (|b| > 0 && (a[0] < b[0] || (a[0] == b[0] && StrLe(a[1..], b[1..]))))
  }

  predicate ValueLe(a: Value, b: Value)
  {
    if a.Int? && b.Int? then a.i <= b.i
    else if a.Str? && b.Str? then StrLe(a.s, b.s)
    else if a.Perm? && b.Perm? then PermRank(a.p) <= PermRank(b.p)
    else Rank(a) <= Rank(b)
  }

  lemma {:induction false} StrLeTotal(a: string, b: string)
    ensures StrLe(a, b) || StrLe(b, a)
    decreases |a|
  {
    if |a| > 0 && |b| > 0 && a[0] == b[0] {
      StrLeTotal(a[1..], b[1..]);
    }
  }

  lemma {:induction false} StrLeTrans(a: string, b: string, c: string)
    requires StrLe(a, b) && StrLe(b, c)
    ensures StrLe(a, c)
    decreases |a|
  {
    if |a| > 0 && a[0] == b[0] && b[0] == c[0] {
      StrLeTrans(a[1..], b[1..], c[1..]);
    }
  }

  lemma ValueLeTotal(a: Value, b: Value)
    ensures ValueLe(a, b) || ValueLe(b, a)
  {
    if a.Str? && b.Str? {
      StrLeTotal(a.s, b.s);
    }
  }

  lemma ValueLeTrans(a: Value, b: Value, c: Value)
    requires ValueLe(a, b) && ValueLe(b, c)
    ensures ValueLe(a, c)
  {
    if a.Str? && b.Str? && c.Str? {
      StrLeTrans(a.s, b.s, c.s);
    }
  }

  predicate SortedBy(s: seq<Record>, f: Field)
  {
    forall i, j :: 0 <= i < j < |s| ==> ValueLe(FieldOf(s[i], f), FieldOf(s[j], f))
  }

  /** Places x before the first row whose field f is not below x's. */
  function InsertBy(x: Record, s: seq<Record>, f: Field): seq<Record>
  {
    if s == [] then [x]
    else if ValueLe(FieldOf(x, f), FieldOf(s[0], f)) then [x] + s
    else [s[0]] + InsertBy(x, s[1..], f)
  }

  /** The rows ordered by field f; rows with equal values keep their storage order. */
  function SortBy(s: seq<Record>, f: Field): seq<Record>
  {
    if s == [] then [] else InsertBy(s[0], SortBy(s[1..], f), f)
  }

  /** Every row of s has field f at or above v. */
  predicate AllAbove(v: Value, s: seq<Record>, f: Field)
  {
    forall k :: 0 <= k < |s| ==> ValueLe(v, FieldOf(s[k], f))
  }

  lemma PrependSorted(x: Record, s: seq<Record>, f: Field)
    requires SortedBy(s, f) && AllAbove(FieldOf(x, f), s, f)
    ensures SortedBy([x] + s, f)
  {
    var r := [x] + s;
    forall i, j | 0 <= i < j < |r|
      ensures ValueLe(FieldOf(r[i], f), FieldOf(r[j], f))
    {
      if i > 0 {
        assert r[i] == s[i - 1] && r[j] == s[j - 1];
      } else {
        assert r[j] == s[j - 1];
      }
    }
  }

  lemma {:induction false} InsertByAbove(v: Value, x: Record, s: seq<Record>, f: Field)
    requires AllAbove(v, s, f) && ValueLe(v, FieldOf(x, f))
    ensures AllAbove(v, InsertBy(x, s, f), f)
  {
    if s != [] && !ValueLe(FieldOf(x, f), FieldOf(s[0], f)) {
      InsertByAbove(v, x, s[1..], f);
      var rest := InsertBy(x, s[1..], f);
      assert InsertBy(x, s, f) == [s[0]] + rest;
    }
  }

  lemma {:induction false} InsertByMultiset(x: Record, s: seq<Record>, f: Field)
    ensures multiset(InsertBy(x, s, f)) == multiset(s) + multiset{x}
  {
    if s != [] && !ValueLe(FieldOf(x, f), FieldOf(s[0], f)) {
      InsertByMultiset(x, s[1..], f);
      assert s == [s[0]] + s[1..];
    }
  }

  lemma {:induction false} InsertBySorted(x: Record, s: seq<Record>, f: Field)
    requires SortedBy(s, f)
    ensures SortedBy(InsertBy(x, s, f), f)
  {
    if s == [] {
    } else if ValueLe(FieldOf(x, f), FieldOf(s[0], f)) {
      forall k | 0 <= k < |s|
        ensures ValueLe(FieldOf(x, f), FieldOf(s[k], f))
      {
        if k > 0 {
          ValueLeTrans(FieldOf(x, f), FieldOf(s[0], f), FieldOf(s[k], f));
        }
      }
      PrependSorted(x, s, f);
    } else {
      ValueLeTotal(FieldOf(x, f), FieldOf(s[0], f));
      InsertBySorted(x, s[1..], f);
      assert AllAbove(FieldOf(s[0], f), s[1..], f) by {
        forall k | 0 <= k < |s[1..]|
          ensures ValueLe(FieldOf(s[0], f), FieldOf(s[1..][k], f))
        {
          assert s[1..][k] == s[k + 1];
        }
      }
      InsertByAbove(FieldOf(s[0], f), x, s[1..], f);
      PrependSorted(s[0], InsertBy(x, s[1..], f), f);
    }
  }

  /** Sorting orders the rows by the field and keeps exactly the same rows. */
  lemma {:induction false} SortBySpec(s: seq<Record>, f: Field)
    ensures SortedBy(SortBy(s, f), f)
    ensures multiset(SortBy(s, f)) == multiset(s)
  {
    if s != [] {
      SortBySpec(s[1..], f);
      InsertBySorted(s[0], SortBy(s[1..], f), f);
      InsertByMultiset(s[0], SortBy(s[1..], f), f);
      assert s == [s[0]] + s[1..];
    }
  }

  function Ordered(s: seq<Record>, orderBy: Option<Field>): seq<Record>
  {
    match orderBy
    case None => s
    case Some(f) => SortBy(s, f)
  }

  function Min(a: int, b: int): int
  {
    if a <= b then a else b
  }

  /** OFFSET then LIMIT: skip the first `offset` rows, keep at most `limit` of the rest. */
  function Window<T>(s: seq<T>, offset: nat, limit: nat): (w: seq<T>)
    ensures |w| == Min(limit, |s| - Min(offset, |s|))
    ensures forall i :: 0 <= i < |w| ==> w[i] == s[offset + i]
  {
    var rest := s[Min(offset, |s|)..];
    if limit <= |rest| then rest[..limit] else rest
  }

  /** A SELECT statement: its WHERE conditions, its ORDER BY field, its OFFSET and LIMIT. */
  datatype Query = Query(conds: seq<(Field, Value)>, orderBy: Option<Field>, offset: int, limit: int)

  /** The rows the database returns for a statement over a table's rows. */
  function Select(q: Query, rows: seq<Record>): Result<seq<Record>, Error>
  {
    if q.offset < 0 then Err(NegativeOffset)
    else if q.limit < 0 then Err(NegativeLimit)
    else Ok(Window(Ordered(Filtered(rows, q.conds), q.orderBy), q.offset, q.limit))
  }

  /**
   * The scalar of `SELECT count(...) ... OFFSET ... LIMIT`: the aggregate is a
   * single row, which OFFSET and LIMIT may drop, leaving None. The database
   * refuses an ORDER BY column, which is neither grouped nor aggregated, when
   * it analyses the statement, before OFFSET and LIMIT are evaluated.
   */
  function Aggregate(q: Query, rows: seq<Record>): Result<Option<nat>, Error>
  {
    if q.orderBy.Some? then Err(UngroupedOrder(q.orderBy.value))
    else if q.offset < 0 then Err(NegativeOffset)
    else if q.limit < 0 then Err(NegativeLimit)
    else
      var one := Window([|Filtered(rows, q.conds)|], q.offset, q.limit);
      Ok(if one == [] then None else Some(one[0]))
  }

  /** The position of the first filter whose field the model does not have. */
  function FirstUnknown(m: Model, filters: seq<(Field, Value)>): (r: Option<nat>)
    ensures r.None? <==> forall i :: 0 <= i < |filters| ==> filters[i].0 in m.fields
    ensures r.Some? ==> r.value < |filters| && filters[r.value].0 !in m.fields
    ensures r.Some? ==> forall j :: 0 <= j < r.value ==> filters[j].0 in m.fields
  {
    if filters == [] then None
    else if filters[0].0 !in m.fields then Some(0)
    else match FirstUnknown(m, filters[1..])
      case None => None
      case Some(j) => Some(j + 1)
  }

  /** The error a statement builder raises for the first unknown filter field, if any. */
  function FilterError(m: Model, filters: seq<(Field, Value)>): Option<Error>
  {
    match FirstUnknown(m, filters)
    case None => None
    case Some(i) => Some(UnknownField(filters[i].0))
  }

  /**
   * The statement `list` builds: each filter field is looked up on the model
   * first, then the order_by field when it is truthy (None and "" do not order).
   */
  function ListQuery(m: Model, offset: int, limit: int, orderBy: Option<Field>,
                     filters: seq<(Field, Value)>): Result<Query, Error>
  {
    if FilterError(m, filters).Some? then Err(FilterError(m, filters).value)
    else if orderBy.None? || orderBy.value == "" then Ok(Query(filters, None, offset, limit))
    else if orderBy.value in m.fields then Ok(Query(filters, orderBy, offset, limit))
    else Err(UnknownField(orderBy.value))
  }

  /** What `list` returns for a table. */
  function ListSpec(m: Model, t: Table, offset: int, limit: int, orderBy: Option<Field>,
                    filters: seq<(Field, Value)>): Result<seq<Record>, Error>
  {
    match ListQuery(m, offset, limit, orderBy, filters)
    case Err(e) => Err(e)
    case Ok(q) => Select(q, Rows(t))
  }

  /** What the ebsi_sim `count` returns for a table. */
  function CountSpec(m: Model, t: Table, filters: seq<(Field, Value)>): Result<nat, Error>
  {
    if FilterError(m, filters).Some? then Err(FilterError(m, filters).value)
    else Ok(|Filtered(Rows(t), filters)|)
  }

  /** What the app snapshot's `count` returns: the list statement's shape applied to the aggregate. */
  function LegacyCountSpec(m: Model, t: Table, offset: int, limit: int, orderBy: Option<Field>,
                           filters: seq<(Field, Value)>): Result<Option<nat>, Error>
  {
    match ListQuery(m, offset, limit, orderBy, filters)
    case Err(e) => Err(e)
    case Ok(q) => Aggregate(q, Rows(t))
  }

  /**
   * The filter loop of both snapshots: `stmt = stmt.where(getattr(model, field) == value)`
   * for each filter in turn; getattr fails on the first field the model lacks.
   */
  method Where(m: Model, filters: seq<(Field, Value)>) returns (r: Result<seq<(Field, Value)>, Error>)
    ensures r.Ok? <==> forall i :: 0 <= i < |filters| ==> filters[i].0 in m.fields
    ensures r.Ok? ==> r.value == filters
    ensures r.Err? ==> exists i :: 0 <= i < |filters| && filters[i].0 !in m.fields && r.error == UnknownField(filters[i].0)
                                  && forall j :: 0 <= j < i ==> filters[j].0 in m.fields
    ensures r.Err? <==> FilterError(m, filters).Some?
    ensures r.Err? ==> r.error == FilterError(m, filters).value
  {
    var conds: seq<(Field, Value)> := [];
    for i := 0 to |filters|
      invariant conds == filters[..i]
      invariant forall j :: 0 <= j < i ==> filters[j].0 in m.fields
    {
      var (field, value) := filters[i];
      if field !in m.fields {
        return Err(UnknownField(field));
      }
      conds := conds + [(field, value)];
    }
    assert filters[..|filters|] == filters;
    return Ok(conds);
  }

  // Properties of list and count.

  /** list fails exactly on an unknown filter field, an unknown order_by field, or a negative offset or limit. */
  lemma ListSpecErrors(m: Model, t: Table, offset: int, limit: int, orderBy: Option<Field>,
                       filters: seq<(Field, Value)>)
    ensures ListSpec(m, t, offset, limit, orderBy, filters).Err? <==>
      || (exists i :: 0 <= i < |filters| && filters[i].0 !in m.fields)
      || (orderBy.Some? && orderBy.value != "" && orderBy.value !in m.fields)
      || offset < 0 || limit < 0
  {
  }

  /**
   * Every listed record satisfies every filter and is the record stored
   * under its own key; the result skips `offset` matches and holds at most `limit`.
   */
  lemma ListSpecSound(m: Model, t: Table, offset: int, limit: int, orderBy: Option<Field>,
                      filters: seq<(Field, Value)>)
    requires Inv(m, t)
    requires ListSpec(m, t, offset, limit, orderBy, filters).Ok?
    ensures var v := ListSpec(m, t, offset, limit, orderBy, filters).value;
      var matched := Filtered(Rows(t), filters);
      && |v| == Min(limit, |matched| - Min(offset, |matched|))
      && forall x :: x in v ==> Matches(x, filters) && m.key in x && x[m.key] in t.rows && t.rows[x[m.key]] == x
  {
    ListSpecUnfold(m, t, offset, limit, orderBy, filters);
    var q := ListQuery(m, offset, limit, orderBy, filters).value;
    var matched := Filtered(Rows(t), filters);
    var ordered := Ordered(matched, q.orderBy);
    OrderedSameRows(matched, q.orderBy);
    WindowStored(m, t, filters, ordered, offset, limit);
  }

  /** A successful list is the window of the ordered matches. */
  lemma ListSpecUnfold(m: Model, t: Table, offset: int, limit: int, orderBy: Option<Field>,
                       filters: seq<(Field, Value)>)
    requires ListSpec(m, t, offset, limit, orderBy, filters).Ok?
    ensures offset >= 0 && limit >= 0 && ListQuery(m, offset, limit, orderBy, filters).Ok?
    ensures ListSpec(m, t, offset, limit, orderBy, filters) ==
      Ok(Window(Ordered(Filtered(Rows(t), filters), ListQuery(m, offset, limit, orderBy, filters).value.orderBy), offset, limit))
  {
    var q := ListQuery(m, offset, limit, orderBy, filters).value;
    assert q.offset == offset && q.limit == limit && q.conds == filters;
  }

  lemma WindowStored(m: Model, t: Table, filters: seq<(Field, Value)>, ordered: seq<Record>, offset: nat, limit: nat)
    requires Inv(m, t)
    requires forall x :: x in ordered ==> x in Filtered(Rows(t), filters)
    ensures forall x :: x in Window(ordered, offset, limit) ==>
      Matches(x, filters) && m.key in x && x[m.key] in t.rows && t.rows[x[m.key]] == x
  {
    var v := Window(ordered, offset, limit);
    forall x | x in v
      ensures Matches(x, filters) && m.key in x && x[m.key] in t.rows && t.rows[x[m.key]] == x
    {
      var i :| 0 <= i < |v| && v[i] == x;
      assert x == ordered[offset + i];
      StoredRow(m, t, filters, x);
    }
  }

  /** Ordering keeps the same number of rows and the same rows. */
  lemma OrderedSameRows(s: seq<Record>, orderBy: Option<Field>)
    ensures |Ordered(s, orderBy)| == |s|
    ensures forall x :: x in Ordered(s, orderBy) <==> x in s
  {
    if orderBy.Some? {
      var o := Ordered(s, orderBy);
      SortBySpec(s, orderBy.value);
      assert |multiset(o)| == |multiset(s)|;
      forall x
        ensures x in o <==> x in s
      {
        assert x in o <==> x in multiset(o);
      }
    }
  }

  lemma StoredRow(m: Model, t: Table, filters: seq<(Field, Value)>, x: Record)
    requires Inv(m, t)
    requires x in Filtered(Rows(t), filters)
    ensures Matches(x, filters) && m.key in x && x[m.key] in t.rows && t.rows[x[m.key]] == x
  {
    FilteredSpec(Rows(t), filters);
    RowsAreRecords(m, t);
    var i :| 0 <= i < |Rows(t)| && Rows(t)[i] == x;
  }

  /** With order_by, the listed records are ascending in that field; without it they keep storage order. */
  lemma ListSpecOrder(m: Model, t: Table, offset: int, limit: int, orderBy: Option<Field>,
                      filters: seq<(Field, Value)>)
    requires ListSpec(m, t, offset, limit, orderBy, filters).Ok?
    ensures var v := ListSpec(m, t, offset, limit, orderBy, filters).value;
      && (orderBy.Some? && orderBy.value != "" ==> SortedBy(v, orderBy.value))
      && (orderBy.None? || orderBy.value == "" ==>
            forall i :: 0 <= i < |v| ==> v[i] == Filtered(Rows(t), filters)[offset + i])
  {
    ListSpecUnfold(m, t, offset, limit, orderBy, filters);
    var q := ListQuery(m, offset, limit, orderBy, filters).value;
    if q.orderBy.Some? {
      SortBySpec(Filtered(Rows(t), filters), q.orderBy.value);
    }
  }

  /** count fails exactly on an unknown filter field. */
  lemma CountSpecErrors(m: Model, t: Table, filters: seq<(Field, Value)>)
    ensures CountSpec(m, t, filters).Err? <==> exists i :: 0 <= i < |filters| && filters[i].0 !in m.fields
  {
  }

  /** Without filters, count is the number of stored records. */
  lemma CountAll(m: Model, t: Table)
    requires Inv(m, t)
    ensures CountSpec(m, t, []) == Ok(|t.rows|)
  {
    NoConditions(Rows(t));
    RowsAreRecords(m, t);
  }

  /**
   * count agrees with list: listing from offset 0 with a limit of at least the
   * count returns exactly the matching records, as many as the count says.
   */
  lemma CountAgreesWithList(m: Model, t: Table, filters: seq<(Field, Value)>, limit: int)
    requires CountSpec(m, t, filters).Ok?
    requires limit >= CountSpec(m, t, filters).value
    ensures ListSpec(m, t, 0, limit, None, filters).Ok?
    ensures var v := ListSpec(m, t, 0, limit, None, filters).value;
      && |v| == CountSpec(m, t, filters).value
      && v == Filtered(Rows(t), filters)
      && forall x :: x in v <==> x in Rows(t) && Matches(x, filters)
  {
    FilteredSpec(Rows(t), filters);
    var matched := Filtered(Rows(t), filters);
    assert Window(matched, 0, limit) == matched;
  }

  /**
   * The app count fails on an unknown filter field, then on an unknown truthy
   * order_by, then on any known truthy order_by, then on a negative offset or limit.
   */
  lemma LegacyCountSpecErrors(m: Model, t: Table, offset: int, limit: int, orderBy: Option<Field>,
                              filters: seq<(Field, Value)>)
    ensures var c := LegacyCountSpec(m, t, offset, limit, orderBy, filters);
      var ordered := orderBy.Some? && orderBy.value != "";
      && (c.Ok? <==> FilterError(m, filters).None? && !ordered && offset >= 0 && limit >= 0)
      && (FilterError(m, filters).Some? ==> c == Err(FilterError(m, filters).value))
      && (FilterError(m, filters).None? && ordered ==>
            c == Err(if orderBy.value in m.fields then UngroupedOrder(orderBy.value) else UnknownField(orderBy.value)))
      && (FilterError(m, filters).None? && !ordered && offset < 0 ==> c == Err(NegativeOffset))
      && (FilterError(m, filters).None? && !ordered && offset >= 0 && limit < 0 ==> c == Err(NegativeLimit))
  {
  }

  /**
   * The app snapshot's count yields a value exactly when offset is 0 and limit
   * at least 1, and that value is the number of matching records; any other
   * non-negative offset or limit drops the aggregate's one row and yields None.
   */
  lemma LegacyCountSpecMeaning(m: Model, t: Table, offset: int, limit: int, orderBy: Option<Field>,
                               filters: seq<(Field, Value)>)
    requires LegacyCountSpec(m, t, offset, limit, orderBy, filters).Ok?
    ensures orderBy.None? || orderBy.value == ""
    ensures var c := LegacyCountSpec(m, t, offset, limit, orderBy, filters).value;
      && (c.Some? <==> offset == 0 && limit >= 1)
      && (c.Some? ==> CountSpec(m, t, filters) == Ok(c.value))
  {
    var q := ListQuery(m, offset, limit, orderBy, filters).value;
    var one := Window([|Filtered(Rows(t), filters)|], offset, limit);
    assert |one| == Min(limit, 1 - Min(offset, 1));
  }
}

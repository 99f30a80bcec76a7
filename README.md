# Track-and-trace registry: repositories and document listing

This project models the persistence core and the document-listing endpoint
of a small track-and-trace registry. The registry is written in Python on
FastAPI and SQLModel, over PostgreSQL. The Dafny model covers three parts.

- **The generic repository** `BaseRepository`, in its two snapshots.
  - It offers keyed CRUD over one table model: `get`, `list`, `create`,
    `update`, `delete` and `count`.
  - The `ebsi_sim` snapshot lets each write either commit or only flush.
    Its `count` counts the matching records.
  - The older `app` snapshot always commits. Its `count` applies the list
    statement's OFFSET and LIMIT to the one-row count aggregate. Its ORDER BY
    names a column the aggregate does not group, which PostgreSQL refuses.
- **The request's database session** (`Sessions.Session`).
  - It holds a *working* database, which is what reads in the same session
    see, and a *committed* database.
  - It also holds the SERIAL sequences of integer primary keys, which a
    rollback does not reset.
  - A flush changes only the working database. A commit copies the working
    database into the committed one. A flush that the database rejects rolls
    the working database back to the committed one.
- **The track-and-trace API** of the `app` snapshot.
  - `POST /jsonrpc` answers with a fixed success envelope that echoes the
    request id.
  - `HEAD /accesses` always answers 204.
  - `GET /documents` counts the documents, computes first, prev, next and
    last page links, lists one page, and projects each document to
    `{documentId, href}`.

A table (`Tables.Table`) is a map from primary key to record, plus the keys
in storage order. A record is a map from field name to value. Each repository
method is a method of a class over the shared session. Its `ensures` gives the
whole new session state in terms of the single-record table writes `Insert`,
`Replace` and `Remove`. The lemmas about those writes state that exactly one
record changes. `list` and `count` are proved equal to the specification
functions `ListSpec`, `CountSpec` and `LegacyCountSpec`. Lemmas then state
what those functions promise: filtering, ordering, windowing, errors, and
that count agrees with list.

The three table models of each snapshot are the constants `SimDocument`,
`SimEvent` and `SimAccess`, and `AppDocument`, `AppEvent` and `AppAccess`.
`Repositories` in each repository module binds one repository to each of them.

The API's code has these quirks, and the model keeps them:

- The next link's page is `max(1, page_after + 1, ceil(count / page_size))`.
  It is therefore never before the page after the current one, even on or past
  the last page (`Tnt.NextPageBounds`).
- The last link is the constant `/documents?page[size]=10&page[after]=20`.
  Its parameters come in the other order from the other links, so it does not
  parse as a page link (`Tnt.DocumentLinksPages`).
- `total` is the number of items on the page, not the number of stored
  documents.
- A page size of 0 fails with a division by zero.
- The access check never looks anything up.

## Model

| member | source | states |
|---|---|---|
| Records.ParsePermission | ebsi_sim/schemas/shared.py:55-69 | only the three permission strings are accepted, each as the permission that carries it |
| Records.PermissionNameParses | ebsi_sim/schemas/shared.py:67-69 | every permission's string reads back as that permission |
| Tables.InsertSpec | ebsi_sim/repositories/base.py:106-113 | adding a record with a fresh key keeps the table invariant, adds exactly that key, stores the record under it and leaves every other record unchanged |
| Tables.InsertListing | ebsi_sim/repositories/base.py:106-113 | after a create the table lists its former records in their order, then the new one |
| Tables.RemoveSpec | ebsi_sim/repositories/base.py:160-167 | deleting the record under a key keeps the table invariant, removes exactly that key, keeps every other record, and changes nothing when the key is absent |
| Tables.RemoveListing | ebsi_sim/repositories/base.py:160-167 | after a delete the table lists exactly its former records except the deleted one, in the same order |
| Tables.ReplaceSpec | ebsi_sim/repositories/base.py:136-144 | writing back a changed record keeps the table invariant and the key set, stores the new record under its key and leaves every other record unchanged |
| Tables.ReplaceListing | ebsi_sim/repositories/base.py:136-144 | after an update the table lists the same keys in the same order, the new record in the old one's place |
| Tables.Construct | ebsi_sim/repositories/base.py:106 | building the model from keyword arguments gives it exactly the model's fields: given ones take their value, unknown names are ignored, missing ones are NULL |
| Tables.CreateRecord | ebsi_sim/models/access.py:19 | the stored record has the model's fields; an integer primary key left unset is drawn from the sequence, every other field is as given |
| Tables.ApplyDataSpec | ebsi_sim/repositories/base.py:136-137 | the setattr loop fails exactly when data names a field the model lacks; otherwise each named field takes its last assigned value, every other field and the key are unchanged |
| Queries.FilteredSpec | ebsi_sim/repositories/base.py:80-81 | a record survives the WHERE conditions exactly when it is among the rows and every named field equals its value |
| Queries.ValueLeTotal | ebsi_sim/repositories/base.py:82-83 | any two column values are comparable by ORDER BY |
| Queries.ValueLeTrans | ebsi_sim/repositories/base.py:82-83 | the ORDER BY comparison is transitive |
| Queries.SortBySpec | ebsi_sim/repositories/base.py:82-83 | ordering by a field yields the same rows, as a multiset, ascending in that field |
| Queries.Window | ebsi_sim/repositories/base.py:84 | OFFSET then LIMIT keep min(limit, rows left after offset) rows, the i-th being row offset + i |
| Queries.FirstUnknown | ebsi_sim/repositories/base.py:80-81 | finds the first filter field the model lacks, or reports that every field is known |
| Queries.Where | ebsi_sim/repositories/base.py:80-81 | the filter loop succeeds with every filter as a condition exactly when all fields are known, and otherwise fails on the first unknown field |
| Queries.ListSpecErrors | ebsi_sim/repositories/base.py:79-85 | list fails exactly on an unknown filter field, an unknown non-empty order_by, or a negative offset or limit |
| Queries.ListSpecSound | ebsi_sim/repositories/base.py:79-85 | every listed record matches every filter and is the record stored under its own key; the list skips offset matches and holds at most limit |
| Queries.ListSpecOrder | ebsi_sim/repositories/base.py:82-85 | with order_by the list is ascending in that field; without it the list is the matches from position offset on, in storage order |
| Queries.CountSpecErrors | ebsi_sim/repositories/base.py:183-186 | count fails exactly when a filter names a field the model lacks |
| Queries.CountAll | ebsi_sim/repositories/base.py:183-186 | with no filters, count is the number of stored records |
| Queries.CountAgreesWithList | ebsi_sim/repositories/base.py:169-186 | listing from offset 0 with a limit of at least the count returns exactly the matching records, as many as count says |
| Queries.LegacyCountSpecErrors | app/repositories/base.py:65-72 | the app count fails on the first unknown filter field, then on any truthy order_by (unknown to the model, or refused by the database as an ungrouped ORDER BY column of an aggregate), then on a negative offset or limit, and succeeds otherwise |
| Queries.LegacyCountSpecMeaning | app/repositories/base.py:65-72 | the app count succeeds only without order_by, yields a value exactly when offset is 0 and limit at least 1, and that value is the number of matches |
| Sessions.Session.Stage | ebsi_sim/repositories/base.py:107-111 | an add or delete followed by a flush changes what the session reads and nothing that is committed |
| Sessions.Session.Commit | ebsi_sim/repositories/base.py:108-109 | a commit makes everything the session reads permanent |
| Sessions.Session.Rollback | ebsi_sim/repositories/base.py:110-111 | a flush the database rejects discards every uncommitted write but not the sequences |
| Sessions.Session.NextVal | ebsi_sim/models/access.py:19 | the sequence of an integer primary key hands out the next value and remembers it |
| SimRepository.BaseRepository.constructor | ebsi_sim/repositories/base.py:46-47 | the repository manages the given model in the given session; when the session's table of that model exists and keeps the table invariant, the repository is valid |
| SimRepository.BaseRepository.Get | ebsi_sim/repositories/base.py:49-58 | returns the record stored under id, whose key is id, or None exactly when there is none |
| SimRepository.BaseRepository.List | ebsi_sim/repositories/base.py:60-85 | returns what ListSpec specifies for the table the session reads |
| SimRepository.BaseRepository.Count | ebsi_sim/repositories/base.py:169-186 | returns the number of matching records, or the first unknown field's error |
| SimRepository.BaseRepository.Create | ebsi_sim/repositories/base.py:87-113 | a record with a fresh key and no NULL column is inserted, committed iff commit; otherwise Integrity and a rollback; a sequence value is drawn either way |
| SimRepository.BaseRepository.Update | ebsi_sim/repositories/base.py:115-144 | an absent id raises NotFound with no change; an unknown field raises with earlier fields set in the session; a NULL column rolls back; otherwise only that record changes, committed iff commit |
| SimRepository.BaseRepository.Delete | ebsi_sim/repositories/base.py:146-167 | an absent id changes and commits nothing; a present one removes only that record, committed iff commit |
| SimRepository.Repositories | ebsi_sim/repositories/access.py:5-16 | one valid repository per table model of the snapshot, all over the same session whose tables exist |
| AppRepository.BaseRepository.constructor | app/repositories/base.py:25-26 | the repository manages the given model in the given session; when the session's table of that model exists and keeps the table invariant, the repository is valid |
| AppRepository.BaseRepository.Get | app/repositories/base.py:28-29 | returns the record stored under id, or None exactly when there is none |
| AppRepository.BaseRepository.List | app/repositories/base.py:31-38 | returns what ListSpec specifies for the table the session reads |
| AppRepository.BaseRepository.Count | app/repositories/base.py:65-72 | returns what LegacyCountSpec specifies: the count aggregate after the list statement's OFFSET and LIMIT, and the database's refusal of any ORDER BY |
| AppRepository.BaseRepository.Create | app/repositories/base.py:40-45 | a storable record is inserted and committed at once; otherwise Integrity and a rollback |
| AppRepository.BaseRepository.Update | app/repositories/base.py:47-56 | an absent id raises NotFound with no change; an unknown field raises uncommitted; a NULL column rolls back; otherwise only that record changes and is committed |
| AppRepository.BaseRepository.Delete | app/repositories/base.py:58-63 | an absent id is a no-op; a present one removes only that record and commits |
| AppRepository.Repositories | app/repositories/access.py:5-7 | one valid repository per table model of the snapshot, all over the same session whose tables exist |
| Decimal.IntTextRoundTrip | app/api/v1/tnt.py:67-69 | the decimal text an f-string gives an integer reads back as that integer |
| Tnt.ParseMethod | app/schemas/jsonrpc.py:6-13 | only the seven enumerated method names are accepted, each as the method that carries it |
| Tnt.MethodNameParses | app/schemas/jsonrpc.py:6-13 | every method's name reads back as that method |
| Tnt.DecodeRequest | app/schemas/jsonrpc.py:16-20 | a request body is accepted exactly when its method is enumerated, keeping its version, id and params |
| Tnt.PostRpcSpec | app/api/v1/tnt.py:19-25 | every accepted request gets version "2.0", its own id and the fixed success result, whatever its method and params |
| Tnt.RpcIgnoresMethodAndParams | app/api/v1/tnt.py:19-25 | two requests with the same id get the same response |
| Tnt.CheckAccess | app/api/v1/tnt.py:34-35 | the access check answers 204 for every creator |
| Tnt.CeilDivIsCeiling | app/api/v1/tnt.py:65 | the page count is the least integer at or above count / page_size, for either sign of page_size |
| Tnt.PrevPageBounds | app/api/v1/tnt.py:68 | the prev link's page is never below 1 and is otherwise the page before |
| Tnt.NextPageBounds | app/api/v1/tnt.py:69 | the next link's page is at least page_after + 1 and at least the page count; on or past the last page it names a page that holds nothing |
| Tnt.PageLinkRoundTrip | app/api/v1/tnt.py:67-69 | a page link names exactly the page and page size it was written with |
| Tnt.DocumentLinksPages | app/api/v1/tnt.py:67-70 | first names page 1, prev and next their computed pages, all with the request's page size; last is the same constant for every request |
| Tnt.PagesTileRows | app/api/v1/tnt.py:72 | the offset (page_after - 1) * page_size puts every stored position p on page p div page_size + 1, at index p mod page_size, and no page holds more than page_size rows |
| Tnt.PageHoldsOnlyItsRows | app/api/v1/tnt.py:72 | the i-th row of page pa is the stored row at position (pa - 1) * page_size + i, whose page is pa, so no stored position is on two pages |
| Tnt.DefaultCount | app/api/v1/tnt.py:64 | count with its default window yields the number of stored documents |
| Tnt.ListedPageErrors | app/api/v1/tnt.py:72 | the requested listing fails exactly on a negative offset or limit, the offset being reported first |
| Tnt.ListedPage | app/api/v1/tnt.py:72 | for page_after >= 1 and a positive page size the listing is that page of the stored documents in storage order, each stored under its id |
| Tnt.ListingNeedsPositiveSize | app/api/v1/tnt.py:65-72 | with a non-zero page size, offset and limit are both non-negative exactly when page_size > 0 and page_after >= 1 |
| Tnt.LastLinkIsNotPageLink | app/api/v1/tnt.py:70 | the constant last link does not read as a link of the form the other three have |
| Tnt.Items | app/api/v1/tnt.py:73-74 | one item per listed document, in list order, each with its id and its href |
| Tnt.ProjectItems | app/api/v1/tnt.py:63-74 | the append loop builds exactly the items of the listed documents, in order |
| Tnt.ReadDocsSpecMeaning | app/api/v1/tnt.py:60-82 | the response succeeds exactly for a positive page size and page_after >= 1; a zero page size divides by zero; items are that page's documents in order, each a stored id with its href; total is the page length, at most page_size; pageSize echoes the request; links are computed from the stored count |
| Tnt.ReadDocs | app/api/v1/tnt.py:60-82 | counting, then listing the page and projecting it, gives the response ReadDocsSpec specifies for the documents table the session reads |

## Left out

- Session plumbing: the per-request session in a context variable, and the
  middleware that opens and closes it (`ebsi_sim/core/db.py`, `ebsi_sim/main.py`).
  The session is an explicit object shared by the repositories.
- Concurrency between sessions: other sessions never change the committed
  database while a request runs.
- SQL row order: PostgreSQL does not specify an order without ORDER BY, and
  does not fix the order of ties. The model returns storage order (insertion
  order) and sorts stably.
- Text ordering follows plain character order (the C collation), not a
  locale's collation.
- Datetime columns are carried as their text. The types of column values are
  not checked: a value of the wrong type is stored as given. This includes the
  `permission` column of the access models, whose enumeration type would refuse
  a string outside `Records.ParsePermission` at the flush.
- NOT NULL: every column of every model rejects NULL when the record written
  by that flush holds one (`Tables.Storable`, `Tables.NoNulls`). Foreign keys
  are not enforced; `document_id` may name a missing document.
- SimRepository.BaseRepository.Update: the assignments the setattr loop leaves
  on the object when it stops at an unknown field stay in what the session
  reads, and are not refused by a later flush, commit or autoflushing read,
  though the source's would fail on a NULL among them. A caller that catches
  the error and keeps using the session can therefore commit that NULL in the
  model.
- AppRepository.BaseRepository.Update: the same holds for the assignments left
  on the object when the setattr loop stops at an unknown field.
- The session's state after a failed flush is simplified. SQLAlchemy leaves the
  transaction to be rolled back explicitly; the model rolls back at once.
- `refresh` after a write re-reads the record. In the model the record it
  returns is the one just written.
- Row tuples: the app snapshot's `list` returns `execute().all()` rows, not
  model objects. Such a one-entity row has no `id` attribute, so `doc.id` in
  `read_docs` (`app/api/v1/tnt.py:73-74`) would fail on every non-empty page.
  The model returns records, and `read_docs` reads their id directly, as if
  `list` returned model objects.
- `math.ceil(count / page_size)` uses float division. The model uses exact
  integer ceiling division, which is different only for counts too large for
  a float.
- SimRepository.BaseRepository.Update: requires that data does not name the
  primary key. This excludes no call: `id` is a named parameter of `update`
  (`ebsi_sim/repositories/base.py:115`), so the keyword data can never hold it.
- AppRepository.BaseRepository.Update: requires that data does not name the
  primary key, which excludes no call for the same reason
  (`app/repositories/base.py:47`).
- A statement the database refuses (a negative OFFSET or LIMIT, an ORDER BY on
  the count aggregate) leaves PostgreSQL's transaction aborted until a
  rollback. In the model, a refused read changes no session state.
- `rpc` (`app/api/v1/tnt.py:19-25`) dispatches nothing and persists nothing;
  no dispatcher is modelled.
- The fixture routes of `app/api/v1/tnt.py` (`read_doc`, both `read_doc_events`,
  `read_doc_event`, `read_doc_accesses`) return hard-coded sample data. They
  are not modelled, and neither is `app/tnt.py`. `read_doc_accesses` uses an
  enumeration its module does not import (`app/api/v1/tnt.py:142`).
- `GET /abi` has an empty body.
- HTTP status codes and validation errors other than the method enumeration are
  not modelled. Request parameters arrive as integers, and the response's
  serialisation aliases are not modelled.
- `app/schemas/document.py`, which declares the document item and list
  schemas, is not part of this model. Their fields follow the constructor calls
  in `read_docs`.

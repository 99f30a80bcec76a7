/**
 * The track-and-trace API of the app snapshot: the JSON-RPC endpoint's fixed
 * success envelope, the access check, and the document listing with its
 * page arithmetic, page links and item projection.
 */
module Tnt {
  import opened Results
  import opened Records
  import opened Tables
  import opened Queries
  import opened Decimal
  import AppRepository

  // The JSON-RPC endpoint.

  /** The closed set of JSON-RPC method names the request body accepts. */
  datatype Method =
    | AuthoriseDid | CreateDocument | RemoveDocument | GrantAccess
    | RevokeAccess | WriteEvent | SendSignedTransaction

  function MethodName(m: Method): string
  {
    match m
    case AuthoriseDid => "authoriseDid"
    case CreateDocument => "createDocument"
    case RemoveDocument => "removeDocument"
    case GrantAccess => "grantAccess"
    case RevokeAccess => "revokeAccess"
    case WriteEvent => "writeEvent"
    case SendSignedTransaction => "sendSignedTransaction"
  }

  /** Validation of a method name against the enumeration. */
  function ParseMethod(s: string): (r: Option<Method>)
    ensures r.Some? ==> MethodName(r.value) == s
    ensures r.None? ==> forall m :: MethodName(m) != s
  {
    if s == "authoriseDid" then Some(AuthoriseDid)
    else if s == "createDocument" then Some(CreateDocument)
    else if s == "removeDocument" then Some(RemoveDocument)
    else if s == "grantAccess" then Some(GrantAccess)
    else if s == "revokeAccess" then Some(RevokeAccess)
    else if s == "writeEvent" then Some(WriteEvent)
    else if s == "sendSignedTransaction" then Some(SendSignedTransaction)
    else None
  }

  lemma MethodNameParses(m: Method)
    ensures ParseMethod(MethodName(m)) == Some(m)
  {
  }

  /** A validated request body: any version string, an integer id, an enumerated method and a list of objects. */
  datatype RpcRequest = RpcRequest(jsonrpc: string, id: int, call: Method, params: seq<map<string, Value>>)

  datatype RpcResponse = RpcResponse(jsonrpc: string, id: int, result: map<string, string>)

  const SuccessResult: map<string, string> :=
    map["status" := "success", "message" := "Operation completed successfully"]

  /** Request body validation: the body is accepted exactly when its method is one of the enumerated names. */
  function DecodeRequest(jsonrpc: string, id: int, name: string, params: seq<map<string, Value>>)
    : (r: Result<RpcRequest, Error>)
    ensures r.Ok? <==> exists m :: MethodName(m) == name
    ensures r.Ok? ==> && r.value.jsonrpc == jsonrpc && r.value.id == id
                      && MethodName(r.value.call) == name && r.value.params == params
    ensures r.Err? ==> r.error == InvalidMethod(name)
  {
    match ParseMethod(name)
    case Some(m) => Ok(RpcRequest(jsonrpc, id, m, params))
    case None => Err(InvalidMethod(name))
  }

  /** The handler: whatever the request asks, a success envelope carrying the request's id. */
  function Rpc(req: RpcRequest): RpcResponse
  {
    RpcResponse("2.0", req.id, SuccessResult)
  }

  /** POST /jsonrpc: the body's validation, then the handler. */
  function PostRpc(jsonrpc: string, id: int, name: string, params: seq<map<string, Value>>)
    : Result<RpcResponse, Error>
  {
    match DecodeRequest(jsonrpc, id, name, params)
    case Ok(req) => Ok(Rpc(req))
    case Err(e) => Err(e)
  }

  /**
   * Every request with an enumerated method gets the same success envelope,
   * echoing only its id: its version string, method and params change nothing.
   * Any other method name is refused.
   */
  lemma PostRpcSpec(jsonrpc: string, id: int, name: string, params: seq<map<string, Value>>)
    ensures PostRpc(jsonrpc, id, name, params) ==
      if exists m :: MethodName(m) == name then Ok(RpcResponse("2.0", id, SuccessResult))
      else Err(InvalidMethod(name))
  {
  }

  /** Two accepted requests with the same id get the same response. */
  lemma RpcIgnoresMethodAndParams(a: RpcRequest, b: RpcRequest)
    requires a.id == b.id
    ensures Rpc(a) == Rpc(b)
    ensures Rpc(a).jsonrpc == "2.0" && Rpc(a).id == a.id && Rpc(a).result["status"] == "success"
  {
  }

  // The access check.

  const NoContent := 204

  /** HEAD /accesses: the status code, which is 204 for every creator. */
  function CheckAccess(creator: string): (status: int)
    ensures status == NoContent
  {
    NoContent
  }

  // The document listing's page arithmetic.

  /** `math.ceil(a / b)` on integers. */
  function CeilDiv(a: int, b: int): int
    requires b != 0
  {
    if b > 0 then -((-a) / b) else a / b
  }

  /** CeilDiv is the ceiling of the quotient: the least r with r >= a / b, for either sign of b. */
  lemma CeilDivIsCeiling(a: int, b: int)
    requires b != 0
    ensures b > 0 ==> b * (CeilDiv(a, b) - 1) < a <= b * CeilDiv(a, b)
    ensures b < 0 ==> b * CeilDiv(a, b) <= a < b * (CeilDiv(a, b) - 1)
  {
    if b > 0 {
      var q := (-a) / b;
      assert -a == b * q + (-a) % b;
      assert CeilDiv(a, b) == -q;
      assert b * (-q - 1) == -(b * q) - b;
      assert b * (-q) == -(b * q);
    } else {
      var q := a / b;
      assert a == b * q + a % b;
      assert b * (q - 1) == b * q - b;
    }
  }

  function Max(a: int, b: int): int
  {
    if a >= b then a else b
  }

  /** The page number of the prev link. */
  function PrevPage(pageAfter: int): int
  {
    Max(1, pageAfter - 1)
  }

  /** The page number of the next link. */
  function NextPage(pageAfter: int, count: int, pageSize: int): int
    requires pageSize != 0
  {
    Max(Max(1, pageAfter + 1), CeilDiv(count, pageSize))
  }

  /** The prev link never points below page 1, and otherwise to the page before. */
  lemma PrevPageBounds(pageAfter: int)
    ensures PrevPage(pageAfter) >= 1 && PrevPage(pageAfter) >= pageAfter - 1
    ensures pageAfter >= 2 ==> PrevPage(pageAfter) == pageAfter - 1
    ensures pageAfter <= 2 ==> PrevPage(pageAfter) == 1
  {
  }

  /**
   * The next link is always after the current page and never before the
   * page count, so every document lies on a page no later than it; on or past
   * the last page it still points one further, to a page that holds nothing.
   */
  lemma NextPageBounds(pageAfter: int, count: nat, pageSize: int)
    requires pageSize > 0
    ensures NextPage(pageAfter, count, pageSize) >= 1
    ensures NextPage(pageAfter, count, pageSize) >= pageAfter + 1
    ensures NextPage(pageAfter, count, pageSize) >= CeilDiv(count, pageSize)
    ensures count <= pageSize * NextPage(pageAfter, count, pageSize)
    ensures pageAfter >= 0 && count <= pageSize * pageAfter ==>
      && NextPage(pageAfter, count, pageSize) == pageAfter + 1
      && pageSize * (NextPage(pageAfter, count, pageSize) - 1) >= count
  {
    var c := CeilDiv(count, pageSize);
    var n := NextPage(pageAfter, count, pageSize);
    CeilDivIsCeiling(count, pageSize);
    MulMonotone(pageSize, c, n);
    if pageAfter >= 0 && count <= pageSize * pageAfter {
      if c > pageAfter {
        MulMonotone(pageSize, pageAfter, c - 1);
        assert false;
      }
    }
  }

  lemma MulMonotone(k: int, a: int, b: int)
    requires k > 0 && a <= b
    ensures k * a <= k * b
  {
    assert k * b - k * a == k * (b - a);
  }

  // The page links.

  const AfterPrefix := "/documents?page[after]="
  const SizeSeparator := "&page[size]="

  /** The link to page `after` of size `size`, parameters in that order. */
  function PageLink(after: int, size: int): string
  {
    AfterPrefix + IntText(after) + SizeSeparator + IntText(size)
  }

  /** The last link: the same text for every request, its parameters in the other order. */
  const LastLink := "/documents?page[size]=10&page[after]=20"

  datatype PageLinks = PageLinks(first: string, prev: string, next: string, last: string)

  /** The links of a listing of page `pageAfter` of size `pageSize` when `count` documents are stored. */
  function DocumentLinks(pageAfter: int, pageSize: int, count: int): PageLinks
    requires pageSize != 0
  {
    PageLinks(PageLink(1, pageSize),
              PageLink(PrevPage(pageAfter), pageSize),
              PageLink(NextPage(pageAfter, count, pageSize), pageSize),
              LastLink)
  }

  /** The position of the first c in s. */
  function IndexOf(s: string, c: char): (r: Option<nat>)
    ensures r.Some? ==> r.value < |s| && s[r.value] == c && forall j :: 0 <= j < r.value ==> s[j] != c
    ensures r.None? ==> forall j :: 0 <= j < |s| ==> s[j] != c
  {
    if s == [] then None
    else if s[0] == c then Some(0)
    else match IndexOf(s[1..], c)
      case None => None
      case Some(k) => Some(k + 1)
  }

  /** Splits `prefix + a + sep + z` into a and z, a ending at the first occurrence of sep's first character. */
  function SplitLink(s: string, prefix: string, sep: string): Option<(string, string)>
    requires |sep| > 0
  {
    if !(prefix <= s) then None
    else
      var rest := s[|prefix|..];
      match IndexOf(rest, sep[0])
      case None => None
      case Some(k) =>
        if !(sep <= rest[k..]) then None else Some((rest[..k], rest[k + |sep|..]))
  }

  lemma SplitLinkJoin(prefix: string, a: string, sep: string, z: string)
    requires |sep| > 0
    requires forall j :: 0 <= j < |a| ==> a[j] != sep[0]
    ensures SplitLink(prefix + a + sep + z, prefix, sep) == Some((a, z))
  {
    var s := prefix + a + sep + z;
    var rest := s[|prefix|..];
    assert rest == a + sep + z;
    assert forall j :: 0 <= j < |a| ==> rest[j] == a[j];
    assert rest[|a|] == sep[0];
    assert IndexOf(rest, sep[0]) == Some(|a|);
    assert rest[..|a|] == a;
    assert rest[|a|..] == sep + z;
    assert rest[|a| + |sep|..] == z;
  }

  /** Reads the page and the page size back from a link written as PageLink writes it. */
  function ParsePageLink(s: string): Option<(int, int)>
  {
    match SplitLink(s, AfterPrefix, SizeSeparator)
    case None => None
    case Some((a, z)) =>
      match (ParseInt(a), ParseInt(z))
      case (Some(after), Some(size)) => Some((after, size))
      case _ => None
  }

  /** A page link names exactly the page and page size it was written with. */
  lemma PageLinkRoundTrip(after: int, size: int)
    ensures ParsePageLink(PageLink(after, size)) == Some((after, size))
  {
    var a := IntText(after);
    assert SizeSeparator[0] == '&';
    SplitLinkJoin(AfterPrefix, a, SizeSeparator, IntText(size));
    IntTextRoundTrip(after);
    IntTextRoundTrip(size);
  }

  /** The last link does not start as the other links do, so it does not read as a page link. */
  lemma LastLinkIsNotPageLink()
    ensures ParsePageLink(LastLink) == None
  {
    assert LastLink[16] != AfterPrefix[16];
  }

  /**
   * The first link names page 1, prev and next name their computed pages,
   * all three with the request's page size; the last link is the constant,
   * which does not even read as a link of this form.
   */
  lemma DocumentLinksPages(pageAfter: int, pageSize: int, count: int)
    requires pageSize != 0
    ensures var l := DocumentLinks(pageAfter, pageSize, count);
      && ParsePageLink(l.first) == Some((1, pageSize))
      && ParsePageLink(l.prev) == Some((PrevPage(pageAfter), pageSize))
      && ParsePageLink(l.next) == Some((NextPage(pageAfter, count, pageSize), pageSize))
      && l.last == LastLink
      && ParsePageLink(l.last) == None
  {
    PageLinkRoundTrip(1, pageSize);
    PageLinkRoundTrip(PrevPage(pageAfter), pageSize);
    PageLinkRoundTrip(NextPage(pageAfter, count, pageSize), pageSize);
    LastLinkIsNotPageLink();
  }

  // The document listing.

  /** The text f-string interpolation gives a column value. */
  function ValueText(v: Value): string
  {
    match v
    case Null => "None"
    case Str(s) => s
    case Int(i) => IntText(i)
    case Perm(p) => PermissionName(p)
  }

  datatype DocumentItem = DocumentItem(documentId: Value, href: string)

  datatype DocumentList = DocumentList(self: string, items: seq<DocumentItem>, total: nat, pageSize: int, links: PageLinks)

  /** The projection of a listed document: its id and the path to it. */
  function ItemOf(doc: Record): DocumentItem
  {
    DocumentItem(FieldOf(doc, "id"), "/documents/" + ValueText(FieldOf(doc, "id")))
  }

  /** The rows of page `pageAfter` of size `pageSize`, in storage order. */
  function Page<T>(rows: seq<T>, pageAfter: int, pageSize: int): seq<T>
    requires pageAfter >= 1 && pageSize > 0
  {
    Window(rows, (pageAfter - 1) * pageSize, pageSize)
  }

  /**
   * Pages tile the rows: the row at position p is the (p mod size)-th row of
   * page p div size + 1, and page sizes never exceed the page size.
   */
  lemma PagesTileRows<T>(rows: seq<T>, pageSize: int, p: nat)
    requires pageSize > 0 && p < |rows|
    ensures var pa := p / pageSize + 1;
      && p % pageSize < |Page(rows, pa, pageSize)| <= pageSize
      && Page(rows, pa, pageSize)[p % pageSize] == rows[p]
  {
    var pa := p / pageSize + 1;
    assert (pa - 1) * pageSize + p % pageSize == p;
  }

  /** Division by a positive divisor recovers the quotient and remainder a position was built from. */
  lemma DivModUnique(q: int, size: int, i: int)
    requires size > 0 && 0 <= i < size
    ensures (q * size + i) / size == q && (q * size + i) % size == i
  {
    var n := q * size + i;
    var d := q - n / size;
    assert d * size == n % size - i;
    if d >= 1 {
      MulMonotone(size, 1, d);
    } else if d <= -1 {
      MulMonotone(size, d, -1);
    }
  }

  /**
   * The converse of PagesTileRows: the i-th row of page pa is the row at
   * position (pa - 1) * size + i, and that position's page is pa, so no other
   * page holds it.
   */
  lemma PageHoldsOnlyItsRows<T>(rows: seq<T>, pageSize: int, pa: int, i: nat)
    requires pageSize > 0 && pa >= 1 && i < |Page(rows, pa, pageSize)|
    ensures var p := (pa - 1) * pageSize + i;
      && i < pageSize && 0 <= p < |rows|
      && Page(rows, pa, pageSize)[i] == rows[p]
      && pa == p / pageSize + 1 && i == p % pageSize
  {
    MulMonotone(pageSize, 0, pa - 1);
    DivModUnique(pa - 1, pageSize, i);
  }

  /** The app repository's count with its default window yields the number of stored records. */
  lemma DefaultCount(m: Model, t: Table)
    requires Inv(m, t)
    ensures LegacyCountSpec(m, t, 0, 100, None, []) == Ok(Some(|t.rows|))
  {
    LegacyCountSpecMeaning(m, t, 0, 100, None, []);
    CountAll(m, t);
  }

  /** The listing read_docs requests fails exactly on a negative offset or limit, the offset being checked first. */
  lemma ListedPageErrors(m: Model, t: Table, pageAfter: int, pageSize: int)
    ensures var l := ListSpec(m, t, (pageAfter - 1) * pageSize, pageSize, None, []);
      && (l.Ok? <==> (pageAfter - 1) * pageSize >= 0 && pageSize >= 0)
      && (l.Err? ==> l.error == if (pageAfter - 1) * pageSize < 0 then NegativeOffset else NegativeLimit)
  {
    assert FirstUnknown(m, []) == None;
  }

  /** The listing of a valid page is that page of the stored records in storage order, each stored under its own id. */
  lemma ListedPage(m: Model, t: Table, pageAfter: int, pageSize: int)
    requires Inv(m, t)
    requires pageAfter >= 1 && pageSize > 0
    ensures ListSpec(m, t, (pageAfter - 1) * pageSize, pageSize, None, []) == Ok(Page(Rows(t), pageAfter, pageSize))
    ensures forall x :: x in Page(Rows(t), pageAfter, pageSize) ==> FieldOf(x, m.key) in t.rows
  {
    var offset := (pageAfter - 1) * pageSize;
    assert offset >= 0 by {
      MulMonotone(pageSize, 0, pageAfter - 1);
    }
    assert FirstUnknown(m, []) == None;
    NoConditions(Rows(t));
    ListSpecSound(m, t, offset, pageSize, None, []);
  }

  /** With a non-zero page size, the listing's offset and limit are both non-negative exactly when the page size is positive and the page number at least 1. */
  lemma ListingNeedsPositiveSize(pageAfter: int, pageSize: int)
    ensures (pageAfter - 1) * pageSize >= 0 && pageSize >= 0 && pageSize != 0 <==> pageSize > 0 && pageAfter >= 1
  {
    if pageSize > 0 && pageAfter < 1 {
      assert (pageAfter - 1) * pageSize < 0 by {
        MulMonotone(pageSize, pageAfter - 1, -1);
      }
    }
  }

  /** The items of a listing: one per listed document, in list order. */
  function Items(docs: seq<Record>): (items: seq<DocumentItem>)
    ensures |items| == |docs|
    ensures forall i :: 0 <= i < |docs| ==> items[i] == ItemOf(docs[i])
  {
    seq(|docs|, i requires 0 <= i < |docs| => ItemOf(docs[i]))
  }

  /** The response of GET /documents for the documents table t. */
  function ReadDocsSpec(t: Table, pageAfter: int, pageSize: int): Result<DocumentList, Error>
  {
    if pageSize == 0 then Err(DivisionByZero)
    else match ListSpec(AppDocument, t, (pageAfter - 1) * pageSize, pageSize, None, [])
      case Err(e) => Err(e)
      case Ok(docs) =>
        Ok(DocumentList("/documents", Items(docs), |docs|, pageSize, DocumentLinks(pageAfter, pageSize, |t.rows|)))
  }

  /**
   * The listing succeeds exactly for a positive page size and a page number
   * of at least 1; a zero page size divides by zero and any other failure is
   * the negative offset or limit. On success the items are page `pageAfter`
   * of the stored documents in storage order, each an id that is stored with
   * its href; total is the page length, at most the page size, and not the
   * number of stored documents; pageSize echoes the request.
   */
  lemma ReadDocsSpecMeaning(t: Table, pageAfter: int, pageSize: int)
    requires Inv(AppDocument, t)
    ensures var r := ReadDocsSpec(t, pageAfter, pageSize);
      && (r.Ok? <==> pageSize > 0 && pageAfter >= 1)
      && (pageSize == 0 ==> r == Err(DivisionByZero))
      && (pageSize != 0 && r.Err? ==>
            r == Err(if (pageAfter - 1) * pageSize < 0 then NegativeOffset else NegativeLimit))
      && (r.Ok? ==>
            var docs := Page(Rows(t), pageAfter, pageSize);
            && r.value.self == "/documents"
            && |r.value.items| == |docs|
            && (forall i :: 0 <= i < |docs| ==> r.value.items[i] == ItemOf(docs[i]))
            && (forall i :: 0 <= i < |docs| ==> r.value.items[i].documentId in t.rows)
            && r.value.total == |docs| <= pageSize
            && r.value.pageSize == pageSize
            && r.value.links == DocumentLinks(pageAfter, pageSize, |t.rows|))
  {
    ListedPageErrors(AppDocument, t, pageAfter, pageSize);
    ListingNeedsPositiveSize(pageAfter, pageSize);
    if pageSize > 0 && pageAfter >= 1 {
      ListedPage(AppDocument, t, pageAfter, pageSize);
      var docs := Page(Rows(t), pageAfter, pageSize);
      forall i | 0 <= i < |docs|
        ensures ItemOf(docs[i]).documentId in t.rows
      {
        assert docs[i] in docs;
      }
    }
  }

  /** The append loop of read_docs: one item per listed document, in list order. */
  method ProjectItems(docs: seq<Record>) returns (items: seq<DocumentItem>)
    ensures items == Items(docs)
  {
    items := [];
    for i := 0 to |docs|
      invariant |items| == i
      invariant forall j :: 0 <= j < i ==> items[j] == ItemOf(docs[j])
    {
      items := items + [ItemOf(docs[i])];
    }
  }

  /**
   * GET /documents: the count (the app repository's count with its default
   * window) gives the links; a zero page size then fails the page-count
   * division; the page is listed and each listed document becomes an item.
   */
  method ReadDocs(repo: AppRepository.BaseRepository, pageAfter: int, pageSize: int)
    returns (r: Result<DocumentList, Error>)
    requires repo.Valid() && repo.model == AppDocument
    ensures r == ReadDocsSpec(repo.Working(), pageAfter, pageSize)
  {
    var items: seq<DocumentItem> := [];
    var counted := repo.Count(0, 100, None, []);
    DefaultCount(AppDocument, repo.Working());
    var docsCount := counted.value.value;
    if pageSize == 0 {
      return Err(DivisionByZero);
    }
    var nPages := CeilDiv(docsCount, pageSize);
    var links := DocumentLinks(pageAfter, pageSize, docsCount);
    var listed := repo.List((pageAfter - 1) * pageSize, pageSize, None, []);
    if listed.Err? {
      return Err(listed.error);
    }
    items := ProjectItems(listed.value);
    r := Ok(DocumentList("/documents", items, |items|, pageSize, links));
  }
}

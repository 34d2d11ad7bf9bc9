/** The records of the item table and the three statements whose text the
    storage package defines: insert-returning, the newest-first page and the
    row count. The table is held in memory as a sequence of rows in physical
    (insertion) order; each statement is a function of that sequence. */
module Sql {
  import opened Wrappers

  /** Row identifier. The database generates a random UUID; here an id is an
      abstract value, and freshness is all that matters about it. */
  type Id = nat

  /** Timestamps are points of a discrete clock. */
  type Timestamp = nat

  /** One row of the `items` table. `description` is nullable: None (NULL) is
      a different value from Some("") (the empty string). */
  datatype Item = Item(
    id: Id,
    name: string,
    description: Option<string>,
    createdAt: Timestamp,
    updatedAt: Timestamp)

  /** The create payload: only the name and the description come from the
      client; id and timestamps are the database's. */
  datatype CreateItemRequest = CreateItemRequest(name: string, description: Option<string>)

  /** Pagination parameters exactly as the client sent them. */
  datatype ListItemsRequest = ListItemsRequest(limit: int, offset: int)

  /** One page of items together with the table's full row count. */
  datatype ListItemsResponse = ListItemsResponse(items: seq<Item>, total: int, limit: int, offset: int)

  /** The request binder's rule for the create payload: `name` is required,
      which rejects a missing name and the empty string alike; a missing
      description stays absent. */
  function BindCreateRequest(name: Option<string>, description: Option<string>): (r: Option<CreateItemRequest>)
    ensures r.Some? <==> name.Some? && name.value != ""
    ensures r.Some? ==> r.value.name == name.value && r.value.description == description
  {
    match name
    case Some(n) => if n == "" then None else Some(CreateItemRequest(n, description))
    case None => None
  }

  // ---------------------------------------------------------------------------
  // INSERT INTO items (name, description) VALUES ($1, $2) RETURNING ...

  /** The row the insert produces: the client's name and description, the
      generated id, and both timestamps taken from the statement's clock. */
  function NewRow(req: CreateItemRequest, id: Id, now: Timestamp): Item
  {
    Item(id, req.name, req.description, now, now)
  }

  /** The insert statement: the new table and the rows it RETURNs. */
  function InsertQuery(t: seq<Item>, req: CreateItemRequest, id: Id, now: Timestamp): (r: (seq<Item>, seq<Item>))
    ensures |r.0| == |t| + 1 && r.0[..|t|] == t
    ensures r.1 == [r.0[|t|]]
    ensures r.1[0].name == req.name && r.1[0].description == req.description
    ensures r.1[0].id == id && r.1[0].createdAt == now && r.1[0].updatedAt == now
  {
    var row := NewRow(req, id, now);
    (t + [row], [row])
  }

  // ---------------------------------------------------------------------------
  // SELECT ... FROM items ORDER BY created_at DESC LIMIT $1 OFFSET $2

  /** Newest first: created_at never increases along the sequence. */
  ghost predicate NewestFirst(s: seq<Item>)
  {
    forall i, j :: 0 <= i < j < |s| ==> s[i].createdAt >= s[j].createdAt
  }

  /** Places `x` into a newest-first sequence, ahead of every row with the
      same created_at. */
  function InsertByCreated(x: Item, s: seq<Item>): (r: seq<Item>)
    requires NewestFirst(s)
    ensures NewestFirst(r)
    ensures multiset(r) == multiset(s) + multiset{x}
    ensures |r| == |s| + 1
  {
    if s == [] then [x]
    else if x.createdAt >= s[0].createdAt then [x] + s
    else
      var rest := InsertByCreated(x, s[1..]);
      assert s == [s[0]] + s[1..];
      PrependNewest(s[0], rest, x, s[1..]);
      [s[0]] + rest
  }

  /** A row at least as new as every row of `rest` can head it. */
  lemma PrependNewest(head: Item, rest: seq<Item>, x: Item, tail: seq<Item>)
    requires NewestFirst(rest)
    requires multiset(rest) == multiset(tail) + multiset{x}
    requires head.createdAt > x.createdAt
    requires forall y :: y in tail ==> head.createdAt >= y.createdAt
    ensures NewestFirst([head] + rest)
  {
    forall j | 0 <= j < |rest| ensures head.createdAt >= rest[j].createdAt {
      assert rest[j] in multiset(rest);
    }
  }

  /** ORDER BY created_at DESC. The statement names no tie-break; this order
      keeps rows with equal created_at in table order. */
  function SortNewestFirst(t: seq<Item>): (r: seq<Item>)
    ensures NewestFirst(r)
    ensures multiset(r) == multiset(t)
    ensures |r| == |t|
  {
    if t == [] then []
    else
      assert t == [t[0]] + t[1..];
      InsertByCreated(t[0], SortNewestFirst(t[1..]))
  }

  /** LIMIT `limit` OFFSET `offset`: skip `offset` rows, then take at most
      `limit`. An offset at or past the end leaves nothing. */
  function Window<T>(s: seq<T>, limit: nat, offset: nat): (r: seq<T>)
    ensures |r| == if offset >= |s| then 0 else Min(limit, |s| - offset)
    ensures forall i :: 0 <= i < |r| ==> r[i] == s[offset + i]
  {
    if offset >= |s| then []
    else if |s| - offset <= limit then s[offset..]
    else s[offset..offset + limit]
  }

  /** A window that lies inside the sequence is the plain slice. */
  lemma WindowInside<T>(s: seq<T>, limit: nat, offset: nat)
    requires offset + limit <= |s|
    ensures Window(s, limit, offset) == s[offset..offset + limit]
  {
  }

  function Min(a: int, b: int): int
  {
    if a <= b then a else b
  }

  /** The page statement: the table sorted newest first, windowed. The page
      holds consecutive rows of that order, is full unless the table runs
      out, and never holds more than `limit` rows or a row not in the table
      (its order is stated by ListQueryNewestFirst below). */
  function ListQuery(t: seq<Item>, limit: nat, offset: nat): (r: seq<Item>)
    ensures |r| == if offset >= |t| then 0 else Min(limit, |t| - offset)
    ensures |r| <= limit
    ensures forall i :: 0 <= i < |r| ==> r[i] == SortNewestFirst(t)[offset + i]
    ensures forall x :: x in r ==> x in t
  {
    var sorted := SortNewestFirst(t);
    var page := Window(sorted, limit, offset);
    assert forall x :: x in page ==> x in multiset(sorted);
    page
  }

  // ---------------------------------------------------------------------------
  // SELECT COUNT(*) FROM items

  /** The count statement: every row of the table, whatever page is asked for. */
  function CountQuery(t: seq<Item>): (n: nat)
    ensures n == |t|
  {
    |t|
  }

  // ---------------------------------------------------------------------------
  // Properties relating the statements

  /** A page is ordered newest first (ORDER BY created_at DESC). */
  lemma ListQueryNewestFirst(t: seq<Item>, limit: nat, offset: nat)
    ensures NewestFirst(ListQuery(t, limit, offset))
  {
    var page, sorted := ListQuery(t, limit, offset), SortNewestFirst(t);
    forall i, j | 0 <= i < j < |page| ensures page[i].createdAt >= page[j].createdAt {
      assert page[i] == sorted[offset + i] && page[j] == sorted[offset + j];
    }
  }

  /** The count is the length of the page the list statement yields when it
      starts at the top and its limit covers the whole table: that page is
      the whole table, newest first. */
  lemma CountIsUnpagedList(t: seq<Item>, limit: nat)
    requires limit >= |t|
    ensures ListQuery(t, limit, 0) == SortNewestFirst(t)
    ensures |ListQuery(t, limit, 0)| == CountQuery(t)
  {
    var page, sorted := ListQuery(t, limit, 0), SortNewestFirst(t);
    assert |page| == |sorted|;
    forall i | 0 <= i < |page| ensures page[i] == sorted[i] {
      assert page[i] == sorted[0 + i];
    }
  }

  /** When the table reaches past the window, the page is exactly the
      `limit` rows of the newest-first order that follow the first `offset`. */
  lemma FullPage(t: seq<Item>, limit: nat, offset: nat)
    requires offset + limit <= |t|
    ensures ListQuery(t, limit, offset) == SortNewestFirst(t)[offset..offset + limit]
  {
    WindowInside(SortNewestFirst(t), limit, offset);
  }

  /** Fifteen rows, limit 5, offset 10: the page is the 11th to 15th newest,
      and the count still sees all fifteen. */
  lemma FifteenRowsThirdPage(t: seq<Item>)
    requires |t| == 15
    ensures ListQuery(t, 5, 10) == SortNewestFirst(t)[10..15]
    ensures CountQuery(t) == 15
  {
    FullPage(t, 5, 10);
  }
}

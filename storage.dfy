/** The storage gateway: one `Store` over the `items` table, with create,
    paginated list, get, update and delete. Every operation is a single
    statement against the table followed by the classification of its
    failure: "no rows" becomes NotFound for get, update and delete, and every
    other driver error is handed back unchanged. */
module Storage {
  import opened Wrappers
  import opened Sql

  /** What the database driver reports: the result set of a single-row
      read was empty, or some other failure (connection, timeout,
      constraint) described only by its message. */
  datatype DbError = ErrNoRows | DriverError(message: string)

  /** The outcome of a store operation. NotFound is the error the store builds
      itself, with the message "item not found"; StorageError carries the
      driver's error unchanged. */
  datatype StoreResult<+T> = Ok(value: T) | NotFound | StorageError(cause: DbError)

  /** Page size used when the client asks for none (or a non-positive one). */
  const DefaultLimit: int := 10

  /** Largest page the store hands out. */
  const MaxLimit: int := 100

  // ---------------------------------------------------------------------------
  // Pagination

  /** A request the store would pass to the page statement as it is. */
  predicate IsNormalized(req: ListItemsRequest)
  {
    1 <= req.limit <= MaxLimit && 0 <= req.offset
  }

  /** The defaulting and clamping of the page parameters. Its fixed points
      are exactly the normalized requests, so applying it twice changes
      nothing more than applying it once. */
  function Normalize(req: ListItemsRequest): (r: ListItemsRequest)
    ensures IsNormalized(r)
    ensures req.limit <= 0 ==> r.limit == DefaultLimit
    ensures req.limit > MaxLimit ==> r.limit == MaxLimit
    ensures 1 <= req.limit <= MaxLimit ==> r.limit == req.limit
    ensures req.offset < 0 ==> r.offset == 0
    ensures req.offset >= 0 ==> r.offset == req.offset
    ensures r == req <==> IsNormalized(req)
  {
    var limit := if req.limit <= 0 then DefaultLimit else if req.limit > MaxLimit then MaxLimit else req.limit;
    var offset := if req.offset < 0 then 0 else req.offset;
    ListItemsRequest(limit, offset)
  }

  // ---------------------------------------------------------------------------
  // Reading one row and classifying the failure

  /** The driver's single-row read over the rows a statement produced: the
      first row, "no rows" when there is none, or the driver's own failure,
      in which case the statement produced nothing. */
  function GetFirst(returned: seq<Item>, fault: Option<string>): (r: Result<Item, DbError>)
    ensures r == Failure(ErrNoRows) <==> fault.None? && returned == []
    ensures fault.Some? <==> r.Failure? && r.error.DriverError?
    ensures fault.Some? ==> r.error == DriverError(fault.value)
    ensures r.Success? ==> r.value == returned[0]
  {
    if fault.Some? then Failure(DriverError(fault.value))
    else if returned == [] then Failure(ErrNoRows)
    else Success(returned[0])
  }

  /** The not-found classification of get, update and delete: "no rows" and
      only "no rows" becomes NotFound; any other error passes through as it
      is, and a row passes through as the result. */
  function Classify(res: Result<Item, DbError>): (r: StoreResult<Item>)
    ensures r.NotFound? <==> res == Failure(ErrNoRows)
    ensures r.Ok? <==> res.Success?
    ensures r.Ok? ==> r.value == res.value
    ensures r.StorageError? ==> res == Failure(r.cause) && r.cause != ErrNoRows
  {
    match res
    case Success(item) => Ok(item)
    case Failure(e) => if e == ErrNoRows then NotFound else StorageError(e)
  }

  // ---------------------------------------------------------------------------
  // Selecting rows by id

  /** Some row of `t` has identifier `id`. */
  ghost predicate HasId(t: seq<Item>, id: Id)
  {
    exists x :: x in t && x.id == id
  }

  /** No two rows share an identifier (the primary key). */
  ghost predicate UniqueIds(t: seq<Item>)
  {
    forall i, j :: 0 <= i < j < |t| ==> t[i].id != t[j].id
  }

  /** The rows a `WHERE id = $1` clause matches, in table order. */
  function WithId(t: seq<Item>, id: Id): (r: seq<Item>)
    ensures forall x :: x in r <==> x in t && x.id == id
    ensures |r| <= |t|
  {
    if t == [] then []
    else
      assert t == [t[0]] + t[1..];
      (if t[0].id == id then [t[0]] else []) + WithId(t[1..], id)
  }

  /** The rows a `WHERE id = $1` clause leaves alone, in table order. */
  function WithoutId(t: seq<Item>, id: Id): (r: seq<Item>)
    ensures forall x :: x in r <==> x in t && x.id != id
    ensures |r| <= |t|
  {
    if t == [] then []
    else
      assert t == [t[0]] + t[1..];
      (if t[0].id != id then [t[0]] else []) + WithoutId(t[1..], id)
  }

  /** A table row after an update statement: the statement's assignments
      applied, with the primary key and the creation time kept. */
  function Rewritten<R>(row: Item, req: R, assign: (Item, R) -> Item): (r: Item)
    ensures r.id == row.id && r.createdAt == row.createdAt
  {
    assign(row, req).(id := row.id, createdAt := row.createdAt)
  }

  /** The table after an update statement: each row the `WHERE id = $1`
      clause matches is rewritten, every other row is left as it was. */
  function RewriteRows<R>(t: seq<Item>, id: Id, req: R, assign: (Item, R) -> Item): (r: seq<Item>)
    ensures |r| == |t|
    ensures forall i :: 0 <= i < |t| ==> r[i].id == t[i].id
    ensures forall i :: 0 <= i < |t| && t[i].id != id ==> r[i] == t[i]
    ensures forall i :: 0 <= i < |t| && t[i].id == id ==> r[i] == Rewritten(t[i], req, assign)
  {
    seq(|t|, i requires 0 <= i < |t| => if t[i].id == id then Rewritten(t[i], req, assign) else t[i])
  }

  // ---------------------------------------------------------------------------
  // Properties of the selections

  /** Every row is matched by `WHERE id = $1` or left by it, never both. */
  lemma {:induction false} SplitById(t: seq<Item>, id: Id)
    ensures |WithId(t, id)| + |WithoutId(t, id)| == |t|
  {
    if t != [] {
      SplitById(t[1..], id);
    }
  }

  /** Under the primary key, an id matches at most one row. */
  lemma {:induction false} AtMostOneWithId(t: seq<Item>, id: Id)
    requires UniqueIds(t)
    ensures |WithId(t, id)| <= 1
    ensures HasId(t, id) ==> |WithId(t, id)| == 1
  {
    if t != [] {
      AtMostOneWithId(t[1..], id);
      if t[0].id == id {
        assert t[0] in t;
        forall k | 0 <= k < |t[1..]| ensures t[1..][k].id != id {
          assert t[1..][k] == t[k + 1];
        }
        SelectFindsId(t[1..], id);
      } else if HasId(t, id) {
        var x :| x in t && x.id == id;
        assert x in t[1..];
      }
    }
  }

  /** Selecting by id distributes over appending rows. */
  lemma {:induction false} WithIdAppend(a: seq<Item>, b: seq<Item>, id: Id)
    ensures WithId(a + b, id) == WithId(a, id) + WithId(b, id)
  {
    if a != [] {
      assert (a + b)[0] == a[0] && (a + b)[1..] == a[1..] + b;
      WithIdAppend(a[1..], b, id);
    } else {
      assert a + b == b;
    }
  }

  /** Selecting by id yields a row exactly when some row has that id. */
  lemma SelectFindsId(t: seq<Item>, id: Id)
    ensures WithId(t, id) != [] <==> HasId(t, id)
  {
    if WithId(t, id) != [] {
      assert WithId(t, id)[0] in WithId(t, id);
    }
    if HasId(t, id) {
      var x :| x in t && x.id == id;
      assert x in WithId(t, id);
    }
  }

  /** Removing the rows with one id keeps the primary key. */
  lemma {:induction false} WithoutIdUnique(t: seq<Item>, id: Id)
    requires UniqueIds(t)
    ensures UniqueIds(WithoutId(t, id))
  {
    if t != [] {
      var rest := WithoutId(t[1..], id);
      assert UniqueIds(t[1..]) by {
        forall i, j | 0 <= i < j < |t[1..]| ensures t[1..][i].id != t[1..][j].id {
          assert t[1..][i] == t[i + 1] && t[1..][j] == t[j + 1];
        }
      }
      WithoutIdUnique(t[1..], id);
      if t[0].id != id {
        forall j | 0 <= j < |rest| ensures rest[j].id != t[0].id {
          assert rest[j] in rest;
          var k :| 0 <= k < |t[1..]| && t[1..][k] == rest[j];
          assert t[k + 1] == rest[j];
        }
        var r := [t[0]] + rest;
        forall i, j | 0 <= i < j < |r| ensures r[i].id != r[j].id {
          if i == 0 {
            assert r[j] == rest[j - 1];
          } else {
            assert r[i] == rest[i - 1] && r[j] == rest[j - 1];
          }
        }
      }
    }
  }

  /** Inserting a row with a fresh id and then selecting that id returns
      exactly the rows the insert returned. */
  lemma InsertThenSelect(t: seq<Item>, req: CreateItemRequest, id: Id, now: Timestamp)
    requires !HasId(t, id)
    ensures WithId(InsertQuery(t, req, id, now).0, id) == InsertQuery(t, req, id, now).1
  {
    var row := NewRow(req, id, now);
    WithIdAppend(t, [row], id);
    SelectFindsId(t, id);
    assert [row][1..] == [];
  }

  // ---------------------------------------------------------------------------
  // The store

  /** The gateway over the `items` table. `rows` is the table in physical
      order; `nextId` stands in for the database's identifier generator: it
      is above every id ever handed out, so a new id is never one in use or
      one that was deleted. */
  class Store {
    var rows: seq<Item>
    var nextId: Id

    ghost predicate Valid()
      reads this
    {
      UniqueIds(rows) && forall x :: x in rows ==> x.id < nextId
    }

    /** A store over an existing table: `t` holds the rows already in the
        database (none for a fresh one), and `n` is above every id in it. */
    constructor (t: seq<Item>, n: Id)
      requires UniqueIds(t) && forall x :: x in t ==> x.id < n
      ensures Valid() && rows == t && nextId == n
    {
      rows := t;
      nextId := n;
    }

    /** Inserts one row built from the request and returns the row the insert
        produced, ids and timestamps included. A driver failure returns that
        error and leaves the table as it was. */
    method CreateItem(req: CreateItemRequest, now: Timestamp, fault: Option<string>) returns (r: StoreResult<Item>)
      requires Valid()
      modifies this
      ensures Valid() && nextId >= old(nextId)
      ensures fault.Some? ==> r == StorageError(DriverError(fault.value)) && rows == old(rows)
      ensures fault.None? ==> r.Ok? && rows == old(rows) + [r.value]
      ensures r.Ok? ==> r.value.name == req.name && r.value.description == req.description
      ensures r.Ok? ==> r.value.createdAt == now && r.value.updatedAt == now
      ensures r.Ok? ==> !HasId(old(rows), r.value.id) && r.value.id >= old(nextId)
      ensures r.Ok? ==> GetItem(r.value.id, None) == Ok(r.value)
    {
      var (table, returned) := InsertQuery(rows, req, nextId, now);
      var res := GetFirst(returned, fault);
      if res.Failure? {
        return StorageError(res.error);
      }
      InsertThenSelect(rows, req, nextId, now);
      rows, nextId := table, nextId + 1;
      r := Ok(res.value);
    }

    /** One page of the table, newest first, with the table's full count.
        The page parameters are defaulted and clamped first, and the response
        echoes them as used. The count runs before the page: a failure of
        either returns that error and no response. */
    method ListItems(req: ListItemsRequest, countFault: Option<string>, selectFault: Option<string>)
      returns (r: StoreResult<ListItemsResponse>)
      ensures countFault.Some? ==> r == StorageError(DriverError(countFault.value))
      ensures countFault.None? && selectFault.Some? ==> r == StorageError(DriverError(selectFault.value))
      ensures r.Ok? <==> countFault.None? && selectFault.None?
      ensures r.Ok? ==> r.value.limit == Normalize(req).limit && r.value.offset == Normalize(req).offset
      ensures r.Ok? ==> r.value.total == |rows|
      ensures r.Ok? ==> r.value.items == ListQuery(rows, Normalize(req).limit, Normalize(req).offset)
      ensures r.Ok? ==> 1 <= r.value.limit <= MaxLimit && 0 <= r.value.offset && |r.value.items| <= r.value.limit
    {
      var q := req;
      if q.limit <= 0 {
        q := q.(limit := DefaultLimit);
      }
      if q.limit > MaxLimit {
        q := q.(limit := MaxLimit);
      }
      if q.offset < 0 {
        q := q.(offset := 0);
      }

      if countFault.Some? {
        return StorageError(DriverError(countFault.value));
      }
      var total := CountQuery(rows);

      if selectFault.Some? {
        return StorageError(DriverError(selectFault.value));
      }
      var items := ListQuery(rows, q.limit, q.offset);

      r := Ok(ListItemsResponse(items, total, q.limit, q.offset));
    }

    /** The row with the given id, NotFound when there is none, or the
        driver's failure unchanged. */
    function GetItem(id: Id, fault: Option<string>): (r: StoreResult<Item>)
      reads this
      ensures r.NotFound? <==> fault.None? && !HasId(rows, id)
      ensures r.StorageError? <==> fault.Some?
      ensures fault.Some? ==> r == StorageError(DriverError(fault.value))
      ensures r.Ok? ==> r.value in rows && r.value.id == id
      ensures r.Ok? && UniqueIds(rows) ==> forall x :: x in rows && x.id == id ==> x == r.value
    {
      SelectFindsId(rows, id);
      Classify(GetFirst(WithId(rows, id), fault))
    }

    /** Applies the update statement to the row with the given id and returns
        the row as updated. The statement's assignments are not part of this
        model: `assign` stands for them. NotFound when no row has the id, and
        the table is then unchanged. */
    method UpdateItem<R>(id: Id, req: R, fault: Option<string>, assign: (Item, R) -> Item) returns (r: StoreResult<Item>)
      requires Valid()
      modifies this
      ensures Valid() && nextId == old(nextId)
      ensures r.NotFound? <==> fault.None? && !HasId(old(rows), id)
      ensures r.StorageError? <==> fault.Some?
      ensures fault.Some? ==> r == StorageError(DriverError(fault.value))
      ensures !r.Ok? ==> rows == old(rows)
      ensures r.Ok? ==> rows == RewriteRows(old(rows), id, req, assign)
      ensures r.Ok? ==> r.value in rows && r.value.id == id
    {
      var table := RewriteRows(rows, id, req, assign);
      var returned := WithId(table, id);
      if returned != [] {
        assert returned[0] in returned;
        var i :| 0 <= i < |table| && table[i] == returned[0];
        assert rows[i].id == id;
      }
      r := Classify(GetFirst(returned, fault));
      if r.Ok? {
        assert forall x :: x in table ==> x.id < nextId by {
          forall x | x in table ensures x.id < nextId {
            var i :| 0 <= i < |table| && table[i] == x;
            assert rows[i] in rows;
          }
        }
        rows := table;
      }
    }

    /** Removes the row with the given id and returns a row on success.
        NotFound when no row has the id, and the table is then unchanged. */
    method DeleteItem(id: Id, fault: Option<string>) returns (r: StoreResult<Item>)
      requires Valid()
      modifies this
      ensures Valid() && nextId == old(nextId)
      ensures r.NotFound? <==> fault.None? && !HasId(old(rows), id)
      ensures r.StorageError? <==> fault.Some?
      ensures fault.Some? ==> r == StorageError(DriverError(fault.value))
      ensures !r.Ok? ==> rows == old(rows)
      ensures r.Ok? ==> rows == WithoutId(old(rows), id) && |rows| == |old(rows)| - 1
      ensures fault.None? ==> GetItem(id, None) == NotFound
    {
      var returned := WithId(rows, id);
      SelectFindsId(rows, id);
      r := Classify(GetFirst(returned, fault));
      if r.Ok? {
        AtMostOneWithId(rows, id);
        SplitById(rows, id);
        WithoutIdUnique(rows, id);
        rows := WithoutId(rows, id);
      }
    }
  }
}

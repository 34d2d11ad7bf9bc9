# Item storage gateway, modelled in Dafny

This project models the persistence layer of a small CRUD service. The service
manages one resource, the *item*. Its `storage` package owns the `items` table.
It creates rows, lists them a page at a time with the full row count, reads one
row by id, updates it and deletes it. A database answer of "no rows" becomes an
"item not found" error. Every other database error is handed back unchanged.

The database is modelled in memory:

- `Sql` (`sql.dfy`) holds the record types and the three statements whose text the
  package defines, as functions over a sequence of rows in table order:
  - the insert that returns the new row;
  - the page query (`ORDER BY created_at DESC LIMIT $1 OFFSET $2`), as a sort
    followed by a window;
  - the `COUNT(*)` query.
- `Storage` (`storage.dfy`) holds the `Store` class.
  - Its fields are the table (`rows`) and an id counter that stands in for the
    database's UUID generator.
  - `CreateItem`, `UpdateItem` and `DeleteItem` are methods that change the table.
  - `ListItems` is a method that does not change it. It defaults and clamps the
    page parameters step by step, then runs the count and then the page query.
  - `GetItem` is a function of the table.
  - The driver's single-row read (`GetFirst`) and the not-found classification
    (`Classify`) are functions shared by the operations.
- `Wrappers` (`wrappers.dfy`) holds `Option` (Go's nil-able pointers) and `Result`.

Inputs the model takes as parameters:

- A driver failure (connection loss, timeout, constraint violation) is a
  parameter `fault: Option<string>`. `None` means the statement runs against the
  table. `ListItems` takes one such parameter per statement.
- The clock is a parameter `now`. It sets both timestamps of an inserted row.
- Ids are abstract naturals. The store hands out a fresh one that is above every
  id it has handed out before, so an id is never reused, even after a delete.

`ORDER BY created_at DESC` names no tie-break. The model fixes one: rows with
equal `created_at` keep their table order. Because `ListQuery` states each page
row by row against that sort, the order among ties is part of the contracts, and
paging in the model is deterministic.

The statements behind get, update and delete are not in the package's files
(storage/store.go:72, 85, 98 use `getItemQuery`, `updateItemQuery` and
`deleteItemQuery`; storage/sql.go defines only the other three). The model
assumes each one selects rows with `WHERE id = $1`. Update's assignments are an
abstract function parameter (`assign`), so no rule for merging name and
description is asserted. The model does take the update statement to leave `id`
and `created_at` as they were, so the row an update returns keeps the old
`created_at`. Delete asserts nothing about the row it returns.

## Model

| member | source | states |
|---|---|---|
| `Sql.BindCreateRequest` | storage/sql.go:18-21 | a create payload is accepted exactly when a non-empty name is present; name and description are kept as given, an absent description stays absent |
| `Sql.InsertQuery` | storage/sql.go:38-42 | the insert appends exactly one row and leaves the existing rows as they were; it returns that row, which carries the request's name and description, the generated id and the statement's time as both timestamps |
| `Sql.InsertByCreated` | storage/sql.go:47 | inserting a row into a newest-first sequence keeps it newest first and adds exactly that row |
| `Sql.SortNewestFirst` | storage/sql.go:47 | the sorted table is ordered by created_at, never increasing, and is a permutation of the table |
| `Sql.Window` | storage/sql.go:48 | LIMIT/OFFSET skips `offset` rows and takes the next `min(limit, rows left)`; an offset at or past the end yields nothing |
| `Sql.WindowInside` | storage/sql.go:48 | a window that lies inside the sequence is exactly the slice of `limit` elements after the first `offset` |
| `Sql.ListQuery` | storage/sql.go:44-49 | a page holds at most `limit` rows, is full unless the table runs out, holds the consecutive rows `offset`, `offset+1`, … of the sorted table, and only rows of the table |
| `Sql.ListQueryNewestFirst` | storage/sql.go:47 | every page is ordered by created_at, never increasing |
| `Sql.FullPage` | storage/sql.go:44-49 | when the table has at least `offset + limit` rows, the page is exactly the `limit` newest rows after the first `offset` |
| `Sql.FifteenRowsThirdPage` | storage/sql.go:44-54 | with fifteen rows, limit 5 and offset 10, the page is the 11th to 15th newest rows and the count is 15 |
| `Sql.CountQuery` | storage/sql.go:51-54 | the count is every row of the table, whatever page is asked for |
| `Sql.CountIsUnpagedList` | storage/sql.go:44-54 | the count equals the length of the list statement's result started at offset 0 with a limit covering the table, and that result is the whole table newest first |
| `Storage.Normalize` | storage/store.go:37-45 | a limit ≤ 0 becomes 10, a limit > 100 becomes 100, a limit in 1..100 and a non-negative offset are kept, a negative offset becomes 0; the result always has 1 ≤ limit ≤ 100 and offset ≥ 0; a request is left unchanged exactly when it is already in range, so normalising twice is the same as once |
| `Storage.GetFirst` | storage/store.go:72-73 | the driver's single-row read fails with "no rows" exactly when the statement produced none and did not fail; a driver failure comes back as that failure; otherwise the first produced row is returned |
| `Storage.Classify` | storage/store.go:73-79 | "no rows" and nothing else becomes NotFound; every other error is returned unchanged; a row is returned as the result |
| `Storage.WithId` | storage/store.go:72 | selecting by id keeps exactly the rows that have that id |
| `Storage.WithoutId` | storage/store.go:98 | deleting by id keeps exactly the rows that have another id |
| `Storage.RewriteRows` | storage/store.go:85 | an update rewrites the rows with the id, keeping their id and creation time, and leaves every other row as it was |
| `Storage.SplitById` | storage/store.go:98 | every row is either selected by an id or left by it, never both: the two counts add up to the table size |
| `Storage.AtMostOneWithId` | storage/store.go:72 | with unique ids, an id selects at most one row, and exactly one when some row has it |
| `Storage.WithIdAppend` | storage/store.go:72 | selecting by id distributes over appending rows |
| `Storage.SelectFindsId` | storage/store.go:72-75 | selecting by id finds a row exactly when some row has that id |
| `Storage.WithoutIdUnique` | storage/store.go:98 | deleting by id keeps the ids unique |
| `Storage.InsertThenSelect` | storage/store.go:25-31 | after inserting a row with a fresh id, selecting that id returns exactly the row the insert returned |
| `Storage.Store.constructor` | storage/store.go:17-21 | a store wraps the table as the database holds it (empty or not) and satisfies its invariant: unique ids, all below the id counter |
| `Storage.Store.CreateItem` | storage/store.go:25-31 | on a driver failure returns that error and leaves the table unchanged; otherwise appends exactly one row and returns it (the inserted row, not an echo of the request): name and description as requested, both timestamps the statement's time, an id never used before; a later get of that id returns the same row |
| `Storage.Store.ListItems` | storage/store.go:35-67 | a failing count returns its error and no response, and so does a failing page query after it; otherwise the response holds the page for the normalised limit and offset, the full row count as total whatever the paging, and echoes the normalised limit and offset; at most `limit` items |
| `Storage.Store.GetItem` | storage/store.go:70-80 | NotFound exactly when no driver failure occurs and no row has the id; a storage error exactly when the driver fails, carrying its error unchanged; otherwise the row with that id |
| `Storage.Store.UpdateItem` | storage/store.go:83-93 | NotFound exactly when no driver failure occurs and no row has the id; a storage error exactly when the driver fails, carrying its error unchanged; the table is unchanged on either failure; on success only the row with that id is rewritten, keeping its id and created_at, and the returned row has that id |
| `Storage.Store.DeleteItem` | storage/store.go:96-106 | NotFound exactly when no driver failure occurs and no row has the id; a storage error exactly when the driver fails, carrying its error unchanged; the table is unchanged on either failure; on success exactly one row, the one with the id, is removed; afterwards a get of that id is NotFound |

## Left out

- The database driver and its connection, including context cancellation. A driver failure is a parameter of each operation, and a failing statement is taken to have no effect on the table. In the source, an error reported after a statement has committed (a scan error, a cancelled context) would leave the table changed.
- UUID generation and the wall clock. Ids are naturals from a counter in the store. The clock is a parameter.
- Go's `int` is 64 bits wide. Normalisation cannot overflow, so the model uses unbounded integers.
- The database schema is not part of this model. Both timestamps of a new row are taken from the same clock value, and the primary key on `id` appears as the store's unique-ids invariant.
- `Storage.Store.UpdateItem`: the text of the update statement is not part of this model. Its assignments are an abstract function, so no field-merge rule and no refreshed `updated_at` are asserted. The statement is taken to leave `id` and `created_at` as they were, so the returned row keeps the old row's id and `created_at`.
- `Storage.Store.DeleteItem`: the text of the delete statement is not part of this model. Its returned row is not described beyond being a row. The model takes delete to remove the row with that id (a physical delete); the source does not show this statement.
- `Storage.Store.GetItem`: the text of the get statement is not part of this model. It is taken to be an exact match on id.
- The list's `total` and `items` come from two statements. Under concurrent writes they may see different tables. The model runs them in sequence on one table.
- `ORDER BY created_at DESC` leaves the order of rows with equal `created_at` to the database, which may order them differently from one statement to the next, so tied rows can repeat or go missing across pages. The model fixes ties to table order and does not capture that.
- The HTTP handlers, routing and logging, the command-line client, and process bootstrap are not part of this model.

# Entity lifecycle of ske, in Dafny

This project models the entity handlers of the `ske` service (`entity.go`):
the REST handlers that create, read, patch, delete and list entities in a
shared table, and the message consumer that receives `entity_new` messages.
The table is a map from id to `Entity` record. The store's own work (id
assignment, timestamps, ordering) is modelled by parameters and by a choice
the model leaves open.

- `wrappers.dfy`: `Option` and `Result`.
- `entities.dfy` (module `Entities`): the record, the patch body with an
  optional title, the errors, the table invariant `Consistent` (every row
  under its own id, no empty title), and `Merge`, the presence-based patch.
- `lifecycle.dfy` (module `Lifecycle`): each REST handler as a step from the
  table before to the handler's result and the table after, with the
  properties each one promises.
- `listing.dfy` (module `Listing`): the scan ordered by `updated_at`
  descending, offset and limit, and what a page holds.
- `service.dfy` (module `Service`): class `EntityStore`, the shared table as a
  field that the handler methods update in place. Each method's
  postcondition ties its result and the new table to its `Lifecycle` step.
  `ReceiveEntity` has no `modifies` clause, so it cannot touch the table.

Three points of the code's behaviour that a reader might expect otherwise:
- Delete: the handler makes no existence check, and the store's delete of a
  missing row is not an error, so deleting an unknown id succeeds.
- Message consumer: `ReceiveEntity` only decodes and logs, so it never writes
  the table, and it returns a decode failure to the consumer library.
- List: `getEntitys` applies no cap to `limit`, and the model takes any
  natural number.

## Model

| member | source | states |
|---|---|---|
| Entities.Merge | entity.go:72-78 | An absent title leaves the record unchanged. A present empty title fails with 400 "Empty title", and that is the only failure. A present non-empty title becomes the record's title. The id, timestamps and other columns always come from the stored record. |
| Lifecycle.Find | entity.go:15-21 | Succeeds exactly when a row is stored under the id, and returns that row. Otherwise it fails with the store's not-found error. |
| Lifecycle.Create | entity.go:42-58 | An empty title fails with 400 "Empty title" and leaves the table unchanged. A non-empty title with a taken id fails with the store's duplicate-key error and leaves the table unchanged. A non-empty title with a free id succeeds. The returned record has the new id, the input title and columns, and both timestamps set to now. The table then maps the new id to exactly that record. No other id changes, and the table invariant is preserved. |
| Lifecycle.Update | entity.go:61-85 | An unknown id fails with not-found whatever the patch holds, and the table is unchanged. A known id with a present empty title fails with 400, and the table is unchanged. Otherwise it succeeds. The saved record keeps the stored id, created_at and other columns, takes the merged title, and has updated_at set to now. It is stored under the id and returned. No other id changes, and the table invariant is preserved. |
| Lifecycle.Delete | entity.go:88-95 | Always succeeds. Afterwards the id is absent, every other id is unchanged, and the table invariant is preserved. |
| Lifecycle.GetAfterDelete | entity.go:97-105 | After deleting an id, getEntity on it reports not-found. Every other id gives the same answer as before the delete. |
| Lifecycle.EmptyPatchKeepsTitle | entity.go:72-84 | Patching a stored id with no field present succeeds. It returns the stored record with only updated_at changed to now, which advances when the clock does. |
| Lifecycle.DraftScenario | entity.go:42-105 | Create "Draft", apply an empty patch, patch to "Final", delete, then get. The title stays "Draft", then becomes "Final", updated_at follows the clock, the final get reports not-found, and the table is back to what it was. |
| Listing.Scan | entity.go:114-115 | The ordered scan has as many records as the table, in non-increasing updated_at order. It holds exactly the stored records, and in a consistent table each one exactly once. |
| Listing.Page | entity.go:114-115 | The page has at most limit records. Its length is the smaller of limit and the number of records left after offset, or zero when offset is past the end. Record i of the page is record offset+i of the scan. |
| Listing.List | entity.go:108-120 | The result has at most limit stored records, newest first. When offset is inside the table, it is exactly the records of the scan from position offset on, as many as the smaller of limit and the number left. It is the empty sequence when offset reaches past the table. |
| Listing.FirstPageIsNewest | entity.go:114-115 | No stored record left off the first page is more recent than any record on it. |
| Listing.NextPageIsOlder | entity.go:114-115 | Every record on the page after a page is no more recent than any record on that page. |
| Listing.TwoMostRecentOfThree | entity.go:108-120 | For three records with distinct ids and distinct updated_at, listing with limit 2 and offset 0 gives exactly the two most recently updated, newest first. |
| Service.EntityStore.CreateEntity | entity.go:42-58 | Keeps the table invariant. The result and the new table are those of Lifecycle.Create on the old table. |
| Service.EntityStore.GetEntity | entity.go:97-105 | Returns Lifecycle.Find on the table without changing it. On a consistent table, a row found has the requested id and a non-empty title. |
| Service.EntityStore.UpdateEntity | entity.go:61-85 | Keeps the table invariant. The result and the new table are those of Lifecycle.Update on the old table. |
| Service.EntityStore.DeleteEntity | entity.go:88-95 | Keeps the table invariant. The result and the new table are those of Lifecycle.Delete on the old table. |
| Service.EntityStore.ReceiveEntity | entity.go:28-37 | Succeeds with the decoded entity exactly when the body decodes, and otherwise returns a decode error. It changes nothing in the table. |
| Service.EntityStore.DeliverTwice | entity.go:28-37 | Delivering the same message twice gives the same answer both times and leaves the table unchanged. |

## Left out

- HTTP transport (binding request bodies, path parameters, JSON responses, status codes 201/200/204) is not modelled. A handler's result is its `Result`, and the 400 error is a value.
- The untyped `limit`/`offset` lookups in the request context are not modelled. They become natural-number parameters, and their parsing and validation are in code that is not part of this model.
- Store internals are foreign calls: SQL, soft deletion, and failures other than not-found and duplicate key. The table is a map.
- Id generation and timestamp hooks are in code that is not part of this model. The new id and the clock reading are parameters. Create stamps both timestamps with now, and Update stamps updated_at with now.
- Lifecycle.Create: a request body that already carries timestamps is not modelled. The store's create hook keeps non-zero timestamps, and the model always uses now.
- Listing.Scan: the order among records with equal updated_at is the store's choice. The model fixes one choice and states only what holds for every choice. Scan and List are ghost because of that choice.
- JSON decoding of a message body is the function parameter `decode`. Logging is I/O and is left out.
- Concurrency between the REST handlers and the message consumer, and last-write-wins races, are out of scope. Every operation runs alone.
- Go's nil slice versus empty slice has no counterpart in Dafny. An empty page is the empty sequence.

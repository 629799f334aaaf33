# Item registry

A Dafny model of the item registry behind a small HTTP items service. The
registry keeps an in-memory table from integer ids to item records and an id
counter that starts at 1. It has two operations:

- **create** takes the counter's current value as the new id and increments
  the counter. It computes `total = price * quantity`, stores a record that
  copies the request's name, description, price and quantity, and returns
  that record.
- **get** looks an id up. It returns the stored record, or the not-found
  outcome, which the service reports as "Item not found".

The model has two modules:

- `ItemRegistry` (`registry.dfy`) holds several parts:
  - the request and response records as datatypes;
  - a value-level description of the registry state (`Snapshot`), with its
    invariant `Sequential`: the stored ids are exactly `1 .. nextId-1`, each
    record carries its key as id, and each total equals price times quantity;
  - the state after one create (`Insert`) and after a run of creates
    (`CreateAll`, `IdsIssued`);
  - the class `ItemStore`, whose fields `items` and `nextId` stand for the
    service's table and counter. `ItemStore.Create` and `ItemStore.Get`
    update and read those fields in place.
- `Scenarios` (`scenarios.dfy`) runs request sequences on a fresh
  `ItemStore`: Widget followed by two lookups, the same request created
  twice, an omitted versus an empty description, and N creates in a row.

`name` is any string: the code does no non-empty check, so the model accepts
an empty name.

## Model

| member | source | states |
|---|---|---|
| `ItemRegistry.NewRecord` | main.py:62-70 | the built record carries the given id, its name, description, price and quantity are the request's unchanged, and its total is price times quantity |
| `ItemRegistry.NewRecordOfRequest` | main.py:62-70 | a record whose total is consistent is exactly the one create builds from its id and its request fields (the inverse of taking the request fields) |
| `ItemRegistry.Insert` | main.py:58-72 | one create moves the counter up by one, adds exactly the old counter value to the stored ids, and keeps the invariant; the new id was not yet stored |
| `ItemRegistry.Find` | main.py:80-84 | a lookup succeeds exactly when the id is a key of the table, then gives the stored record; otherwise it is not-found with the detail "Item not found" |
| `ItemRegistry.FoundIffIssued` | main.py:79-84 | when the invariant holds, a lookup finds a record exactly when the id is in `1 .. counter-1`, and the record found carries that id and a consistent total |
| `ItemRegistry.FindAfterInsert` | main.py:72-84 | after a create, looking up the new id gives the new record; every other id gives what it gave before |
| `ItemRegistry.CreateAllThenInsert` | main.py:58-72 | a run of creates followed by one more create gives the state and the issued ids of the longer run, the last id being the counter reached by the shorter run |
| `ItemRegistry.IdsAreConsecutive` | main.py:58-60 | N creates from counter c return the ids c, c+1, ..., c+N-1 in order and leave the counter at c+N |
| `ItemRegistry.CreateAllStores` | main.py:57-74 | a run of creates keeps the invariant, stores the k-th request's record under the k-th id, and leaves every earlier record as it was |
| `ItemRegistry.IdsAreFresh` | main.py:58-60 | the ids a run of creates returns are strictly increasing, and none of them was already stored (ids are never reused) |
| `ItemRegistry.FreshStoreIssuesOneToN` | main.py:35-72 | from the empty table with counter 1, N creates return the ids 1..N in order, the table then holds exactly the ids 1..N, and id k maps to the k-th request's record |
| `ItemRegistry.ItemStore.constructor` | main.py:35-36 | a new registry has an empty table and counter 1, and satisfies the invariant |
| `ItemRegistry.ItemStore.Create` | main.py:57-74 | returns the old counter as id and increments the counter. The returned record copies the request and has a consistent total. The table changes only by adding that record under the new id, which was absent before. The invariant is kept. |
| `ItemRegistry.ItemStore.Get` | main.py:79-84 | equals `Find` on the current table and counter: the stored record when the id is present, and otherwise not-found with the detail "Item not found". Under the invariant, a record is found exactly when the id is in `1 .. counter-1`. It has no modifies clause, so the table and counter stay the same. |
| `Scenarios.WidgetScenario` | main.py:57-84 | on a fresh registry, create Widget (2.5 x 4, no description) returns id 1 with total 10.0; get(1) returns the same record; get(999) is not found |
| `Scenarios.SameRequestTwice` | main.py:58-72 | on a fresh registry, two creates of the same request get ids 1 and 2; the second record is the first with its id replaced by 2, so they agree in every other field, total included |
| `Scenarios.OmittedVersusEmptyDescription` | main.py:18-28 | an omitted description is stored and returned as None, and an empty one as the empty string; the two are distinct |
| `Scenarios.CreateEach` | main.py:35-72 | N calls of `ItemStore.Create` on a fresh registry return the ids 1..N in order and leave the counter at N+1. The object then keeps the invariant, so it holds exactly the ids 1..N, and id k finds the k-th request's record. |

## Left out

- HTTP routing, decorators, response-model serialisation and status codes: the binding of `create_item`/`get_item` to routes is not modelled. The not-found outcome `NotFound` stands for the 404 whose detail is `NotFoundDetail`.
- Request validation: structural validation of the request body and the resulting 422 errors are done by a library outside the repository. `Create` receives a well-formed `ItemRequest`.
- The health check: it returns a constant and has no logic.
- The global exception handler and its 500 response: this is framework error handling.
- Logging and the server entry point: these are I/O.
- Floating-point semantics: `price` and `total` are mathematical reals. Rounding in `price * quantity` is not modelled, and neither are NaN and the infinities, which the request's float field accepts and which `price * quantity` can produce by overflow. For a NaN price, the source's stored total does not equal price times quantity, so `Consistent` would not hold there.
- ItemStore.Create: does not model the exception path of main.py:62. There, `price * quantity` converts the integer `quantity` to a float, which raises `OverflowError` once `quantity` is too large for a float (about 2**1024 in magnitude). The counter has already been incremented at main.py:60, and the store at main.py:72 never runs. That id is then used up with no record: the table's keys are no longer exactly `1 .. counter-1`, and get on that id is not-found. Because reals cannot overflow, the model's `Create` always succeeds, and `Valid()` holds only on that basis.
- Concurrency: the handlers contain no suspension points, so create and get are modelled as sequential, atomic method calls.
- Truthiness test in get: the source rejects any falsy lookup result. Records are datatype values and never empty, so `ItemStore.Get` tests only for absence. In the source that is the same test, because stored records are never empty dictionaries.
- Aliasing: the source returns the stored dictionary object itself. The model returns record values, so a caller that mutates the returned object is not modelled.

# TodoMVC store on Starbeam: a Dafny model

This project models the in-memory to-do store of a TodoMVC page. The page's
`App` component builds the store in its setup closure:

- a set of to-do records `{ id, label, completed }`;
- a counter `ID` that hands out ids as `String(ID++)`;
- two seeded records;
- three mutations: `addTodo`, `destroyTodo` and `clearCompleted`;
- two derived views: `todos()`, the route-filtered list sorted newest first,
  and `count()`, the footer's summary line.

The model has three modules:

- `Decimal` (decimal.dfy) gives JavaScript's `String(n)` and `Number(s)` for
  naturals below 2^53 and their numerals, where both are exact. It proves the
  two are inverse on canonical numerals. So an id can be modelled by the natural it was made
  from, and the sort's `Number(b.id) - Number(a.id)` compares those naturals.
- `Todos` (todos.dfy) holds the record datatype, the three route filters
  (all / active / completed), and the derived views as functions of a
  snapshot `[...allTodos]`: `Select` (the filter), `ActiveCount`,
  `Summary` (`count()`), `SortByIdDesc` (the sort) and `Display` (`todos()`).
  Each view has lemmas that state what it means. `Summary` has an inverse,
  `ParseSummary`, and the lemmas prove the round trip.
- `Store` (store.dfy) holds the class `TodoStore`. Its field `nextId` is the
  counter and its field `todos` is the set, kept as a sequence in insertion
  order, which is the order a JavaScript `Set` iterates in. The object
  invariant `Valid()` says ids are unique and below the counter. The
  constructor does the seeding. `Add`, `Destroy` and `ClearCompleted` change
  the fields in place. `ClearCompleted` is a loop that deletes each completed
  record as the walk reaches it, as the source's `for…of` does; its contract
  proves that the walk leaves exactly what removing every completed record at
  once would leave. Lemmas beside the class say what each mutation does to the
  views.

Record identity: the source deletes a record by object reference. Ids come
from a counter that only grows, so as long as fewer than 2^53 records have
been created no two records share an id, and the model uses the id as the
identity. `Todo.text` is the source's `label`,
because `label` is a reserved word in Dafny.

## Model

| member | source | states |
|---|---|---|
| `Decimal.ParseDecimal` | src/App.tsx:43 | `Number(s)` on a numeral: a numeral without a leading zero reads as a positive number; `ParseNatToString` and `NatToStringParse` pin its value against `String` |
| `Decimal.NatToString` | src/App.tsx:26 | `String(n)` gives a canonical numeral: non-empty, digits only, no leading zero, and it starts with '0' exactly when n is 0 |
| `Decimal.ParseNatToString` | src/App.tsx:43 | `Number(String(n)) == n`: the sort key recovers the counter value the id was made from |
| `Decimal.NatToStringParse` | src/App.tsx:43 | `String(Number(s)) == s` for every canonical numeral, so ids and naturals correspond one to one |
| `Decimal.NatToStringInjective` | src/App.tsx:54 | two counter values give the same id string exactly when they are equal |
| `Todos.Passes` | src/App.tsx:42 | the route predicates: `all` admits every record, `active` exactly the records not completed, `completed` exactly the completed ones |
| `Todos.Select` | src/App.tsx:42 | the route filter keeps at most as many records as it gets, and a record is in the result exactly when it is in the snapshot and passes the filter |
| `Todos.SelectMultiset` | src/App.tsx:42 | every record that passes is kept as many times as it occurs, and no other record is kept |
| `Todos.SelectDistinct` | src/App.tsx:42 | filtering a snapshot with unique ids gives unique ids |
| `Todos.SelectAllPass` | src/App.tsx:42 | when every record passes the filter, the result is the snapshot itself, in the same order |
| `Todos.SelectDropsOne` | src/App.tsx:69 | a record that fails the filter makes the result shorter than the snapshot |
| `Todos.SelectKeepsAll` | src/App.tsx:69-71 | filtering loses nothing exactly when every record passes, and then the result is the snapshot itself |
| `Todos.ActiveCompletedPartition` | src/App.tsx:42 | the active and completed filters split the snapshot with no overlap, and the all filter returns it unchanged |
| `Todos.ActiveCount` | src/App.tsx:68-69 | the active count is at most the total, and equals it exactly when no record is completed |
| `Todos.ActiveCountAppend` | src/App.tsx:69 | appending a record adds one to the active count when the record is not completed, and nothing otherwise |
| `Todos.Summary` | src/App.tsx:67-76 | `ParseSummary`, which accepts only numerals `String` prints, reads `count()` back into exactly (active count, total); by `ParseSummaryExact` the line is then either `"<total> active"` or exactly `"<active> active / <total> total"` |
| `Todos.ParseSummaryExact` | src/App.tsx:72-74 | a line that parses to (a, n) is exactly `String(a) + " active"` (and then a == n) or exactly `String(a) + " active / " + String(n) + " total"`: no other spelling of the counts parses |
| `Todos.SummaryShortForm` | src/App.tsx:71-75 | the summary is `"<total> active"` exactly when every record is active |
| `Todos.SummaryDetermined` | src/App.tsx:67-76 | any line that parses back into (active count, total) and takes the short form exactly when every record is active is the summary itself, so the long form appears, exactly, otherwise |
| `Todos.Insert` | src/App.tsx:43 | inserting adds exactly that record to the list's elements |
| `Todos.SortByIdDesc` | src/App.tsx:43 | the sort returns a permutation of its input |
| `Todos.InsertDescending` | src/App.tsx:43 | inserting a record whose id is new into a list with strictly falling ids keeps the ids strictly falling |
| `Todos.SortDescending` | src/App.tsx:43 | with unique ids, the sort gives strictly falling ids (newest first) |
| `Todos.DescendingUnique` | src/App.tsx:43 | two lists with strictly falling ids and the same elements are equal, so every sort with this comparator gives the same list |
| `Todos.Display` | src/App.tsx:40-44 | `todos()` holds exactly the records of the filtered snapshot, as often as they occur there, and a record is shown exactly when it is in the store and passes the filter |
| `Todos.DisplaySpec` | src/App.tsx:40-44 | `todos()` shows exactly the records that pass the filter, each once, with strictly falling ids, and it is the only list that does so |
| `Todos.DisplayPartition` | src/App.tsx:40-44 | the active and completed screens together show every record exactly once, and the all screen shows every record |
| `Store.InitialTodos` | src/App.tsx:24-38 | the two seeded records have unique ids, both below the counter's value 2 after seeding |
| `Store.Delete` | src/App.tsx:46-48 | after a delete, a record is present exactly when it was present before and has another id; deleting an absent id changes nothing |
| `Store.DeleteDistinct` | src/App.tsx:46-48 | deleting keeps ids unique |
| `Store.DeleteCount` | src/App.tsx:46-48 | with unique ids, deleting a present id removes exactly one record and deleting an absent one removes none |
| `Store.DeleteIdempotent` | src/App.tsx:46-48 | deleting the same record twice leaves the same store as deleting it once |
| `Store.TodoStore.constructor` | src/App.tsx:20-38 | the store starts with id 0 "Buy a unicorn" (active) and id 1 "Taste JavaScript" (completed), with the counter at 2, and satisfies the invariant |
| `Store.InitialSummary` | src/App.tsx:67-76 | the seeded store's summary is "1 active / 2 total" |
| `Store.SeededSummary` | src/App.tsx:67-76 | any active record followed by a completed one gives the summary "1 active / 2 total" |
| `Store.InitialDisplay` | src/App.tsx:40-44 | the seeded store lists id 1 above id 0; the active screen shows only id 0 and the completed screen only id 1 |
| `Store.SeededDisplay` | src/App.tsx:40-44 | any id-0 active record and id-1 completed record are shown in that order and split between those screens |
| `Store.TodoStore.AddRecord` | src/App.tsx:24-30 | a seeded or submitted record is appended with the counter's old value as id, the counter grows by one, and ids stay unique and below the counter |
| `Store.TodoStore.Add` | src/App.tsx:50-57 | `addTodo` appends one record that is not completed, has the submitted label and the old counter value as id; the counter grows by one |
| `Store.AddViews` | src/App.tsx:50-57 | after `addTodo` the total and the active count each grow by one, and the new record heads both the all and the active screens |
| `Store.NewestFirst` | src/App.tsx:40-44 | a record that passes the filter and has the largest id heads the displayed list |
| `Store.TodoStore.Destroy` | src/App.tsx:46-48 | `destroyTodo` replaces the set by its delete, keeps the counter, and keeps the invariant |
| `Store.DestroyViews` | src/App.tsx:46-48 | after `destroyTodo` no screen shows the deleted record, and every other record is shown wherever its filter allows |
| `Store.TodoStore.ClearCompleted` | src/App.tsx:59-65 | the delete-while-iterating loop leaves exactly the active records, in their order, keeps the counter, and keeps the invariant |
| `Store.ClearCompletedKeepsIds` | src/App.tsx:59-65 | removing the completed records keeps ids unique and below the counter |
| `Store.ClearCompletedViews` | src/App.tsx:59-65 | after `clearCompleted` no completed record is left, every active record is still there, the active count is unchanged, and the summary takes its short form |
| `Store.ThreeListedNewestFirst` | src/App.tsx:40-44 | records with ids 0, 1 and 2 are listed 2, 1, 0 |
| `Store.AddThenList` | src/App.tsx:50-57 | after seeding and one submitted label, the all screen lists ids 2, 1, 0 and the summary is "2 active / 3 total" |

## Left out

- The JSX markup, CSS and `classNames`: these are presentation only and have no state.
- The `reactive.Set`, `reactive.object`, `useStarbeam` and cleanup machinery. Its job is to propagate changes to the renderer. The model keeps plain state and recomputes the views on demand from a snapshot.
- The router and the `all`, `active` and `completed` predicates come from a module that is not part of this model. The filter is modelled as the three-way predicate those names describe. Nothing is claimed about reading the URL fragment.
- `formData`, `preventDefault` and `reset` in `addTodo`. These are form plumbing. `TodoStore.Add` takes the submitted label as its argument.
- Toggling and editing a record. They are done by the `Todo` component, which is not part of this model.
- `Number` on text that is not decimal digits (`NaN`). Ids are always made by `String` of a counter value, so that case cannot arise.
- Record identity: the store deletes by id, not by object reference. The two agree because ids are not reused while the counter stays below 2^53 (next line).
- `Decimal.NatToString` and `Decimal.ParseDecimal` are exact for every natural and every numeral. JavaScript's `String(n)` switches to exponent notation from 1e21, and `Number` rounds a numeral above 2^53 to the nearest double; the two agree with the model only below 2^53, which is the range the counter stays in (next line).
- `TodoStore.nextId` is an unbounded nat. The source's `ID` is a JavaScript number, and `ID++` stops growing at 2^53 (2^53 + 1 rounds back to 2^53), so the source keeps ids unique only for fewer than 2^53 created records; `TodoStore.Valid()` and the lemmas that rely on unique ids hold only while that bound is not reached.
- Sorting: the sort is modelled as one stable algorithm, insertion sort. `Todos.DescendingUnique` shows that with unique ids any algorithm gives the same list.

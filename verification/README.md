# Todo store and todo router, modelled in Dafny

This project models the two halves of the todo feature: the mobile app's
optimistic todo store (`useTodoStore`) and the API's `todoRouter`, which the
store's injected `mutateAsync` callbacks reach.

- `todos.dfy` (module `Todos`): the `Todo` record and the list transforms both
  sides use. `FindFirst` is `Array.prototype.find` by id and `RemoveById` is
  `filter` by id. `ReplaceById`, `FlipCompleted` and `SetCompleted` are the
  three `map` callbacks.
- `newest_first.dfy` (module `NewestFirst`): newest-first order on `createdAt`.
  `Sort` is a stable insertion sort that matches `Array.prototype.sort` with
  the comparator `timeB - timeA`.
- `todo_store.dfy` (module `TodoStore`): the store's state and its six
  actions. Each of `create`, `toggle` and `delete` is split into two steps:
  - the optimistic `set` it makes before awaiting the remote call (`…Begin`);
  - the `set` it makes once that call settles (`…Settle`).

  `Create`, `Toggle` and `Delete` join the two steps into one uninterrupted
  call. The remote call is a parameter: `outcome` is what `mutateAsync`
  would settle with.
- `todo_router.dfy` (module `TodoRouter`): the `list`, `create`, `toggle` and
  `delete` procedures. The `todos` table is modelled as its rows plus the
  next id an insert receives.
- `mirror.dfy` (module `StoreMirrorsServer`): the store wired to the router.
  A user intent runs the store's action, and when the store calls
  `mutateAsync` the matching procedure runs against the table, and the
  procedure's own answer is what `mutateAsync` settles with. Loading
  `list()` into the store makes the store mirror the table. After that, the
  store's list keeps holding exactly the table's rows. The only failure such
  a run meets is a create the validator rejects, because toggle and delete
  of an id the list holds never fail at the server. With strictly increasing
  server clocks, the list is exactly what `list` returns. Two lemmas show
  that a response lost after the server has committed breaks the mirror.

Timestamps are integers (milliseconds). The source carries them as ISO-8601
strings and only ever compares the parsed times.

## Model

| member | source | states |
|---|---|---|
| Todos.FindFirst | apps/mobile/stores/todo.ts:75-76 | `find` by id: no result exactly when no record carries the id; otherwise the index of the first record that does |
| Todos.IdsIndex | apps/mobile/stores/todo.ts:75-76 | an id is among the list's ids iff some index holds a record with that id |
| Todos.RemoveById | apps/mobile/stores/todo.ts:67 | `filter(t => t.id !== id)`: a record survives iff it was there and carries another id; the id set loses exactly that id; an absent id changes nothing |
| Todos.RemoveByIdConcat | apps/mobile/stores/todo.ts:67 | filtering a concatenation filters each part and keeps them in order, so the survivors keep their relative order even with duplicate ids |
| Todos.RemoveByIdSingle | apps/mobile/stores/todo.ts:67 | a single record survives the filter exactly when it carries another id; with `RemoveByIdConcat` this fixes the result of `filter` on every list |
| Todos.RemoveByIdMultiset | apps/mobile/stores/todo.ts:67 | every record with another id keeps its multiplicity; records with the id occur zero times |
| Todos.ReplaceById | apps/mobile/stores/todo.ts:63 | `map(t => t.id === id ? u : t)`: each position holds `u` where the id matched and the old record elsewhere; the length is unchanged |
| Todos.FlipCompleted | apps/mobile/stores/todo.ts:79-81 | the optimistic toggle map: only `completed` changes, and only on records carrying the id; id, text and timestamp are kept everywhere |
| Todos.SetCompleted | apps/mobile/stores/todo.ts:91-93 | the rollback map: `completed` becomes the captured value on records carrying the id; everything else is kept |
| Todos.FlipCompletedTwice | apps/mobile/stores/todo.ts:79-81 | two optimistic flips of the same id cancel out |
| Todos.RemoveUnique | apps/mobile/stores/todo.ts:105 | with unique ids, filtering by the id at position k removes exactly position k and keeps the order of the rest |
| Todos.RemoveKeepsUnique | apps/mobile/stores/todo.ts:105 | filtering keeps ids unique |
| Todos.RemoveUniqueMultiset | apps/mobile/stores/todo.ts:105 | with unique ids, filtering by one record's id removes exactly that record from the multiset |
| Todos.UniqueCons | apps/mobile/stores/todo.ts:57 | prepending a record whose id is fresh keeps ids unique |
| Todos.UniqueIdsPermutation | apps/api/src/trpc/routers/todo.ts:7 | reordering a list with unique ids, as `orderBy` does, keeps them unique |
| Todos.UpdateMultiset | apps/mobile/stores/todo.ts:87 | overwriting one position swaps exactly one record in the multiset |
| Todos.SetCompletedTwice | apps/mobile/stores/todo.ts:91-93 | of two rollbacks of one id, the later one wins |
| Todos.SetCompletedUnique | apps/mobile/stores/todo.ts:91-93 | with unique ids, the rollback changes only the record at the captured position |
| Todos.ReplaceAfterFlip | apps/mobile/stores/todo.ts:78-88 | with unique ids, flipping then replacing by id leaves the server record at that position and nothing else changed |
| NewestFirst.Insert | apps/mobile/stores/todo.ts:113-117 | one stable-insertion step: the length grows by one, the multiset gains exactly `x`, and newest-first order is kept |
| NewestFirst.Sort | apps/mobile/stores/todo.ts:113-117 | the comparator `timeB - timeA` sort: a permutation of its input (same multiset and length) ordered newest first |
| NewestFirst.InsertBetween | apps/mobile/stores/todo.ts:113-117 | stability: the new record goes after every record at least as new as it and before the first strictly older one |
| NewestFirst.InsertStable | apps/mobile/stores/todo.ts:113-117 | one insertion into a newest-first list puts the new record after every record with its timestamp and keeps their order |
| NewestFirst.SortStable | apps/mobile/stores/todo.ts:113-117 | stability of `Array.prototype.sort`: for every timestamp, the records carrying it keep their input order in the result |
| NewestFirst.SortSorted | apps/mobile/stores/todo.ts:113-117 | sorting a list that is already newest first leaves it unchanged |
| NewestFirst.InsertLast | apps/mobile/stores/todo.ts:113-117 | a record no newer than any other goes at the end |
| NewestFirst.SortAppend | apps/mobile/stores/todo.ts:113 | sorting a sorted list with one record appended, as `[...state.todos, todo].sort(…)` does, inserts the record in place |
| NewestFirst.RemoveKeepsSorted | apps/mobile/stores/todo.ts:105 | filtering keeps newest-first order |
| NewestFirst.SortedSameRecords | apps/api/src/trpc/routers/todo.ts:7 | two newest-first lists with the same records are equal when timestamps are distinct, so `orderBy(desc(createdAt))` has one answer |
| TodoStore.SetTodos | apps/mobile/stores/todo.ts:42 | replaces the list and leaves `isLoading` and `error` alone |
| TodoStore.SetLoading | apps/mobile/stores/todo.ts:43 | sets `isLoading` and leaves the list and `error` alone |
| TodoStore.SetError | apps/mobile/stores/todo.ts:44 | sets `error` and leaves the list and `isLoading` alone |
| TodoStore.CreateBegin | apps/mobile/stores/todo.ts:47-58 | the provisional record (temporary id, text, not completed, client time) goes in front of the unchanged list |
| TodoStore.CreateSettle | apps/mobile/stores/todo.ts:60-71 | on success, records with the temporary id become the server's record in place; on failure they are removed (ids lose the temporary id), the error is stored and rethrown |
| TodoStore.Create | apps/mobile/stores/todo.ts:46-72 | always calls the server; on success the server's record is first and the list is one longer; on failure the error is stored and rethrown and the temporary id is gone |
| TodoStore.CreateResolvedPrepends | apps/mobile/stores/todo.ts:56-64 | with a fresh temporary id, success leaves exactly the server's record followed by the old list |
| TodoStore.CreateRejectedRestores | apps/mobile/stores/todo.ts:56-71 | with a fresh temporary id, failure restores the list exactly, stores the error and rethrows it |
| TodoStore.CreateRejectedKeepsIds | apps/mobile/stores/todo.ts:65-71 | failure leaves the id set as it was iff the temporary id was not already in use |
| TodoStore.ToggleBegin | apps/mobile/stores/todo.ts:78-82 | flips `completed` on records with the id and changes nothing else |
| TodoStore.ToggleSettle | apps/mobile/stores/todo.ts:84-97 | on success, records with the id become the server's record; on failure they get the captured `completed` back and the error is stored and rethrown; other records are untouched |
| TodoStore.Toggle | apps/mobile/stores/todo.ts:74-98 | an absent id is a no-op with no remote call; otherwise the server is called, records with other ids are kept, and success or failure decide the error and completion |
| TodoStore.RestoreAfterFlipIff | apps/mobile/stores/todo.ts:78-97 | rollback after the flip gives the list back iff all records with the id agreed on `completed` |
| TodoStore.ToggleRejectedRestoresIff | apps/mobile/stores/todo.ts:74-97 | a failed toggle leaves the list as it was iff all records with the id agree with the captured value |
| TodoStore.ToggleRejectedRestores | apps/mobile/stores/todo.ts:74-97 | with unique ids, a failed toggle restores the list exactly, stores the error and rethrows it |
| TodoStore.ToggleResolvedReplaces | apps/mobile/stores/todo.ts:74-88 | with unique ids, a successful toggle swaps the one matching record for the server's record |
| TodoStore.DeleteBegin | apps/mobile/stores/todo.ts:104-106 | removes exactly the records with the id |
| TodoStore.DeleteSettle | apps/mobile/stores/todo.ts:108-122 | success keeps the removal whatever the `success` flag; failure re-adds the captured record, re-sorts newest first, and stores and rethrows the error |
| TodoStore.Delete | apps/mobile/stores/todo.ts:100-123 | an absent id is a no-op with no remote call; on success the id's records are gone; on failure the list is newest first with the original id set |
| TodoStore.DeleteRejectedPermutes | apps/mobile/stores/todo.ts:100-123 | with unique ids, a failed delete gives back a newest-first permutation of the original list |
| TodoStore.ReinsertAt | apps/mobile/stores/todo.ts:105-117 | filtering out position k of a sorted unique list and re-sorting with the record appended restores the list, when the next record is strictly older |
| TodoStore.InsertAtOwnPlace | apps/mobile/stores/todo.ts:113-117 | re-inserting the record taken from position k puts it back at k, when the next record is strictly older |
| TodoStore.DeleteRejectedRestoresPosition | apps/mobile/stores/todo.ts:100-123 | on a sorted list with unique ids, a failed delete restores the list exactly when the next record is strictly older |
| TodoStore.CreateKeepsNewestFirst | apps/mobile/stores/todo.ts:46-72 | a create keeps newest-first order when the server's record is at least as new as everything held |
| TodoStore.ToggleKeepsNewestFirst | apps/mobile/stores/todo.ts:74-98 | a toggle keeps newest-first order when the server's record keeps its timestamp |
| TodoStore.DeleteKeepsNewestFirst | apps/mobile/stores/todo.ts:100-123 | a delete keeps newest-first order, whether it succeeds or fails |
| TodoStore.OverlappingTogglesBothRejected | apps/mobile/stores/todo.ts:74-97 | two overlapping toggles of one record that both fail: failures in issue order leave the record flipped; in reverse order they restore it |
| TodoRouter.List | apps/api/src/trpc/routers/todo.ts:6-8 | every row, ordered by `createdAt` descending |
| TodoRouter.Create | apps/api/src/trpc/routers/todo.ts:10-22 | empty text is rejected with the table unchanged; otherwise one row is appended whose id is the table's next id, with the text, `completed` false and the server clock, and that row is returned; the id is fresh and validity is kept |
| TodoRouter.Toggle | apps/api/src/trpc/routers/todo.ts:24-47 | an absent id fails with "Todo not found" and the table unchanged; otherwise rows with other ids are kept, the returned row carries the id and is in the table, and validity is kept |
| TodoRouter.ToggleFlipsRow | apps/api/src/trpc/routers/todo.ts:40-46 | with unique ids, toggling flips exactly the matching row's `completed` and returns that row |
| TodoRouter.Delete | apps/api/src/trpc/routers/todo.ts:49-58 | always answers success; a row survives iff it carries another id; an absent id changes nothing; validity is kept |
| StoreMirrorsServer.MirroredIdsBelow | apps/api/src/trpc/routers/todo.ts:17-20 | a list mirroring the table holds no id the table has not handed out |
| StoreMirrorsServer.AddKeepsMirror | apps/mobile/stores/todo.ts:46-72 | adding through the server, accepted or rejected, keeps the list holding exactly the table's rows |
| StoreMirrorsServer.ToggleApplied | apps/api/src/trpc/routers/todo.ts:24-47 | toggling a held id flips the same record in the list and the table |
| StoreMirrorsServer.ToggleKeepsMirror | apps/mobile/stores/todo.ts:74-98 | toggling through the server keeps the mirror |
| StoreMirrorsServer.DeleteApplied | apps/api/src/trpc/routers/todo.ts:49-58 | deleting a held id filters the same id out of the list and the table |
| StoreMirrorsServer.RemoveKeepsMirror | apps/mobile/stores/todo.ts:104-109 | dropping a mirrored record and its row keeps the mirror |
| StoreMirrorsServer.DeleteKeepsMirror | apps/mobile/stores/todo.ts:100-123 | deleting through the server keeps the mirror |
| StoreMirrorsServer.ApplyKeepsMirror | apps/mobile/stores/todo.ts:46-123 | any one intent keeps the mirror |
| StoreMirrorsServer.RunKeepsMirror | apps/mobile/stores/todo.ts:46-123 | any sequence of intents, each settled with the procedure's answer, keeps the mirror, provided temporary ids stay clear of server ids |
| StoreMirrorsServer.SetTodosFromList | apps/mobile/stores/todo.ts:42 | loading `list()` with `setTodos`, as the todo screen does on its first fetch, makes the store mirror any valid table |
| StoreMirrorsServer.LostDeleteResponseBreaksMirror | apps/mobile/stores/todo.ts:108-122 | a delete the server commits but the store sees rejected leaves the record in the list and not in the table |
| StoreMirrorsServer.LostCreateResponseBreaksMirror | apps/mobile/stores/todo.ts:60-71 | a create the server commits but the store sees rejected leaves the table one row longer than the list |
| StoreMirrorsServer.MirrorIsList | apps/api/src/trpc/routers/todo.ts:6-8 | a mirrored newest-first list with distinct timestamps is exactly what `list` returns |
| StoreMirrorsServer.RemoveKeepsStrict | apps/mobile/stores/todo.ts:105 | filtering one record out keeps a strictly newest-first list strictly newest first |
| StoreMirrorsServer.AddKeepsStrict | apps/mobile/stores/todo.ts:56-64 | with a later server clock, a create keeps the list strictly newest first and no newer than that clock |
| StoreMirrorsServer.ToggleKeepsStrict | apps/mobile/stores/todo.ts:74-98 | a toggle keeps the list strictly newest first |
| StoreMirrorsServer.DeleteKeepsStrict | apps/mobile/stores/todo.ts:100-109 | a delete keeps the list strictly newest first |
| StoreMirrorsServer.ApplyKeepsStrict | apps/mobile/stores/todo.ts:46-123 | one intent keeps the list strictly newest first |
| StoreMirrorsServer.RunMatchesList | apps/api/src/trpc/routers/todo.ts:6-8 | after any sequence of intents with increasing server clocks, the store's list equals what `list` returns |
| StoreMirrorsServer.InitialMatchesList | apps/mobile/stores/todo.ts:37-40 | from the store's initial state and an empty table, every such run ends with the store holding what `list` returns |
| StoreMirrorsServer.LoadedRunMatchesList | apps/api/src/trpc/routers/todo.ts:6-8 | after the screen loads `list()` from a valid table with distinct timestamps, every such run ends with the store holding what `list` returns |

## Left out

- Zustand, Promises and `await`: each action is a pure function of the state
  and of what `mutateAsync` settles with. Interleavings are written as
  compositions of the `…Begin` and `…Settle` steps, as in
  `TodoStore.OverlappingTogglesBothRejected`. No scheduler is modelled.
- `Date.now()` and `new Date().toISOString()`: the temporary id and the
  client clock are parameters of `TodoStore.Create`. Timestamps are integers,
  not ISO strings, so string formatting and parsing are not modelled.
- The database and tRPC transport: the table is a sequence of rows in
  insertion order plus a counter for the next serial id.
- packages/database/src/schema.ts is not part of this model. `TodoRouter.Create`
  therefore assumes the column defaults: the id is the next serial value,
  `completed` is false, and `createdAt` is the server's clock (a parameter).
- TodoRouter.List: the contract says only "newest first, same rows". SQL does
  not fix the order of rows with equal `createdAt`, and the body's stable
  sort is just one admissible order.
- zod validation: only the `min(1)` check on `text` is modelled. Ids are
  `int`, so non-integer numbers allowed by `z.number()` are out of scope. The
  validator's own error message is replaced by "invalid input".
- TodoStore.DeleteSettle: the `success` flag that `delete` answers is ignored,
  exactly as the store ignores it. The `if (todo)` guard in the failure
  branch (apps/mobile/stores/todo.ts:111) is always true there, so it has no
  branch of its own.
- `isLoading` and the UI that sets it, and the screens that call the store
  (trimming input, showing errors), are not modelled. They are callers of
  `setLoading` / `setError` and of the actions.
- StoreMirrorsServer.Apply: `mutateAsync` settles only with the router's own
  answer. Transport failures and timeouts are not among the outcomes. A
  response lost after the server has committed breaks the mirror, which
  `LostDeleteResponseBreaksMirror` and `LostCreateResponseBreaksMirror` show.
  So `RunKeepsMirror` and `RunMatchesList` promise nothing for such runs.
- StoreMirrorsServer.RunKeepsMirror: it requires every temporary id to lie
  above every id the server hands out during the run. The source relies on
  `Date.now()` dwarfing a serial id and never checks this.

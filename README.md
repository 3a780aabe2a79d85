# Website crawler: table view state, record list and crawl job state machine

This project models the core of a small website crawler in Dafny. A browser client
submits URLs and shows the crawl results in a paginated table. A Go backend stores
one record per URL and analyses each page in a background job.

The model covers three layers:

- **The client table** (`PaginatedTableWrapper.tsx`, `ResultsTable.tsx`).
  - The view is derived in three steps: a search filter, an optional column sort,
    and a page slice.
  - Handlers update the view state: sort key and direction, current page, rows per
    page, search term, and a selection of ids that spans pages.
  - Bulk delete and bulk reanalyze act on a snapshot of the selection.
  - The results table decides which action buttons a row shows, the sort arrows,
    the checkboxes and the status colour.
- **The client record list** (`Home.tsx`).
  - The list is loaded once and replaced wholesale.
  - A successful create appends its record.
  - A per-record poller replaces the record by id and stops once the record reaches
    `done` or `error`.
- **The backend** (`url_handler.go`, `memory.go`, `crawler.go`).
  - The SQLite table is a map from id to record.
  - The handlers move records through `queued → running → done | error | stopped`.
  - A `jobs` registry maps each record id to the cancel function of its job.
  - Each background goroutine runs in two explicit steps: mark the record running,
    then record the crawl's outcome.
  - The crawler's link loop keeps its counters consistent.

Modules, one per source file plus shared helpers:

- `Wrappers` (wrappers.dfy): `Option`.
- `Text` (text.dfy): lower/upper case, `includes`, string order, `String(n)`, `parseInt`.
- `Types` (types.dfy): the client's record type.
- `Models` (models.dfy): the backend's record type and status names.
- `ViewPipeline` (view_pipeline.dfy): pure filter, sort and pagination.
- `Selection` (selection.dfy): the selection `Set` as a duplicate-free sequence in insertion order.
- `PaginatedTable` (paginated_table.dfy): class `TableView` holding the component state, and the bulk-action traces.
- `ResultsTable` (results_table.dfy): pure rendering rules.
- `Home` (home.dfy): class `HomePage` holding the list and the running pollers.
- `Storage` (storage.dfy): map updates, and class `Store` over them.
- `Handlers` (handlers.dfy): specification functions on `State`, and class `Server` performing them.
- `Crawler` (crawler.dfy): link classification, the link loop and the headings loop as methods, and `Analyze`.

How the source's behaviour is represented:

- **Sorting.** `Array.prototype.sort` is a stable sort. It is modelled as a stable
  insertion sort.
  - The sort is proved for any antisymmetric, transitive comparator. The
    comparator the table builds is proved to be one, for every column the table
    can sort by and in both directions.
  - A missing `accessible_links` compares as the text `"undefined"`. Every number's
    text sorts before that word, so mixed values still sort consistently.
- **Effects of the bulk actions.** These are the alert, the confirm dialog, the
  `onDelete`/`onStart` calls, the 50 ms pauses and the logged errors. Each bulk
  action returns them as a trace of `Effect` values.
  - The user's answer to the confirm dialog is an input.
  - So is the set of ids whose `onDelete` call throws, and the set of ids whose
    `onStart` call throws. Bulk delete catches such a throw; bulk reanalyze does
    not, so its loop ends at the first throwing id and the selection is kept.
- **Crawler I/O.** What the GET request yields is an input. URL parsing, reference
  resolution and the HEAD status are oracles.
  - A cancellation is the index of the first anchor whose callback sees the context
    as done.
- **A stop during link checking.** It makes `Analyze` return without an error: the
  link loop breaks, and `Analyze` still returns `nil`. The job then records `done`,
  with the counts of the links checked so far.
  - So a record stopped while its links are being checked ends up `done`, not
    `stopped` (`Handlers.FinishAfterStop`).
  - `stopped` is recorded only when the GET or the body parse fails after the
    cancellation.

Where the design description and the code differ, the model follows the code:

- The list is fetched once at mount and never sorted by id (`Home.tsx:17-19`). The
  only periodic fetch is the per-record poller, whose tick replaces one record and
  never removes or inserts any.
- Bulk delete does not await `onDelete`, which returns `void`. The 50 ms pause
  therefore separates the dispatches, and only a synchronous throw is caught.
- The table lives in the database file and survives a restart; the job registry
  does not. A row left `queued` or `running` by a previous run therefore has no
  job, and Stop answers "not running" for it (`Handlers.OrphanRowAfterRestart`).
- Bulk reanalyze shows no confirmation. Like the delete loop, it calls `onStart` in
  the selection's insertion order.

## Model

| member | source | states |
|---|---|---|
| `ViewPipeline.Filter` | frontend/src/components/PaginatedTableWrapper.tsx:49-56 | keeps exactly the rows whose lower-cased url or title contains the lower-cased term; output never longer than input |
| `ViewPipeline.Matches` | frontend/src/components/PaginatedTableWrapper.tsx:52-54 | the search test itself; its meaning is stated through `Filter` and `FilterIgnoresTermCase` (definition only) |
| `ViewPipeline.FilterConcat` | frontend/src/components/PaginatedTableWrapper.tsx:51-55 | filtering distributes over concatenation, so kept rows stay in input order |
| `ViewPipeline.FilterIgnoresTermCase` | frontend/src/components/PaginatedTableWrapper.tsx:50 | the search term's case does not matter |
| `ViewPipeline.EmptyTermMatches` | frontend/src/components/PaginatedTableWrapper.tsx:52-54 | the empty term matches a row iff it has a url or a title |
| `ViewPipeline.EmptyTermKeepsAll` | frontend/src/components/PaginatedTableWrapper.tsx:49-56 | with the empty term, a list whose rows all have a url passes unchanged |
| `ViewPipeline.CompareAntisymmetric` | frontend/src/components/PaginatedTableWrapper.tsx:60-69 | the comparator changes sign when its arguments are swapped, for every column and direction |
| `ViewPipeline.FieldValue` | frontend/src/components/PaginatedTableWrapper.tsx:61-62 | `a[sortKey]` per column, with a missing field as the text "undefined"; pinned by `CompareTransitive` and `NumberTextBeforeUndefined` (definition only) |
| `ViewPipeline.Compare` | frontend/src/components/PaginatedTableWrapper.tsx:60-69 | the sort callback; pinned by `CompareAntisymmetric`, `CompareTransitive`, `DescReversesAsc` and `OrderConsistent` (definition only) |
| `ViewPipeline.CompareTransitive` | frontend/src/components/PaginatedTableWrapper.tsx:60-69 | the comparator is transitive for every sortable column, including mixed number/undefined values |
| `ViewPipeline.DescReversesAsc` | frontend/src/components/PaginatedTableWrapper.tsx:64-68 | `desc` is exactly the negated `asc` comparator |
| `ViewPipeline.OrderConsistent` | frontend/src/components/PaginatedTableWrapper.tsx:60-69 | the comparator handed to `sort`, for every column and direction, is antisymmetric and transitive |
| `ViewPipeline.Sort` | frontend/src/components/PaginatedTableWrapper.tsx:60 | the sort is a permutation of its input (same length, same multiset) |
| `ViewPipeline.SortSorted` | frontend/src/components/PaginatedTableWrapper.tsx:60-69 | under an antisymmetric, transitive comparator the sorted list is ordered by it |
| `ViewPipeline.SortStable` | frontend/src/components/PaginatedTableWrapper.tsx:60 | under an antisymmetric, transitive comparator, the rows tied with any given row keep their input order |
| `ViewPipeline.SortedRows` | frontend/src/components/PaginatedTableWrapper.tsx:58-70 | no sort key: the filtered list itself; otherwise a permutation of it, ordered by the column's comparator, in which rows with equal keys keep their filtered order |
| `ViewPipeline.JsSlice` | frontend/src/components/PaginatedTableWrapper.tsx:76 | `slice` with in-range bounds is the subsequence; an end at or before the start gives the empty list |
| `ViewPipeline.TotalPages` | frontend/src/components/PaginatedTableWrapper.tsx:72 | `ceil(n / rows)`: the pages hold all n rows, the last page is non-empty, and there are 0 pages iff n = 0 |
| `ViewPipeline.PageSlice` | frontend/src/components/PaginatedTableWrapper.tsx:74-77 | page p ≥ 1 is `sorted[(p-1)*r .. min(p*r, n)]` and holds at most r rows |
| `ViewPipeline.View` | frontend/src/components/PaginatedTableWrapper.tsx:49-77 | filter, then sort, then the page slice: at most `rowsPerPage` rows, each of them a record of the list that matches the search term |
| `ViewPipeline.PageZeroIsEmpty` | frontend/src/components/PaginatedTableWrapper.tsx:74-77 | page 0 (a negative slice start) is empty |
| `ViewPipeline.PagesArePrefix` | frontend/src/components/PaginatedTableWrapper.tsx:74-77 | pages 1..k laid end to end are the first min(k*r, n) sorted rows |
| `ViewPipeline.PagesCoverSorted` | frontend/src/components/PaginatedTableWrapper.tsx:72-77 | pages 1..totalPages laid end to end are exactly the sorted list |
| `ViewPipeline.PageLength` | frontend/src/components/PaginatedTableWrapper.tsx:72-77 | every page in range is non-empty and holds min(r, remaining) rows |
| `Selection.Add` | frontend/src/components/PaginatedTableWrapper.tsx:84 | `Set.add`: membership gains the id only, order and distinctness kept |
| `Selection.Remove` | frontend/src/components/PaginatedTableWrapper.tsx:83 | `Set.delete`: membership loses the id only, distinctness kept, and an absent id leaves the set unchanged |
| `Selection.RemoveAt` | frontend/src/components/PaginatedTableWrapper.tsx:83 | deleting the id at position `k` of a set closes the gap and keeps the others' insertion order |
| `Selection.ToggleFlipsOnlyId` | frontend/src/components/PaginatedTableWrapper.tsx:80-87 | toggling flips the id's membership and no other id's |
| `Selection.Toggle` | frontend/src/components/PaginatedTableWrapper.tsx:80-87 | `has` then `delete` or `add`; pinned by `ToggleFlipsOnlyId` and `ToggleTwice` (definition only) |
| `Selection.ToggleTwice` | frontend/src/components/PaginatedTableWrapper.tsx:80-87 | toggling twice restores every id's membership |
| `Selection.AddAllMembers` | frontend/src/components/PaginatedTableWrapper.tsx:100 | adding a page's ids: members are the old ones plus the page's, the old selection is a prefix |
| `Selection.RemoveAllMembers` | frontend/src/components/PaginatedTableWrapper.tsx:97 | removing a page's ids: members are the old ones minus the page's |
| `Selection.ToggleAllEffect` | frontend/src/components/PaginatedTableWrapper.tsx:90-104 | select-all removes every page id when all were selected, adds every one otherwise, and leaves ids off the page untouched |
| `Selection.ToggleAll` | frontend/src/components/PaginatedTableWrapper.tsx:90-104 | the `every` test choosing between the two `forEach` loops; pinned by `ToggleAllEffect`, `ToggleAllFlipsAllSelected` and `ToggleAllOnPage` (definition only) |
| `Selection.AllSelected` | frontend/src/components/PaginatedTableWrapper.tsx:148-150 | `allSelected`: a non-empty page all of whose ids are selected; pinned by `ToggleAllFlipsAllSelected` (definition only) |
| `Selection.ToggleAllFlipsAllSelected` | frontend/src/components/PaginatedTableWrapper.tsx:90-104 | on a non-empty page, select-all flips `allSelected` (the header state computed at lines 148-150) |
| `Selection.ToggleAllOnEmptyPage` | frontend/src/components/PaginatedTableWrapper.tsx:92-97 | on an empty page `every` holds vacuously, so the selection stays the same |
| `Selection.ToggleAllOnPage` | frontend/src/components/PaginatedTableWrapper.tsx:93-103 | the `forEach` loop computes the select-all result |
| `PaginatedTable.DeleteEffectsCalls` | frontend/src/components/PaginatedTableWrapper.tsx:126-133 | the delete loop calls `onDelete` once per snapshot id, in order, and never `onStart` or `confirm` |
| `PaginatedTable.DeletePrompt` | frontend/src/components/PaginatedTableWrapper.tsx:116-121 | the confirm text with the selection size; `BulkDeleteCalls` shows it first (definition only) |
| `PaginatedTable.DeleteEffects` | frontend/src/components/PaginatedTableWrapper.tsx:126-133 | the delete loop's trace; pinned by `DeleteEffectsCalls`, `DeleteFollowedByPauseOrError` and `DispatchDeletes` (definition only) |
| `PaginatedTable.StartEffects` | frontend/src/components/PaginatedTableWrapper.tsx:143 | the start trace of a loop that does not throw; pinned by `StartEffectsCalls` (definition only) |
| `PaginatedTable.DeleteFollowedByPauseOrError` | frontend/src/components/PaginatedTableWrapper.tsx:127-132 | each `onDelete` call is followed by the 50 ms pause, or by the logged error when it threw; the loop goes on |
| `PaginatedTable.StartEffectsCalls` | frontend/src/components/PaginatedTableWrapper.tsx:143 | reanalyze calls `onStart` once per selected id, in order, and never `onDelete` |
| `PaginatedTable.BulkDeleteCalls` | frontend/src/components/PaginatedTableWrapper.tsx:107-135 | empty selection: only the alert; otherwise the confirm with the count first, and deletes of the whole selection in order iff confirmed |
| `PaginatedTable.BulkDeleteEffects` | frontend/src/components/PaginatedTableWrapper.tsx:107-135 | the whole bulk-delete trace; pinned by `BulkDeleteCalls` and `TableView.HandleBulkDelete` (definition only) |
| `PaginatedTable.BulkReanalyzeEffects` | frontend/src/components/PaginatedTableWrapper.tsx:138-145 | the whole bulk-reanalyze trace; pinned by `BulkReanalyzeCalls` and `TableView.HandleBulkReanalyze` (definition only) |
| `PaginatedTable.BulkReanalyzeCalls` | frontend/src/components/PaginatedTableWrapper.tsx:138-145 | empty selection: only the alert; otherwise the selected ids are started in order up to and including the first whose `onStart` throws (all of them when none throws), with no confirmation and no delete |
| `PaginatedTable.DispatchDeletes` | frontend/src/components/PaginatedTableWrapper.tsx:123-133 | the `for` loop over the snapshot produces the delete trace and deletes exactly the snapshot |
| `PaginatedTable.DispatchStarts` | frontend/src/components/PaginatedTableWrapper.tsx:143 | the `forEach` loop produces the start trace that ends at the first throwing id, and reports a throw iff some id throws |
| `PaginatedTable.StartsUntilThrow` | frontend/src/components/PaginatedTableWrapper.tsx:143 | the trace of a `forEach` whose `onStart` may throw; pinned by `StartsUntilThrowCalls` and `DispatchStarts` (definition only) |
| `PaginatedTable.FirstThrow` | frontend/src/components/PaginatedTableWrapper.tsx:143 | the first position whose `onStart` throws: every earlier id does not throw, and the id there does (or it is the end) |
| `PaginatedTable.StartsUntilThrowCalls` | frontend/src/components/PaginatedTableWrapper.tsx:143 | the loop starts the ids up to and including the first throwing one, then stops; it never deletes or confirms |
| `PaginatedTable.RowsFromInput` | frontend/src/components/PaginatedTableWrapper.tsx:39 | rows per page is at least 1: the parsed value when it is ≥ 1, else 1 (NaN, 0 and negatives) |
| `PaginatedTable.RowsFromNumberText` | frontend/src/components/PaginatedTableWrapper.tsx:38-40 | typing the decimal text of a positive n sets exactly n rows per page |
| `PaginatedTable.PrevPage` | frontend/src/components/PaginatedTableWrapper.tsx:211 | Prev goes back one page and never below 1 |
| `PaginatedTable.NextPageAsWritten` | frontend/src/components/PaginatedTableWrapper.tsx:221 | Next as written: at most totalPages and at most one page forward |
| `PaginatedTable.NextPageOnEmptyListAsWritten` | frontend/src/components/PaginatedTableWrapper.tsx:221-222 | with no rows, Next on page 1 moves to page 0 |
| `PaginatedTable.NextPage` | frontend/src/components/PaginatedTableWrapper.tsx:221 | clamped Next: between 1 and max(1, totalPages), one page forward while not on the last page |
| `PaginatedTable.NextPageAgreesOnNonEmptyList` | frontend/src/components/PaginatedTableWrapper.tsx:221 | on a non-empty list the clamped Next equals the written one |
| `PaginatedTable.TableView.constructor` | frontend/src/components/PaginatedTableWrapper.tsx:21-26 | initial state: no sort key, ascending, page 1, 5 rows, empty term and selection |
| `PaginatedTable.TableView.PageRows` | frontend/src/components/PaginatedTableWrapper.tsx:74-77 | `paginatedUrls`: `View` of the list with the current state (definition only; see `ViewPipeline.View`) |
| `PaginatedTable.TableView.PageCount` | frontend/src/components/PaginatedTableWrapper.tsx:72 | `totalPages`: `TotalPages` of the filtered, sorted list (definition only; see `ViewPipeline.TotalPages`) |
| `PaginatedTable.TableView.AllRowsSelected` | frontend/src/components/PaginatedTableWrapper.tsx:148-150 | the header checkbox state; `TableView.OnToggleSelectAll` proves a click on a non-empty page flips it (definition only) |
| `PaginatedTable.TableView.HandleSort` | frontend/src/components/PaginatedTableWrapper.tsx:28-36 | same key flips the direction, new key sorts ascending, page resets to 1 |
| `PaginatedTable.TableView.HandleRowsChange` | frontend/src/components/PaginatedTableWrapper.tsx:38-42 | rows per page becomes the clamped input, page resets to 1 |
| `PaginatedTable.TableView.HandleSearchChange` | frontend/src/components/PaginatedTableWrapper.tsx:44-47 | the term is stored, page resets to 1 |
| `PaginatedTable.TableView.OnToggleSelect` | frontend/src/components/PaginatedTableWrapper.tsx:80-87 | the id's membership flips, every other id's is unchanged |
| `PaginatedTable.TableView.OnToggleSelectAll` | frontend/src/components/PaginatedTableWrapper.tsx:90-104 | the selection becomes the select-all result for the ids of the current page |
| `PaginatedTable.TableView.HandleBulkDelete` | frontend/src/components/PaginatedTableWrapper.tsx:107-135 | produces the bulk-delete trace; the selection is cleared iff it was non-empty and confirmed |
| `PaginatedTable.TableView.HandleBulkReanalyze` | frontend/src/components/PaginatedTableWrapper.tsx:138-145 | produces the reanalyze trace; the selection is cleared unless some selected id's `onStart` throws, which leaves the handler before line 144 |
| `PaginatedTable.TableView.GoToPreviousPage` | frontend/src/components/PaginatedTableWrapper.tsx:211 | the page becomes the Prev page |
| `PaginatedTable.TableView.GoToNextPage` | frontend/src/components/PaginatedTableWrapper.tsx:221 | the page becomes `Math.min(totalPages, p + 1)` as written, so it stays at least 0 (page 0 when the list is empty) |
| `ResultsTable.SortIndicator` | frontend/src/components/ResultsTable.tsx:34-35 | " ▲" iff the column is the sort key and ascending, " ▼" iff it is the key and descending, "" iff it is not the key |
| `ResultsTable.OnlyActiveColumnMarked` | frontend/src/components/ResultsTable.tsx:34-35 | only the active column shows an arrow |
| `ResultsTable.IndicatorFollowsDirection` | frontend/src/components/ResultsTable.tsx:34-35 | on the active column the two directions show different arrows |
| `ResultsTable.RowActions` | frontend/src/components/ResultsTable.tsx:131-152 | Start iff `done` or `error`, Stop iff `running`, Delete always |
| `ResultsTable.StartAndStopExclusive` | frontend/src/components/ResultsTable.tsx:131-146 | Start and Stop never appear together; queued and stopped rows show neither |
| `ResultsTable.HeaderCheckedIffEveryRowChecked` | frontend/src/components/ResultsTable.tsx:44 | the header checkbox (`allSelected`) is checked iff the page is non-empty and every row checkbox (line 105) is |
| `ResultsTable.StatusColour` | frontend/src/components/ResultsTable.tsx:124-125 | red iff the status is `error` |
| `Home.FindById` | frontend/src/pages/Home.tsx:26 | `find`: none iff no record has the id; otherwise the first record with it |
| `Home.ReplaceById` | frontend/src/pages/Home.tsx:28 | same length; entries with the id become the fetched record, others unchanged |
| `Home.ReplaceByIdIdempotent` | frontend/src/pages/Home.tsx:28 | replacing the same record twice equals replacing it once |
| `Home.ReplaceByIdKeepsIds` | frontend/src/pages/Home.tsx:28 | the list's ids, and so its order, are unchanged |
| `Home.ReplaceAbsentId` | frontend/src/pages/Home.tsx:28 | a list without the id is unchanged |
| `Home.NonTerminalStatuses` | frontend/src/pages/Home.tsx:30-32 | `queued`, `running` and `stopped` keep the poller going |
| `Home.IsTerminal` | frontend/src/pages/Home.tsx:30 | the `done`/`error` test that stops a poller; pinned by `NonTerminalStatuses` and `HomePage.PollTick` (definition only) |
| `Home.HomePage.constructor` | frontend/src/pages/Home.tsx:9 | the list starts empty, and no poller is running |
| `Home.HomePage.FetchURLs` | frontend/src/pages/Home.tsx:11-15 | the list becomes the fetched array |
| `Home.HomePage.HandleAdd` | frontend/src/pages/Home.tsx:36-59 | only a created record is appended and polled; failures change nothing |
| `Home.HomePage.PollTick` | frontend/src/pages/Home.tsx:22-34 | absent id: nothing changes and polling goes on; otherwise replace by id, and stop iff the status is `done` or `error` |
| `Storage.Upsert` | backend/storage/memory.go:91-108 | the row for the record's id becomes the record, other rows unchanged |
| `Storage.UpdateWhere` | backend/storage/memory.go:120-134 | an existing row takes the new columns and keeps its key; never inserts; other rows unchanged |
| `Storage.DeleteWhere` | backend/storage/memory.go:110-111 | the row is gone and the other rows are unchanged |
| `Storage.UpdateAbsentIsNoOp` | backend/storage/memory.go:124-129 | an update of an absent id changes nothing |
| `Storage.NoResurrection` | backend/storage/memory.go:110-134 | an update after a delete leaves the row deleted |
| `Storage.SaveThenUpdate` | backend/storage/memory.go:91-134 | save then update equals saving the updated columns under the same key |
| `Storage.UpdateTwice` | backend/storage/memory.go:120-134 | of two updates of one row the second wins |
| `Storage.Store.SaveURL` | backend/storage/memory.go:91-108 | the table becomes the upsert |
| `Storage.Store.constructor` | backend/storage/memory.go:14-39 | `InitDB`: `CREATE TABLE IF NOT EXISTS` keeps the rows the database file already holds (none for a fresh file) |
| `Storage.Store.UpdateURL` | backend/storage/memory.go:120-140 | the table becomes the update-where; always reports true |
| `Storage.Store.DeleteURL` | backend/storage/memory.go:110-118 | the row is deleted; reports true iff it existed |
| `Storage.Store.GetURLByID` | backend/storage/memory.go:72-89 | found iff stored; the stored row, or the zero record |
| `Storage.Store.GetAllURLs` | backend/storage/memory.go:41-70 | every stored row exactly once, each id once, in no fixed order |
| `Handlers.Lookup` | backend/handlers/url_handler.go:25-33 | 404 iff the id is not stored, else 200 with the row |
| `Handlers.Initial` | backend/handlers/url_handler.go:15-18 | the state before any request: the persisted rows, no jobs, no workers, nothing cancelled, and the invariant holds for every well-keyed table |
| `Handlers.OrphanRowAfterRestart` | backend/handlers/url_handler.go:182-187 | after a restart a persisted row has no job, so Stop answers 400 "not running" and leaves the row, even one still `running`, unchanged |
| `Handlers.CancelJob` | backend/handlers/url_handler.go:128-131 | `cancel()` and `delete(jobs, id)`: only `id` leaves the registry, only its context is cancelled, nothing else changes, and the invariant is kept |
| `Handlers.SpawnJob` | backend/handlers/url_handler.go:134-148 | `context.WithCancel`, `jobs[id] = cancel`, `go func()`: `id` gets a fresh, uncancelled context with a new worker, other jobs are kept, and the invariant is kept |
| `Handlers.Post` | backend/handlers/url_handler.go:35-93 | missing or empty url: 400 and nothing changes; otherwise a queued row under the fresh id, a registered new job, 202 with the row |
| `Handlers.Delete` | backend/handlers/url_handler.go:95-116 | cancels and unregisters the id's job, deletes the row, 204 iff it existed else 404 |
| `Handlers.Reanalyze` | backend/handlers/url_handler.go:118-175 | unknown id: 404, nothing changes; otherwise the old job cancelled, a new job registered, the row reset to a queued placeholder, 200 with it |
| `Handlers.Stop` | backend/handlers/url_handler.go:178-203 | no job: 400 `not running`, nothing changes; otherwise the job cancelled and unregistered, the row's status `stopped` with other fields kept |
| `Handlers.MarkRunning` | backend/handlers/url_handler.go:62-66 | the job's row is updated to a running placeholder (also the first step of the reanalysis job, lines 148-151); registry unchanged |
| `Handlers.CompletionStatus` | backend/handlers/url_handler.go:69-81 | `done` iff no error; `stopped` iff error with a cancelled context; `error` iff error otherwise |
| `Handlers.Finish` | backend/handlers/url_handler.go:69-88 | the row takes the crawl result with the completion status; the id leaves the registry |
| `Handlers.PostPreservesInv` | backend/handlers/url_handler.go:44-59 | creating keeps every registered job a live, uncancelled worker for its id |
| `Handlers.DeletePreservesInv` | backend/handlers/url_handler.go:98-110 | deleting keeps the invariant |
| `Handlers.ReanalyzePreservesInv` | backend/handlers/url_handler.go:126-146 | reanalysis keeps the invariant |
| `Handlers.StopPreservesInv` | backend/handlers/url_handler.go:181-200 | stopping keeps the invariant |
| `Handlers.MarkRunningPreservesInv` | backend/handlers/url_handler.go:64-66 | the first job step keeps the invariant |
| `Handlers.FinishPreservesInv` | backend/handlers/url_handler.go:83-88 | the last job step keeps the invariant |
| `Handlers.UndisturbedJob` | backend/handlers/url_handler.go:44-89 | an uncancelled job moves its row queued → running → done or error, then leaves the registry |
| `Handlers.FinishAfterDelete` | backend/handlers/url_handler.go:95-116 | a job finishing after its record's deletion does not bring the record back |
| `Handlers.FinishAfterStop` | backend/handlers/url_handler.go:178-203 | after a stop the row is `stopped`; the job then records `stopped` if it fails and `done` if it returns without an error |
| `Handlers.OldJobAfterReanalyze` | backend/handlers/url_handler.go:118-172 | reanalysis cancels the old job, so its failure records `stopped` and removes the id's registry entry |
| `Handlers.Server.GetAllURLs` | backend/handlers/url_handler.go:20-23 | 200 with every stored record once |
| `Handlers.Server.constructor` | backend/handlers/url_handler.go:15-18 | the server state is `Initial(persisted)`: the empty `jobs` map over a store holding the database file's rows |
| `Handlers.Server.NewJob` | backend/handlers/url_handler.go:55-59 | `context.WithCancel` and `jobs[id] = cancel` (also lines 134-138): the new server state is `SpawnJob` of the old one |
| `Handlers.Server.Cancel` | backend/handlers/url_handler.go:128-131 | `cancel()` and `delete(jobs, id)` (also lines 104-107): the new server state is `CancelJob` of the old one |
| `Handlers.Server.GetURLByID` | backend/handlers/url_handler.go:25-33 | responds as `Lookup` |
| `Handlers.Server.PostURL` | backend/handlers/url_handler.go:35-93 | performs `Post` on the server state |
| `Handlers.Server.DeleteURL` | backend/handlers/url_handler.go:95-116 | performs `Delete` |
| `Handlers.Server.ReanalyzeURL` | backend/handlers/url_handler.go:118-175 | performs `Reanalyze` |
| `Handlers.Server.StopURL` | backend/handlers/url_handler.go:178-203 | performs `Stop` |
| `Handlers.Server.RunJob` | backend/handlers/url_handler.go:62-66 | performs `MarkRunning` |
| `Handlers.Server.FinishJob` | backend/handlers/url_handler.go:69-88 | performs `Finish` |
| `Crawler.DetectHTMLVersion` | backend/crawler/crawler.go:123-134 | 1.0 → "HTML 4.01", other 1.x → "XHTML or HTML 4.01", 2 → "HTML5", anything else → "Unknown" |
| `Crawler.ResolveLink` | backend/crawler/crawler.go:87-97 | the href itself when either URL fails to parse, else the resolved reference |
| `Crawler.IsInternalLink` | backend/crawler/crawler.go:99-106 | false if either URL fails to parse, else true iff the hostnames are equal |
| `Crawler.InternalLinkSymmetric` | backend/crawler/crawler.go:99-106 | being internal is symmetric; a URL is internal to itself iff it parses |
| `Crawler.CheckLink` | backend/crawler/crawler.go:109-121 | 500 when the HEAD request fails, else its status code |
| `Crawler.TallyInvariants` | backend/crawler/crawler.go:55-75 | internal + external = counted links = accessible + broken; every broken entry has its link's code, which is ≥ 400 |
| `Crawler.Skipped` | backend/crawler/crawler.go:56 | the `continue` test for a missing, empty or `#` href; pinned by `SkippedCountsNothing` (definition only) |
| `Crawler.Visit` | backend/crawler/crawler.go:55-77 | one callback: a skipped anchor changes nothing; otherwise internal + external and accessible + broken each grow by one, and broken entries only get appended |
| `Crawler.TallyOf` | backend/crawler/crawler.go:47-78 | the counters after a prefix of anchors; pinned by `TallyInvariants`, `TallyGrows` and `CheckLinks` (definition only) |
| `Crawler.SkippedCountsNothing` | backend/crawler/crawler.go:55-58 | an anchor without href, with an empty href or a `#` href changes no counter |
| `Crawler.TallyGrows` | backend/crawler/crawler.go:47-53 | the counts after a cancellation are those of a prefix, bounded by those of the whole list |
| `Crawler.CheckLinks` | backend/crawler/crawler.go:47-78 | the loop stops at the cancellation index and leaves the counters of that prefix, with both sum invariants |
| `Crawler.UpperHeadingTag` | backend/crawler/crawler.go:42-43 | upper-casing tag "h<i>" gives key "H<i>" |
| `Crawler.CountHeadings` | backend/crawler/crawler.go:40-44 | the headings map has exactly the keys H1..H6, each the count of its tag |
| `Crawler.Analyze` | backend/crawler/crawler.go:13-83 | fetch failures give only url and status `error` with an error; otherwise a `done` record with version, title, headings, link counts of the visited prefix and login flag, and no error |
| `Text.ContainsIffOccurs` | frontend/src/components/PaginatedTableWrapper.tsx:53-54 | the `includes` scan finds t in s iff t occurs at some index of s |
| `Text.Contains` | frontend/src/components/PaginatedTableWrapper.tsx:53-54 | `includes`; pinned by `ContainsIffOccurs` (definition only) |
| `Text.Lower` | frontend/src/components/PaginatedTableWrapper.tsx:50 | `toLowerCase` on ASCII letters; pinned by `FilterIgnoresTermCase` (definition only) |
| `Text.Upper` | backend/crawler/crawler.go:43 | `strings.ToUpper` on ASCII letters; pinned by `Crawler.UpperHeadingTag` (definition only) |
| `Text.LexCompareZeroIffEqual` | frontend/src/components/PaginatedTableWrapper.tsx:67-68 | the string comparison ties exactly equal strings |
| `Text.LexCompare` | frontend/src/components/PaginatedTableWrapper.tsx:67-68 | `localeCompare` as code-unit order: the result is -1, 0 or 1, and 0 only for strings of equal length |
| `Text.LexCompareTransitive` | frontend/src/components/PaginatedTableWrapper.tsx:67-68 | the string comparison is transitive |
| `Text.ParseIntOfIntToString` | frontend/src/components/PaginatedTableWrapper.tsx:39 | `parseInt(String(n)) == n` for every integer |
| `Text.ParseInt` | frontend/src/components/PaginatedTableWrapper.tsx:39 | `parseInt` in base ten; pinned by `ParseIntOfIntToString` and `PaginatedTable.RowsFromInput` (definition only) |
| `Text.IntToString` | frontend/src/components/PaginatedTableWrapper.tsx:67 | `String(n)` of an integer; pinned by `ParseIntOfIntToString` and `NumberTextBeforeUndefined` (definition only) |
| `Text.NumberTextBeforeUndefined` | frontend/src/components/PaginatedTableWrapper.tsx:67-68 | every number's text sorts before "undefined" |

## Left out

- Networking, timers and dialogs are not modelled: `fetch`, `setInterval`/`clearInterval`, the `setTimeout` sleep, `alert`, `confirm` and `console` logging. Their results are inputs, or entries in the returned effect traces.
- React rendering and JSX markup are left out, apart from the rules `ResultsTable` states.
- `localeCompare` is modelled as code-unit lexicographic order, and `toLowerCase`/`strings.ToUpper` as ASCII case mapping. Locale and Unicode behaviour is not modelled.
- `parseInt` with no radix reads a `0x`/`0X` prefix as hexadecimal (`"0x1A"` is 26); the model reads such text as its decimal digit prefix `0`. The input box is `type="number"`, which does not produce that text.
- `Text.IsSpace` covers the ASCII white space, U+00A0 and U+FEFF only. The other Unicode space separators that `parseInt` skips before the number (U+1680, U+2000 to U+200A, U+2028, U+2029, U+202F, U+205F, U+3000) are treated as ordinary characters, so text starting with them parses as `None`.
- The JavaScript numbers in a record are integers here. Floating point is not modelled.
- `String(value)` of an object field (`headings`, `broken_links`) is not modelled: the table never sorts those columns.
- Backend concurrency is not modelled: goroutine interleavings, `sync.Mutex`, and when a cancellation becomes visible. Each job body is two explicit steps. Interleavings such as a stale job overwriting a reanalysed record are not verified.
- The crawl result and its error are inputs of the job's last step. They are not tied to a call of `Crawler.Analyze`.
- SQLite is not modelled: the driver, SQL errors (`SaveURL` and `UpdateURL` logging, `DeleteURL` returning false on an error) and the JSON encoding of `headings`/`broken_links`. The table is a map that stores records unchanged.
- `GetAllURLs` returning `nil` (JSON `null`) for an empty table, rather than an empty list, is not modelled.
- `uuid.New()` is a parameter of `Handlers.Post`.
- HTTP binding and JSON marshalling are not modelled. A body that fails to bind is `Option.None`.
- The HTTP GET, the goquery parse, title and login-form detection, `net/url` parsing and reference resolution, and the HEAD request are oracles or fields of the fetched document.
- `Crawler.CheckLink`: a cancelled context also makes the HEAD request fail (giving 500). That is not distinguished from any other failure of the oracle.
- backend/crawler/anaylze.go is not part of this model. It is an older duplicate of crawler.go.
- frontend/src/pages/Details.tsx, frontend/src/components/URLForm.tsx and backend/main.go are not part of this model (fetching, routing, markup).
- `Home.tsx` renders `ResultsTable` directly (Home.tsx:65), passing only `urls`. The callbacks it leaves out (`onStart`, `onStop`, `onSort`, `onDelete`, `onToggleSelect`, `onToggleSelectAll`) and the state props (`selectedIds`, `sortKey`, `sortDirection`, `allSelected`) are not modelled. As written, the row checkbox reads `selectedIds.has(url.id)` (ResultsTable.tsx:105) on an undefined `selectedIds`, so that page fails to render once the list holds a record; and a `null` list from an empty table fails at `urls.map` (ResultsTable.tsx:100). Rendering is outside this model, so these are noted here and not proved.
- `PaginatedTable.TableView.HandleBulkDelete` is one atomic step. In the component each `onDelete` is followed by an awaited 50 ms sleep, so the user can toggle selections while the loop runs; the final `setSelectedIds(new Set())` clears those toggles as well. Interleaving of other handlers with the loop is not modelled.
- A single-row Delete does not remove the id from the selection. The model keeps this: only the bulk actions change the selection.
- `Home.HomePage.PollTick`: the pollers are modelled as a list of ids, and one tick is one explicit step. How often a poller fires and round-trip timing are not modelled.

## Findings

| source | as written | input that shows it | evidently intended | confidence | as-written member | corrected member |
|---|---|---|---|---|---|---|
| frontend/src/components/PaginatedTableWrapper.tsx:221-222 | Next sets the page to `Math.min(totalPages, p + 1)` and is disabled only when `currentPage === totalPages` | no rows match (totalPages = 0) and the user clicks Next on page 1: the page becomes 0 and the label reads "Page 0 of 1" | the page stays within 1..max(1, totalPages) | not executed; follows from the code as written | `PaginatedTable.NextPageAsWritten`, `PaginatedTable.NextPageOnEmptyListAsWritten` | `PaginatedTable.NextPage`, with `PaginatedTable.NextPageAgreesOnNonEmptyList` (`TableView.GoToNextPage` follows the code as written; `TableView.Valid` keeps the page ≥ 0, and page 0 shows no rows by `ViewPipeline.PageZeroIsEmpty`) |

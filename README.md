# Deferred-mutation batching engine

This project models the core of a small item-catalog server (`src/index.ts`).
The server keeps a catalog `allItems` of items `{ id }`, and an ordered
selection `selectedOrder` with its membership index `selectedSet`. Write
requests do not change either one. They only stage intents in three areas:

- `pendingSelectOps`, the select/unselect intents;
- `pendingReorder`, a single staged reorder;
- `addQueue`, the ids waiting to be added to the catalog.

Two periodic ticks apply what is staged. The selection tick runs the
select/unselect batch and then the reorder. The addition tick inserts the
queued ids into the catalog. The read handlers `/items` and `/selected`
filter by a decimal substring and return one page of the matches.

Modules, leaves first:

- `Sequences`: the set of values of a sequence, duplicate-freedom and
  order-preserving subsequences. It also holds the list operations the tick
  performs: `indexOf` then `splice` (`RemoveFirst`, `IndexOf`) and `filter`
  (`Without`).
- `Options`: the optional staged reorder (`number[] | null`).
- `Decimal`: `id.toString()` (`IntString`) and `String.prototype.includes`
  (`Contains`), combined in the read handlers' filter test `Matches`.
- `Items`: the catalog. A JS `Map` iterates in insertion order, so it is
  written as its key sequence plus the map. The module also holds the
  addition batch (`Insert`, `InsertAll`) and the startup catalog `1..n`.
- `Coalescer`: `pendingSelectOps`, also an insertion-ordered map. `Stage` is
  `Map.set`: it overwrites the intent and keeps the key's first position.
- `SelectionState`: one batch entry (`Apply`), the batch (`ApplyBatch`), the
  reorder (`Reorder`) and a whole selection tick (`Flush`).
- `Listing`: the matches of the two read handlers and JS `Array.prototype.slice`.
- `Server`: class `Store`. Its fields are the module-level variables. The
  write handlers, the two tick bodies and the two read handlers are its
  methods. Each state-changing method states its new state as a function of
  the old state from the modules above.
- `Scenarios`: worked examples. `AdditionScenario`, `CoalesceScenario` and
  `ReorderScenario` replay request sequences on a freshly built `Store`. The
  lemmas beside them (`InsertedListedLast`, `AddOnceListed`,
  `SelectFourExample`, `StageFour`, `SelectFourThenReorder`) state the same
  outcomes over the pure functions.

Two invariants:

- `Consistent`: the index equals the ids of the order.
- `Canonical`: `Consistent`, and the order has no duplicates.

The source does not deduplicate a staged reorder. A reorder such as `[7, 7]`
leaves `7` in `selectedOrder` twice but once in `selectedSet`. A later
unselect of 7 removes it from the index and only its first copy from the
order. The model keeps this behaviour. `DuplicateReorderExample` and
`DuplicateUnselectDesync` show it on concrete values. So the model proves:

- `Canonical` is preserved by every tick whose staged reorder, if any, is
  duplicate-free.
- `Consistent` holds unconditionally after any tick that ran a reorder.

Behaviours of the code that a reader might not expect, and which the model
follows:

- `addQueue` is a JS `Set`, so it iterates in insertion order, and that order
  becomes the catalog order of the new items (visible in `/items`). It is
  modelled as a duplicate-free sequence.
- `if (pendingReorder)` is true for an empty array, so a staged empty reorder
  still runs. It leaves the order unchanged and rebuilds the index from it.
- The `/add` handler checks the id right before staging it, so `QueueAdd`
  returns the result of those checks as an outcome (`InvalidId`,
  `AlreadyExists`, `Accepted`) instead of requiring them of its caller.
- JS `slice` counts a negative index from the end. Offsets and limits are
  modelled as integers with that behaviour (`Slice`, `SliceNegativeOffset`).

## Model

| member | source | states |
|---|---|---|
| `Items.InitialCatalogSpec` | src/index.ts:17-24 | the startup catalog holds the ids 1..n once each, in increasing order, each stored as `{ id }` |
| `Items.InsertWellFormed` | src/index.ts:178-180 | one insertion keeps the catalog well formed, adds the id, keeps every existing entry, and only appends to the key order |
| `Items.InsertAllWellFormed` | src/index.ts:175-183 | the addition batch keeps every id present exactly once, however often it was staged |
| `Items.InsertAllEntries` | src/index.ts:177-181 | the addition batch inserts every staged id and leaves every existing entry alone |
| `Items.InsertAllSpec` | src/index.ts:175-183 | the addition batch keeps every id present exactly once, inserts every staged id, leaves existing entries and their order untouched, and removes nothing |
| `Items.InsertAllOrder` | src/index.ts:177-181 | the new ids follow the old ones, in the order they were staged |
| `Items.InsertAllCount` | src/index.ts:177-181 | the catalog grows by exactly the number of distinct staged ids that were absent |
| `Items.InsertTwiceOnce` | src/index.ts:177-181 | staging an id twice before a batch inserts it once |
| `Coalescer.StageSpec` | src/index.ts:31-41 | `Map.set` records the new intent, keeps every other intent, and never moves an id already queued |
| `Coalescer.StageLastWins` | src/index.ts:35-41 | a second intent for the same id replaces the first, and the id keeps its original place |
| `Coalescer.StageAllSpec` | src/index.ts:31-41 | after any run of intents the map holds the old ids plus the named ones, each once, and the old key order is a prefix of the new one |
| `Coalescer.StageAllLastWins` | src/index.ts:35-41 | the recorded intent of an id is the last one issued for it |
| `Coalescer.StageAllUntouched` | src/index.ts:35-41 | ids that none of the intents name keep their recorded intent |
| `Coalescer.StageAllPrefix` | src/index.ts:31-41 | the key order at any moment is a prefix of the key order at any later moment |
| `Coalescer.FirstQueuedPosition` | src/index.ts:31-41 | an id's place in the batch is fixed when it is first queued, directly after the ids queued before it |
| `Coalescer.CoalesceExample` | src/index.ts:35-41 | `select(5)`, `unselect(5)`, `select(5)` stage the same as one `select(5)` |
| `SelectionState.ApplySelectSpec` | src/index.ts:135-139 | select keeps the selection canonical, adds the id to the index, and appends at most that id to the order |
| `SelectionState.ApplyUnselectSpec` | src/index.ts:141-145 | unselect keeps the selection canonical, drops the id from the index, removes exactly one copy from the order, and keeps the others' relative order |
| `SelectionState.DuplicateUnselectDesync` | src/index.ts:141-145 | with a repeated id in the order, an unselect of it leaves one copy in the order and none in the index |
| `SelectionState.ApplyBatchCanonical` | src/index.ts:133-147 | the select/unselect batch preserves "index = ids of the order, no duplicates" |
| `SelectionState.ApplyBatchMembers` | src/index.ts:134-147 | from any selection, consistent or not, after the batch an id is selected exactly when its intent was select, or, with no intent, when it was selected before |
| `SelectionState.ApplyBatchKeepsOthers` | src/index.ts:134-147 | ids the batch does not name keep their relative order |
| `SelectionState.ApplyBatchSelectFresh` | src/index.ts:134-139 | selecting distinct, not yet selected ids appends them to the order in batch order and adds them to the index |
| `SelectionState.ReorderSpec` | src/index.ts:153-168 | the new order is the staged ids verbatim, then the old ids not staged, in their old order and with every copy of a repeated id kept; the index is rebuilt to match, so staged ids become selected; no duplicates if the staged sequence has none |
| `SelectionState.ReorderIdempotent` | src/index.ts:153-168 | reordering twice by the same sequence equals reordering once |
| `SelectionState.ReorderExample` | src/index.ts:153-161 | `[1,2,3,4]` reordered by `[3,1]` becomes `[3,1,2,4]` |
| `SelectionState.ReorderGrowsExample` | src/index.ts:153-166 | `[1,2]` reordered by `[9]` becomes `[9,1,2]`, with 9 selected |
| `SelectionState.FlushInvariant` | src/index.ts:132-172 | a tick keeps the selection canonical when the staged reorder is duplicate-free; a tick that ran a reorder always leaves the index equal to the ids of the order |
| `SelectionState.FlushNothingStaged` | src/index.ts:133-170 | a tick with nothing staged changes nothing, so a second tick right after a first is a no-op |
| `SelectionState.DuplicateReorderExample` | src/index.ts:141-166 | a reorder by `[7,7]` keeps both copies in the order and one in the index; a later unselect of 7 leaves `[7]` with an empty index |
| `Decimal.NatStringDigits` | src/index.ts:56 | the decimal form of a natural number is non-empty, has only digits and no leading zero |
| `Decimal.NatStringValue` | src/index.ts:56 | reading the decimal form of a natural number back gives the number |
| `Decimal.IntStringSign` | src/index.ts:56 | the decimal form of an id starts with `-` exactly when the id is negative |
| `Decimal.IntStringInjective` | src/index.ts:56 | distinct ids have distinct decimal forms |
| `Decimal.ContainsIff` | src/index.ts:56 | the substring search succeeds exactly when the filter occurs at some position |
| `Decimal.MatchesIff` | src/index.ts:76 | the read filter, including its empty-filter shortcut, passes an id exactly when the filter occurs in the id's decimal form |
| `Listing.UnselectedMatchesSpec` | src/index.ts:52-58 | the `/items` matches are exactly the unselected catalog ids that pass the filter, in catalog order, each once, each the catalog's own entry |
| `Listing.SelectedMatchesSpec` | src/index.ts:73-80 | the `/selected` matches are exactly the ids of the order that pass the filter and exist in the catalog, each listed as often as it occurs in the order, in selection order |
| `Listing.SelectedMatchesCount` | src/index.ts:75-79 | each id of the order that passes the filter and has a catalog entry is listed once per copy in the order; others are not listed |
| `Listing.SliceWindow` | src/index.ts:60 | for a non-negative offset and limit the page is the window `[offset, offset + limit)` of the matches, cut at their end |
| `Listing.SliceNegativeOffset` | src/index.ts:82 | a negative offset counts from the end of the matches |
| `Listing.UnfilteredMatchesAll` | src/index.ts:54-58 | with nothing selected and an empty filter, `/items` lists the whole catalog in catalog order |
| `Listing.FreshCatalogFirstPage` | src/index.ts:47-65 | on a fresh catalog of n >= 20 items with nothing selected, the default page holds ids 1..20 and the total is n |
| `Sequences.IndexOf` | src/index.ts:143 | `indexOf` returns the first index of the id, or -1 exactly when it is absent |
| `Sequences.RemoveFirstAt` | src/index.ts:143-144 | splicing at the first index of the id is removing its first occurrence |
| `Sequences.RemoveFirstCount` | src/index.ts:143-144 | removing the first occurrence takes exactly one copy away when there is one, and changes nothing otherwise |
| `Sequences.RemoveFirstOrder` | src/index.ts:143-144 | removing the first occurrence keeps the other elements in order |
| `Sequences.RemoveFirstNoDup` | src/index.ts:143-144 | in a duplicate-free order, removing the first occurrence removes the value and keeps the order duplicate-free |
| `Sequences.WithoutSpec` | src/index.ts:158 | the tail holds exactly the old ids not staged, every copy of each, in their old order, without new duplicates |
| `Sequences.WithoutShape` | src/index.ts:158 | the tail holds exactly the old ids not staged, in their old order, without new duplicates |
| `Sequences.WithoutCount` | src/index.ts:158 | filtering keeps every copy of a value outside the staged set and no copy of a value inside it |
| `Server.Store.constructor` | src/index.ts:12-33 | startup state: the catalog 1..n, an empty and canonical selection, every staging area empty |
| `Server.Store.SetIntent` | src/index.ts:31-41 | `pendingSelectOps.set` as `Stage` on the staging area, nothing else changes |
| `Server.Store.QueueSelect` | src/index.ts:35-37 | records a select intent that overrides any earlier intent for the id without moving it; no other state changes |
| `Server.Store.QueueUnselect` | src/index.ts:39-41 | records an unselect intent that overrides any earlier intent for the id without moving it; no other state changes |
| `Server.Store.QueueReorder` | src/index.ts:43-45 | the staged reorder becomes the given sequence, replacing any earlier one; no other state changes |
| `Server.Store.QueueAdd` | src/index.ts:95-104 | non-positive ids and ids already in the catalog are refused; otherwise the id joins the queue, once however often it is sent |
| `Server.Store.ApplyIntent` | src/index.ts:135-146 | one batch entry applied in place is `Apply` on the selection |
| `Server.Store.ApplySelectBatch` | src/index.ts:133-151 | the loop over the staged intents in key order yields `ApplyBatch`, and the staging area is cleared |
| `Server.Store.ApplyReorderBatch` | src/index.ts:153-170 | with a staged reorder, the order becomes staged ++ tail and the index is rebuilt from it; the staged reorder is cleared |
| `Server.Store.SelectionTick` | src/index.ts:132-172 | the selection after a tick is the batch followed by the reorder, both staging areas are empty, the catalog is untouched, and the selection invariants hold as in `FlushInvariant` |
| `Server.Store.AdditionTick` | src/index.ts:174-185 | the catalog becomes `InsertAll` of the queue: every queued id present, existing entries and order untouched; the queue is empty; the selection is untouched |
| `Server.Store.ListItems` | src/index.ts:52-64 | the loop over the catalog yields the `/items` matches; total is their count and items is `slice(offset, offset + limit)` of them |
| `Server.Store.ListSelected` | src/index.ts:73-87 | the loop over the selection order yields the `/selected` matches; total is their count and items is `slice(offset, offset + limit)` of them |
| `Scenarios.InsertedListedLast` | src/index.ts:54-60 | a newly inserted id is the last entry `/items` lists when nothing is selected |
| `Scenarios.AddOnceListed` | src/index.ts:174-185 | after one addition tick inserting 2000000 into a fresh n-item catalog, `/items` totals n + 1 and lists the new item last |
| `Scenarios.AdditionScenario` | src/index.ts:174-185 | `/add` of 2000000 twice and one addition tick on a fresh n-item catalog: `/items` then totals n + 1, with the new item last |
| `Scenarios.CoalesceScenario` | src/index.ts:132-151 | selecting 5, unselecting 5 and selecting 5 again in one interval, then one tick, leaves 5 selected once |
| `Scenarios.SelectFourExample` | src/index.ts:134-139 | select intents for 1, 2, 3, 4 on an empty selection give the order `[1,2,3,4]` |
| `Scenarios.StageFour` | src/index.ts:35-37 | staging select of 1, 2, 3, 4 on an empty staging area keeps them in that order |
| `Scenarios.SelectFourThenReorder` | src/index.ts:132-168 | a tick over the staged selects of 1..4 and a staged reorder by `[3,1]` gives `[3,1,2,4]` |
| `Scenarios.ReorderScenario` | src/index.ts:132-172 | selects of 1..4 and a reorder by `[3,1]` in one interval, then one tick, give `[3,1,2,4]`: the reorder sees the applied selects |

## Left out

- HTTP transport: Express, CORS, JSON body parsing, route registration, response objects and `app.listen` (src/index.ts:1-8, 187-189). Only the computations inside the handlers are modelled.
- The 400/409/202 status mapping and the response bodies: `QueueAdd` returns which check decided, not a status code.
- Input coercion with `Number(...)` and `parseInt`, which can produce NaN, fractions or Infinity. Ids, offsets and limits are integers. The query defaults (`|| ""`, `|| "0"`, `|| "20"`) and the `Array.isArray` check of `/reorder` are not modelled.
- `IntString` writes every integer in plain decimal. JS switches to exponent notation at magnitudes of 10^21 and more, which is outside the integer range JS represents exactly.
- `setInterval` timing, the 1 s and 10 s periods, and concurrency. Each tick is an explicit method call. The source is single-threaded, so no request handler runs in the middle of a tick.
- `console.log` calls, which are logging only.
- `initData`'s 1,000,000 items: the constructor takes the item count `n` as a parameter.
- The `ChangeOp` type, which nothing uses.
- `Reorder`, `ApplyReorderBatch`: the reorder always completes. The source empties `selectedOrder` (`length = 0`) before `push(...subset, ...tail)` (src/index.ts:160-161). A spread with more arguments than the JS engine accepts in one call throws. The RangeError escapes the timer callback uncaught, since nothing catches it; by default this ends the process. The model has no limit on argument counts and does not capture this failure.

# ICA shopping ⇄ Home Assistant todo reconciliation, modelled in Dafny

The `ica_shopping` Home Assistant integration keeps a remote ICA shopping list and a
Home Assistant todo list (called "Keep" below, after the list it is usually bound to) in
step. Everything it decides lives in `custom_components/ica_shopping/__init__.py`:

- **`call_service_listener`** watches every service call, of any domain, whose service
  is named `add_item`, `remove_item` or `update_item` (it matches on the name alone,
  lines 110-113 and 172). It normalises item texts with
  `strip().lower()` and records them in the anti-echo ledger (`recent_keep_adds`,
  `recent_keep_removes`). For a completed `update_item` it spawns an immediate removal
  from ICA. It rearms a single debounce timer (`debounce_unsub`).
- **`schedule_sync`** is the debounced Keep → ICA pass, run when that timer fires.
- **`handle_refresh`** is the full two-way pass. It cleans up striked rows, applies the
  capacity guard, and propagates completions, additions and deletions both ways. It
  clears the ledger only when it gets to the end.
- **`handle_add_item`** is the manual `ica_shopping.add_item` service.
- **`_trigger_sensor_update`** looks up the list's sensor in the entity registry.

The model has one module per piece:

- `Text`: ASCII `strip`/`lower` and the key normalisation `Norm`.
- `Stores`: ICA rows, Keep items, the log of outbound calls and the shared lookups.
- `Sensor`: the registry lookup.
- `Debounce`: the timer slot as a log of arm/cancel/fire operations.
- `Classifier`: what one service call does.
- `Listening`: the listener's effect on the shared state.
- `DebouncedSync`: `schedule_sync`.
- `FullPass`: `handle_refresh`.
- `ManualAdd`: `handle_add_item`.
- `Engine`: one class, `Reconciler`.

`Reconciler` holds the shared state as fields: the ledger sets, the debounce slot, the
keys of the removal tasks still waiting to run, and the log of every outbound call. Its
methods are the handlers. Each one is proved to change that state exactly as the pure
functions of the other modules say. The lemmas then prove the source's promises about
those functions.

Answers of the outside world are parameters:

- An API read that raises is `None`.
- The success of the `j`-th `add_to_list` is `ok(j)`.
- The order in which Python iterates a set is a ghost out-parameter, constrained only to
  list every element once.

Some details of the code that the model keeps as they are:

- The full pass caps additions to Keep with `MAX_ICA_ITEMS` (250) minus the number of
  Keep items (line 251), not with `MAX_KEEP_ITEMS`.
- The 250-row guard of the full pass (line 196) counts the rows left after the striked
  clean-up, not the rows the list was read with.
- When the configured list is missing, `schedule_sync` carries on with no rows (line 85)
  and may add to a list id that does not exist; the full pass stops instead (line 183).
- Filters keep duplicates: two Keep items with the same summary give two `add_to_list`
  calls, two completed items with the same key give two removals, and duplicate rows
  count towards the guard. The lemmas named `...Picks` state each filter exactly, through
  `Common.Picks`: the result lists, in order, one image for each position that passes the
  test, so order and multiplicity are both fixed (`Common.PicksUnique`).

## Model

| member | source | states |
|---|---|---|
| Common.Take | custom_components/ica_shopping/__init__.py:81-82 | `s[:n]` keeps at most `n` elements, is a prefix of `s`, and is all of `s` when `s` is no longer than `n` |
| Text.Lower | custom_components/ica_shopping/__init__.py:148 | lower-casing keeps the length |
| Text.LowerAt | custom_components/ica_shopping/__init__.py:148 | each character is lower-cased on its own |
| Text.IsSpace | custom_components/ica_shopping/__init__.py:80 | (definition) the characters `str.isspace()` accepts below 0x80: tab, line feed, vertical tab, form feed, carriage return, 0x1C-0x1F and space |
| Text.TrimLeft | custom_components/ica_shopping/__init__.py:80 | (definition) the left half of `strip()`: drop whitespace from the start; its property is `TrimLeftShape` |
| Text.TrimRight | custom_components/ica_shopping/__init__.py:80 | (definition) the right half of `strip()`: drop whitespace from the end; its property is `TrimRightShape` |
| Text.Strip | custom_components/ica_shopping/__init__.py:80 | (definition) Python's `strip()` on ASCII whitespace; its properties are `StripShape` and `StripIdempotent` |
| Text.Norm | custom_components/ica_shopping/__init__.py:117 | (definition) the join key `strip().lower()`; its properties are `NormIdempotent`, `StripLower` and `KeyIsNormal` |
| Text.TrimLeftShape | custom_components/ica_shopping/__init__.py:80 | stripping the left end removes a prefix made only of whitespace and stops at the first non-whitespace character |
| Text.TrimRightShape | custom_components/ica_shopping/__init__.py:80 | stripping the right end removes a suffix made only of whitespace and stops at the last non-whitespace character |
| Text.StripShape | custom_components/ica_shopping/__init__.py:80 | `strip()` keeps a middle slice of the text, everything it drops on either side is whitespace, and the slice starts and ends with a non-whitespace character |
| Text.StripIdempotent | custom_components/ica_shopping/__init__.py:306 | stripping twice is stripping once |
| Text.LowerIdempotent | custom_components/ica_shopping/__init__.py:148 | lower-casing twice is lower-casing once |
| Text.TrimLeftLower | custom_components/ica_shopping/__init__.py:148 | left-stripping and lower-casing commute |
| Text.TrimRightLower | custom_components/ica_shopping/__init__.py:148 | right-stripping and lower-casing commute |
| Text.StripLower | custom_components/ica_shopping/__init__.py:148 | stripping and lower-casing commute |
| Text.NormIdempotent | custom_components/ica_shopping/__init__.py:117 | normalising a key again leaves it unchanged |
| Text.KeyIsNormal | custom_components/ica_shopping/__init__.py:117 | any result of normalisation is its own normal form |
| Stores.FindList | custom_components/ica_shopping/__init__.py:182 | the result is the first list with the id, and it is absent iff no list has it |
| Stores.RowsOf | custom_components/ica_shopping/__init__.py:85 | (definition) the rows of the first list with the configured id, or no rows when there is none |
| Stores.RowIndex | custom_components/ica_shopping/__init__.py:202-205 | (definition) the dict comprehension from row keys to row ids; its properties are the next two rows |
| Stores.RowIndexHasEveryKey | custom_components/ica_shopping/__init__.py:202-205 | the dict has the normalised key of every row |
| Stores.RowIndexLastWins | custom_components/ica_shopping/__init__.py:202-205 | each key maps to the id of the LAST row with that key |
| Stores.Summaries | custom_components/ica_shopping/__init__.py:80 | one stripped summary per Keep item |
| Stores.RowKeys | custom_components/ica_shopping/__init__.py:90 | one normalised key per row |
| Stores.ItemKeys | custom_components/ica_shopping/__init__.py:216 | one normalised key per Keep item |
| Stores.NonEmptyKeepsNonEmpty | custom_components/ica_shopping/__init__.py:267-268 | `if summary:` passes exactly the non-empty texts: one per non-empty position, in order (duplicates kept), and nothing else |
| Stores.NonEmpty | custom_components/ica_shopping/__init__.py:268 | (definition) the texts that pass `if summary:`, in order; its property is the row above |
| Stores.IcaAdds | custom_components/ica_shopping/__init__.py:95-96 | one `add_to_list` per text, in order |
| Stores.IcaRemoves | custom_components/ica_shopping/__init__.py:191-192 | one `remove_item` per id, in order |
| Stores.KeepAdds | custom_components/ica_shopping/__init__.py:254-259 | one `todo.add_item` per text, in order |
| Stores.KeepRemoves | custom_components/ica_shopping/__init__.py:225-230 | one `todo.remove_item` per text, in order |
| Stores.IcaRemovesByKey | custom_components/ica_shopping/__init__.py:233-237 | every removal is of a row some key maps to with a non-empty id; every such row is removed; at most one removal per key (the exact count and order are `IcaRemovesByKeyPicks`) |
| Stores.IcaRemovesByKeyPicks | custom_components/ica_shopping/__init__.py:233-237 | exactly one removal per key position whose looked-up id is non-empty, of that id, in key order: a key listed twice removes twice |
| Stores.IdOf | custom_components/ica_shopping/__init__.py:234 | (definition) `ica_rows_dict.get(text)`, with a missing key read as the empty id, which is false in `if row_id:` like `None` |
| Sensor.SensorUniqueId | custom_components/ica_shopping/__init__.py:13 | (definition) the sensor's unique id, `shoppinglist_` followed by the list id |
| Sensor.SensorCalls | custom_components/ica_shopping/__init__.py:11-31 | (definition) one `update_entity` for the first registry entry with the sensor's unique id, when its entity id is non-empty; its property is `SensorCallsFirstMatch` |
| Sensor.FirstWithUniqueId | custom_components/ica_shopping/__init__.py:16-19 | the entity of the first registry entry with the unique id; absent iff no entry has it |
| Sensor.FindSensorEntity | custom_components/ica_shopping/__init__.py:13-19 | the scan finds the first entry whose unique id is `shoppinglist_<list id>` |
| Sensor.SensorCallsFirstMatch | custom_components/ica_shopping/__init__.py:11-31 | at most one `update_entity`; issued iff the first matching entry has a non-empty entity id; it targets that entry |
| Debounce.Rearm | custom_components/ica_shopping/__init__.py:139-141 | (definition) one rearm: cancel the pending timer if any, then arm a fresh one; its property is `RearmLeavesOneLive` |
| Debounce.Rearms | custom_components/ica_shopping/__init__.py:168-170 | (definition) `n` rearms in a row; its properties are `BurstLeavesOneLive`, `RearmsFresh` and `RearmsAppend` |
| Debounce.RearmLeavesOneLive | custom_components/ica_shopping/__init__.py:139-141 | cancel-then-arm leaves exactly the new timer live |
| Debounce.BurstLeavesOneLive | custom_components/ica_shopping/__init__.py:168-170 | any number of rearms leaves exactly the slot's timer live |
| Debounce.RearmsFresh | custom_components/ica_shopping/__init__.py:141 | rearms use fresh handles, and the slot's handle is below the next fresh one |
| Debounce.RearmsAppend | custom_components/ica_shopping/__init__.py:139-170 | `m` rearms followed by `n` more are `m + n` rearms, leaving the same slot |
| Debounce.FireEmptiesSlot | custom_components/ica_shopping/__init__.py:62-64 | firing the pending timer leaves no timer live |
| Debounce.RearmsKeepInvariant | custom_components/ica_shopping/__init__.py:168-170 | rearming keeps "the live timers are exactly the slot's, handles fresh" |
| Debounce.FireKeepsInvariant | custom_components/ica_shopping/__init__.py:62-64 | firing and emptying the slot keeps that invariant |
| Classifier.ItemKey | custom_components/ica_shopping/__init__.py:146-152 | the key of the `item` field is a normalised text |
| Classifier.EntityList | custom_components/ica_shopping/__init__.py:154-155 | (definition) the targeted entity ids as a list, a single id becoming a one-element list |
| Classifier.CompletionKey | custom_components/ica_shopping/__init__.py:113-117 | (definition) the key of an `update_item` whose status is "completed" and whose `rename` is non-empty: the normalised `rename`, whatever the entity |
| Classifier.TrackedKey | custom_components/ica_shopping/__init__.py:143-158 | (definition) the item key of an event that targets the Keep entity and has a non-empty key; none for an event that returns at line 158 |
| Classifier.Classify | custom_components/ica_shopping/__init__.py:107-170 | (definition) the ledger keys, removal task and rearm count of one event; its properties are the lemmas below |
| Classifier.ClassifyReaction | custom_components/ica_shopping/__init__.py:107-170 | keys recorded are normalised; the immediate removal's key (the completed text) is also recorded as removed; at most two rearms, and none iff the event neither completes an item nor reaches the general path; adds only from `add_item` on the Keep entity; other removals only from `remove_item` on it |
| Classifier.TrackedEventRecordsKey | custom_components/ica_shopping/__init__.py:143-170 | an `add_item` on the Keep entity with a non-empty key records exactly that key as added; a `remove_item` records it as removed; either rearms once more than the completion alone |
| Classifier.IgnoredEventChangesNothing | custom_components/ica_shopping/__init__.py:143-158 | an event off the Keep entity or without item text changes no set and arms nothing (unless it completes an item) |
| Classifier.ListItemUsesFirstElement | custom_components/ica_shopping/__init__.py:149-150 | a list-valued `item` is keyed by its first element only |
| Classifier.CompletedUpdateIgnoresTarget | custom_components/ica_shopping/__init__.py:113-141 | a completed update records its key whatever entity it targets, and arms twice when it also reaches the general path |
| Classifier.DirectRemovalCalls | custom_components/ica_shopping/__init__.py:121-135 | (definition) the removal the task issues for a key; its property is the next row |
| Classifier.DirectRemovalDeletesLastRowWithKey | custom_components/ica_shopping/__init__.py:121-135 | the immediate removal deletes a row iff some row has the key and the last such row has an id, and then it deletes that row |
| Classifier.LateBoundLookupKey | custom_components/ica_shopping/__init__.py:130 | (definition) the key the task as written looks up: the `item` variable as lines 146-152 rebind it, the event's normalised `item` field; its property is the next row |
| Classifier.LateBoundKeyIgnoresRename | custom_components/ica_shopping/__init__.py:130-152 | as written, the key the task looks up ignores the completed text: changing `rename` leaves it unchanged, and a completed update without `item` looks up nothing |
| Classifier.LateBindingMissesCompletedRow | custom_components/ica_shopping/__init__.py:113-152 | a concrete event where the as-written lookup removes nothing but the completed key removes the row |
| Classifier.DirectRemovalTargetsCompletedItem | custom_components/ica_shopping/__init__.py:116-137 | the model's immediate removal is keyed by the completed text, which is normalised and recorded as removed |
| Listening.AfterCompletion | custom_components/ica_shopping/__init__.py:113-141 | (definition) a completed update records its key as removed, queues the removal task and rearms once; any other event changes nothing |
| Listening.AfterTracked | custom_components/ica_shopping/__init__.py:143-170 | (definition) an event reaching the general path records its key for `add_item` / `remove_item` and rearms once; any other event changes nothing |
| Listening.AfterEvent | custom_components/ica_shopping/__init__.py:107-170 | (definition) the reaction `Classify` computes, applied to the listener's state; the two rows below relate it to the two parts |
| Listening.ListenerComposes | custom_components/ica_shopping/__init__.py:107-170 | the completed-update branch followed by the general path (no `return` between them) has the effect `Classify` describes |
| Listening.ListenerKeepsInvariant | custom_components/ica_shopping/__init__.py:107-170 | every event keeps the ledger keys normalised and the live timers exactly the slot's: none when the slot is empty, else the one it holds |
| Listening.ReactionKeepsKeysNormal | custom_components/ica_shopping/__init__.py:118-165 | the keys an event adds to the ledger and to the waiting tasks are normalised |
| DebouncedSync.NotOnIca | custom_components/ica_shopping/__init__.py:92 | the filter keeps, in order, only summaries whose lower-case form is not an ICA key, and every such summary (the exact count is `NotOnIcaPicks`) |
| DebouncedSync.NotOnIcaPicks | custom_components/ica_shopping/__init__.py:92 | the filter keeps each summary whose lower-case form is not an ICA key, once per occurrence, in order, and nothing else |
| DebouncedSync.SyncAdds | custom_components/ica_shopping/__init__.py:79-92 | (definition) the texts one firing adds; its property is `SyncAddsOnlyNewSummaries` |
| DebouncedSync.SyncCalls | custom_components/ica_shopping/__init__.py:66-105 | (definition) every call one firing issues; its properties are `SyncSensorIffAnyAdd` and `SyncReadFailureIssuesNothing` |
| DebouncedSync.AnySucceeded | custom_components/ica_shopping/__init__.py:94-99 | (definition) `any_added`: some of the first `n` `add_to_list` calls returned success |
| DebouncedSync.SyncAddsOnlyNewSummaries | custom_components/ica_shopping/__init__.py:79-92 | nothing is added to a list with 250 rows or more; otherwise the first new summaries (stripped, among the first 100, new by key), exactly `250 - len(rows)` of them when there are more, and all of them when they fit |
| DebouncedSync.SyncSensorIffAnyAdd | custom_components/ica_shopping/__init__.py:94-102 | the adds come first; the sensor is refreshed iff some add succeeded (and the sensor exists) |
| DebouncedSync.SyncReadFailureIssuesNothing | custom_components/ica_shopping/__init__.py:70-105 | a read that raises ends the sync before any call |
| FullPass.StrikedIds | custom_components/ica_shopping/__init__.py:190 | exactly the non-empty ids of striked rows, as a set (the exact count and order are `StrikedIdsPicks`) |
| FullPass.StrikedIdsPicks | custom_components/ica_shopping/__init__.py:190-192 | one id per striked row with an id, in row order, so each such row gets its own removal |
| FullPass.WithoutIds | custom_components/ica_shopping/__init__.py:194 | the rows whose id is not removed, as an order-preserving subsequence (the exact count is `WithoutIdsPicks`) |
| FullPass.WithoutIdsPicks | custom_components/ica_shopping/__init__.py:194-196 | every row whose id is not removed stays, duplicates included, in order, so the guard counts each of them |
| FullPass.IcaTexts | custom_components/ica_shopping/__init__.py:200 | one stripped text per row |
| FullPass.CompletedKeys | custom_components/ica_shopping/__init__.py:218-222 | exactly the keys of completed Keep items, as a set (the exact count and order are `CompletedKeysPicks`) |
| FullPass.CompletedKeysPicks | custom_components/ica_shopping/__init__.py:218-222 | one key per completed Keep item, in Keep order, duplicates included |
| FullPass.NewForKeep | custom_components/ica_shopping/__init__.py:242-249 | in ICA order, only texts whose lower-case form is neither in Keep nor in `recent_keep_removes`, and every such text (the exact count is `NewForKeepPicks`) |
| FullPass.NewForKeepPicks | custom_components/ica_shopping/__init__.py:242-249 | `to_add` holds each ICA text that passes the test once per occurrence, in order, and nothing else |
| FullPass.StaleInKeep | custom_components/ica_shopping/__init__.py:262-265 | exactly the original summaries whose key is not among the ICA keys, as a set (the exact count and order are `StaleInKeepPicks`) |
| FullPass.StaleInKeepPicks | custom_components/ica_shopping/__init__.py:262-265 | one original summary per Keep item whose key is not on ICA, in Keep order |
| FullPass.PySliceTo | custom_components/ica_shopping/__init__.py:252 | (definition) Python's `s[:n]` for any integer `n`: a negative `n` drops the last `-n` elements |
| FullPass.CapAsWritten | custom_components/ica_shopping/__init__.py:251-252 | (definition) Python's slice with `MAX_ICA_ITEMS - len(keep_items)` |
| FullPass.KeepRoom | custom_components/ica_shopping/__init__.py:251 | (definition) `max_add` clamped at zero: the room below 250 Keep items |
| FullPass.CapForKeep | custom_components/ica_shopping/__init__.py:251-252 | the first texts, exactly as many as the room below 250 Keep items allows (clamped at 0), or all of them when they fit; none when Keep is at 250 or more |
| FullPass.NegativeRoomStillAdds | custom_components/ica_shopping/__init__.py:251-252 | with 260 Keep items the written slice still adds a text; the clamped cap adds none |
| FullPass.CapAgreesWithinRoom | custom_components/ica_shopping/__init__.py:251-252 | the written cap and the clamped one agree whenever Keep holds at most 250 items |
| FullPass.KeepAdditions | custom_components/ica_shopping/__init__.py:242-252 | (definition) the filtered ICA texts under the clamped cap; its property is `KeepAdditionsAntiEcho` |
| FullPass.Reconcile | custom_components/ica_shopping/__init__.py:224-284 | (definition) the calls after both reads, in the source's order; its properties are the lemmas below |
| FullPass.Pruned | custom_components/ica_shopping/__init__.py:189-194 | (definition) the rows the pass goes on with: with `remove_striked`, the rows whose id is not a removed striked id |
| FullPass.StrikedRemovals | custom_components/ica_shopping/__init__.py:189-192 | (definition) with `remove_striked`, one `remove_item` per striked row with an id; otherwise none |
| FullPass.Pass | custom_components/ica_shopping/__init__.py:174-292 | (definition) one full pass: its calls and whether it clears the ledger |
| FullPass.MissingListIssuesNothing | custom_components/ica_shopping/__init__.py:181-185 | no list or a failed read: no call, ledger kept |
| FullPass.StrikedRowsRemovedFirst | custom_components/ica_shopping/__init__.py:189-194 | every striked row with an id is removed, and none is left in the rows the guard sees |
| FullPass.FullListStopsBeforeKeep | custom_components/ica_shopping/__init__.py:196-198 | with 250 rows left the pass issues only the striked removals and keeps the ledger |
| FullPass.KeepAdditionsAntiEcho | custom_components/ica_shopping/__init__.py:239-252 | no text added to Keep has its key in Keep or in `recent_keep_removes`; the additions are the first filtered ICA texts, in order, exactly as many as the room allows or all of them |
| FullPass.PassAddsToKeepOnlyAdditions | custom_components/ica_shopping/__init__.py:254-260 | the only Keep additions of a pass are those texts |
| FullPass.StaleKeepItemsRemoved | custom_components/ica_shopping/__init__.py:262-274 | `to_remove_from_keep` is exactly the stale summaries, and each non-empty one is removed |
| FullPass.LedgerKeysOnIca | custom_components/ica_shopping/__init__.py:276 | (definition) `to_remove_from_ica`: the keys of `recent_keep_removes` that the index holds, as a set whose order the pass chooses |
| FullPass.LedgerRemovalsReachIca | custom_components/ica_shopping/__init__.py:276-282 | every ledger key the index maps to a non-empty id has its row removed, in any set order; those are the only such removals |
| FullPass.CompletedRemovedFromIcaRegardless | custom_components/ica_shopping/__init__.py:224-237 | completed items are removed from ICA whatever `remove_striked` says, and from Keep when it is set |
| FullPass.ClearedIffPassCompletes | custom_components/ica_shopping/__init__.py:181-198 | the ledger is cleared iff both reads succeed, the list exists and the guard passes |
| ManualAdd.ChosenListId | custom_components/ica_shopping/__init__.py:302 | the call's list id unless empty, else the current one unless empty, else none |
| ManualAdd.CheckAddItem | custom_components/ica_shopping/__init__.py:297-314 | each error exactly when its check is the first to fail; otherwise the chosen list and the non-empty stripped text |
| ManualAdd.AddItemCalls | custom_components/ica_shopping/__init__.py:296-328 | (definition) the calls of a manual add; its property is `AddItemIssuesOneAdd` |
| ManualAdd.AddItemIssuesOneAdd | custom_components/ica_shopping/__init__.py:316-325 | a refused call issues nothing; an accepted one one add, then the sensor refresh only on success |
| Engine.Reconciler.constructor | custom_components/ica_shopping/__init__.py:48-60 | API present, current list set, empty ledger, empty slot, invariant holds |
| Engine.Reconciler.RearmSlot | custom_components/ica_shopping/__init__.py:139-141 | cancel the pending timer if any, then arm a fresh one and hold it |
| Engine.Reconciler.OnServiceCall | custom_components/ica_shopping/__init__.py:107-170 | the ledger, waiting tasks and slot change as `Classify` says, and the invariant is kept |
| Engine.Reconciler.OnCompletedUpdate | custom_components/ica_shopping/__init__.py:113-141 | a completed update records the key, queues the removal and rearms; nothing else changes |
| Engine.Reconciler.OnTrackedEvent | custom_components/ica_shopping/__init__.py:143-170 | an event on the Keep entity with item text records the key for its service and rearms; others change nothing |
| Engine.Reconciler.RecordKey | custom_components/ica_shopping/__init__.py:160-166 | for a normalised key: `add_item` grows `recent_keep_adds`, `remove_item` grows `recent_keep_removes`, others neither |
| Engine.Reconciler.TriggerSensorUpdate | custom_components/ica_shopping/__init__.py:11-31 | issues exactly the sensor refresh of the list |
| Engine.Reconciler.FireDebounced | custom_components/ica_shopping/__init__.py:62-105 | firing empties the slot before the sync, leaves no live timer, and issues the sync's calls |
| Engine.Reconciler.SyncKeepToIca | custom_components/ica_shopping/__init__.py:66-105 | issues exactly the debounced sync's calls |
| Engine.Reconciler.IcaAddEach | custom_components/ica_shopping/__init__.py:94-99 | one add per text, and `any_added` iff some add succeeded |
| Engine.Reconciler.RunDirectRemoval | custom_components/ica_shopping/__init__.py:121-135 | the oldest waiting task runs and issues the immediate removal for its key |
| Engine.Reconciler.IcaRemoveEach | custom_components/ica_shopping/__init__.py:191-192 | one removal per striked id |
| Engine.Reconciler.IcaRemoveEachKey | custom_components/ica_shopping/__init__.py:233-237 | one removal per key mapped to a non-empty id |
| Engine.Reconciler.KeepRemoveEach | custom_components/ica_shopping/__init__.py:224-230 | one Keep removal per completed key |
| Engine.Reconciler.KeepRemoveEachNonEmpty | custom_components/ica_shopping/__init__.py:267-274 | one Keep removal per non-empty stale summary |
| Engine.Reconciler.KeepAddEach | custom_components/ica_shopping/__init__.py:254-260 | one Keep addition per text |
| Engine.Reconciler.IcaRemoveLedgerKeys | custom_components/ica_shopping/__init__.py:276-282 | iterates every ledger key once, in some order, removing the mapped rows |
| Engine.Reconciler.Refresh | custom_components/ica_shopping/__init__.py:174-292 | issues exactly the pass's calls and clears both ledger sets iff it completes; invariant kept |
| Engine.Reconciler.RefreshPass | custom_components/ica_shopping/__init__.py:177-284 | issues the pass's calls and reports whether it reached the clean-up |
| Engine.Reconciler.ReconcileStores | custom_components/ica_shopping/__init__.py:200-284 | issues the reconciliation calls in the source's order |
| Engine.Reconciler.AddItem | custom_components/ica_shopping/__init__.py:296-328 | issues exactly what the checked manual add issues |
| Engine.CollectNewForKeep | custom_components/ica_shopping/__init__.py:242-249 | the loop builds exactly `NewForKeep` |

## Left out

- Home Assistant plumbing is not modelled: `async_setup`, service registration, `async_forward_entry_setups`, `_options_update_listener` and the options reload. `config_flow.py` and the sensor platform are not part of this model.
- The ICA HTTP client and the `todo.*` services are external. Their answers are parameters, and the calls they receive are entries of the call log.
- Exceptions are modelled only for the reads (`fetch_lists`, `todo.get_items`). An exception from an individual outbound call, which would also end the pass early, is not modelled.
- Timing, `async_call_later`'s delay and task scheduling are not modelled. The timer is a log of arm/cancel/fire operations, and waiting removal tasks run when `RunDirectRemoval` is called.
- The engine's own `todo.add_item` / `todo.remove_item` calls also reach the listener in Home Assistant. That feedback loop and any interleaving of handlers are not modelled; each handler runs to completion on its own.
- Python's Unicode `strip()` / `lower()` are modelled on ASCII: whitespace is what `str.isspace()` accepts below 0x80 (tab, line feed, vertical tab, form feed, carriage return, the separators 0x1C-0x1F and space), and only `A`-`Z` are lower-cased.
- Non-dict rows and items, non-string `text`/`summary`/`item` values, and `status` values other than "completed" are not distinguished. An absent id, summary or text is the empty string, and a status is completed or not.
- The listener distinguishes only the `add_item`, `remove_item` and `update_item` services; every other service is `OtherService`.
- The entity registry is a fixed sequence, and the configuration does not change while the handlers run.
- `recent_keep_adds` is recorded and cleared but never read by any handler, so no property uses it.
- Convergence or idempotence of repeated passes is not stated.
- Engine.Reconciler.ReconcileStores: uses the clamped cap `CapForKeep` rather than the written negative slice (see Findings). So do `FullPass.KeepAdditions`, `FullPass.Reconcile`, `FullPass.Pass`, `FullPass.KeepAdditionsAntiEcho`, `FullPass.PassAddsToKeepOnlyAdditions`, `Engine.Reconciler.Refresh` and `Engine.Reconciler.RefreshPass`; they describe the pass as intended and differ from the code only when Keep holds more than 250 items.
- Engine.Reconciler.RunDirectRemoval: looks up the completed key rather than the late-bound `item` variable (see Findings). So do `Classifier.Classify` (its `direct` key), `Classifier.ClassifyReaction`, `Classifier.DirectRemovalTargetsCompletedItem`, `Listening.AfterCompletion`, `Listening.AfterEvent`, `Listening.ListenerComposes`, `Listening.ListenerKeepsInvariant`, `Engine.Reconciler.OnCompletedUpdate` and `Engine.Reconciler.OnServiceCall`: the waiting task they queue carries the completed text's key, which the code as written would not look up.
- NotOnIca: its own contract gives order and membership only; the exact selection, with multiplicity, is `NotOnIcaPicks`. It is kept out of the function's contract because every caller would then pay for it.
- NewForKeep: its own contract gives order and membership only; the exact selection is `NewForKeepPicks`, for the same reason.
- WithoutIds: its own contract gives order and membership only; the exact selection is `WithoutIdsPicks`, for the same reason.
- StrikedIds: its own contract gives membership only; the exact selection is `StrikedIdsPicks`, for the same reason.
- CompletedKeys: its own contract gives membership only; the exact selection is `CompletedKeysPicks`, for the same reason.
- StaleInKeep: its own contract gives membership only; the exact selection is `StaleInKeepPicks`, for the same reason.
- IcaRemovesByKey: its own contract ties removals to keys without counting them; the exact count and order are `IcaRemovesByKeyPicks`, for the same reason.

## Findings

| source | as written | input that shows it | evidently intended | confidence | as-written member | corrected member |
|---|---|---|---|---|---|---|
| custom_components/ica_shopping/__init__.py:251-252 | `max_add = MAX_ICA_ITEMS - len(keep_items)`, then `to_add[:max_add]`, which is a negative slice when Keep holds more than 250 items | 260 Keep items and eleven new ICA texts: `max_add` is -10, and the slice keeps the first text, so Keep grows further | add nothing once Keep holds 250 items or more | high; not executed | FullPass.CapAsWritten, FullPass.NegativeRoomStillAdds | FullPass.CapForKeep, FullPass.CapAgreesWithinRoom |
| custom_components/ica_shopping/__init__.py:121-152 | `remove_from_ica_direct` reads the variable `item` when the task runs, after lines 146-152 have rebound it to the normalised `item` field of the event | an `update_item` completing "Milk" whose `item` is the uid "a1", on a list with a "milk" row: the task looks up "a1" and removes nothing | remove the row of the completed text, the key just recorded in `recent_keep_removes` | high; not executed | Classifier.LateBoundKeyIgnoresRename, Classifier.LateBindingMissesCompletedRow | Classifier.DirectRemovalTargetsCompletedItem, Engine.Reconciler.RunDirectRemoval |

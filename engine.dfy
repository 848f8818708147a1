/** The state `async_setup_entry` (custom_components/ica_shopping/__init__.py:45-172) sets
    up and its handlers share: the anti-echo ledger `recent_keep_adds` /
    `recent_keep_removes`, the debounce slot `debounce_unsub`, the immediate-removal tasks
    waiting to run, and the log of every outbound call. */
module Engine {
  import opened Common
  import opened Text
  import opened Stores
  import opened Sensor
  import opened Debounce
  import opened Classifier
  import opened DebouncedSync
  import opened FullPass
  import opened ManualAdd
  import opened Listening

  class Reconciler {
    /** The configured ICA list (`ica_list_id`). */
    const listId: string
    /** The configured Keep entity (`todo_entity_id`), None when not set. */
    const keepEntity: Option<string>
    /** The `remove_striked` option (default true). */
    const removeStriked: bool
    /** The entity registry, in iteration order. */
    const registry: seq<RegistryEntry>
    /** `hass.data[DOMAIN][DATA_ICA]` is set. */
    const apiPresent: bool
    /** `hass.data[DOMAIN]["current_list_id"]`. */
    const currentListId: Option<string>

    var recentAdds: set<string>
    var recentRemoves: set<string>
    /** The handle held by `debounce_unsub`, if any. */
    var pending: Option<Handle>
    var nextHandle: Handle
    /** Keys of the spawned `remove_from_ica_direct` tasks that have not run yet, oldest first. */
    var directTasks: seq<string>
    /** Every outbound call issued so far, in order. */
    var calls: seq<Call>
    /** Every timer operation so far, in order. */
    var timers: seq<TimerOp>

    /** The part of the state the service-call listener changes. */
    ghost function State(): ListenerState
      reads this`recentAdds, this`recentRemoves, this`directTasks, this`timers, this`pending, this`nextHandle
    {
      ListenerState(recentAdds, recentRemoves, directTasks, timers, pending, nextHandle)
    }

    /** Every recorded key is normalised and at most one timer, the slot's, is live. */
    ghost predicate Valid()
      reads this`recentAdds, this`recentRemoves, this`directTasks, this`timers, this`pending, this`nextHandle
    {
      Invariant(State())
    }

    /** Lines 48-60: the API is stored, the configured list becomes the current list, the
        ledger is empty and no timer is pending. */
    constructor (listId: string, keepEntity: Option<string>, removeStriked: bool, registry: seq<RegistryEntry>)
      ensures Valid()
      ensures this.listId == listId && this.keepEntity == keepEntity
      ensures this.removeStriked == removeStriked && this.registry == registry
      ensures apiPresent && currentListId == Some(listId)
      ensures recentAdds == {} && recentRemoves == {} && pending.None?
      ensures directTasks == [] && calls == [] && timers == []
    {
      this.listId := listId;
      this.keepEntity := keepEntity;
      this.removeStriked := removeStriked;
      this.registry := registry;
      apiPresent := true;
      currentListId := Some(listId);
      recentAdds := {};
      recentRemoves := {};
      pending := None;
      nextHandle := 0;
      directTasks := [];
      calls := [];
      timers := [];
    }

    /** Cancel the pending timer if there is one, then arm a fresh one and keep its handle
        (lines 139-141 and 168-170). Both listener steps use it; the invariant it keeps is
        `Debounce.RearmsKeepInvariant`. */
    method RearmSlot()
      modifies this`timers, this`pending, this`nextHandle
      ensures timers == old(timers) + Rearm(old(pending), old(nextHandle))
      ensures pending == Some(old(nextHandle)) && nextHandle == old(nextHandle) + 1
    {
      if pending.Some? {
        timers := timers + [Cancel(pending.value)];
      }
      timers := timers + [Arm(nextHandle, DEBOUNCE_SECONDS)];
      pending := Some(nextHandle);
      nextHandle := nextHandle + 1;
    }

    /** `call_service_listener` (lines 107-170) for one intercepted service call: the ledger,
        the waiting tasks and the debounce slot change as `Classify` says. */
    method OnServiceCall(ev: ServiceEvent)
      requires Valid()
      modifies this`recentAdds, this`recentRemoves, this`directTasks, this`timers, this`pending, this`nextHandle
      ensures Valid()
      ensures State() == AfterEvent(old(State()), ev, keepEntity)
    {
      ghost var before := State();
      OnCompletedUpdate(ev);
      OnTrackedEvent(ev);
      ListenerComposes(before, ev, keepEntity);
      ListenerKeepsInvariant(before, ev, keepEntity);
    }

    /** Lines 113-141: an `update_item` that completes a non-empty `rename` records its key
        as removed, spawns the immediate removal for it and rearms the slot, whatever entity
        it targets; any other event changes nothing here. This is the first step of
        `OnServiceCall`, which is where `Valid()` is required and re-established. */
    method OnCompletedUpdate(ev: ServiceEvent)
      modifies this`recentRemoves, this`directTasks, this`timers, this`pending, this`nextHandle
      ensures State() == AfterCompletion(old(State()), ev)
    {
      RearmsSnoc(pending, nextHandle, 0);
      if ev.service == TodoUpdateItem && ev.statusCompleted && ev.rename.Some? && ev.rename.value != "" {
        var key := Norm(ev.rename.value);
        assert CompletionKey(ev) == Some(key);
        recentRemoves := recentRemoves + {key};
        directTasks := directTasks + [key];
        RearmSlot();
      } else {
        assert timers + Rearms(pending, nextHandle, 0) == timers;
      }
    }

    /** Lines 143-170: an event that targets the Keep entity with a non-empty item records
        the item's key for `add_item` / `remove_item` and rearms the slot; any other event
        returns at line 158 and changes nothing here. This is the second step of
        `OnServiceCall`, which is where `Valid()` is required and re-established. */
    method OnTrackedEvent(ev: ServiceEvent)
      modifies this`recentAdds, this`recentRemoves, this`timers, this`pending, this`nextHandle
      ensures State() == AfterTracked(old(State()), ev, keepEntity)
    {
      RearmsSnoc(pending, nextHandle, 0);
      var item := ItemKey(ev.item);
      var entityIds := EntityList(ev.entityIds);
      if keepEntity.None? || keepEntity.value !in entityIds || item.None? || item.value == "" {
        assert TrackedKey(ev, keepEntity).None?;
        assert timers + Rearms(pending, nextHandle, 0) == timers;
        return;
      }
      assert TrackedKey(ev, keepEntity) == item;
      RecordKey(ev.service, item.value);
      RearmSlot();
    }

    /** Lines 159-162: an `add_item` records the key as added, a `remove_item` as removed,
        and any other service records nothing. The key is always a normalised one, so the
        ledger stays normalised. */
    method RecordKey(service: Service, key: string)
      requires IsKey(key)
      modifies this`recentAdds, this`recentRemoves
      ensures recentAdds == old(recentAdds) + (if service == TodoAddItem then {key} else {})
      ensures recentRemoves == old(recentRemoves) + (if service == TodoRemoveItem then {key} else {})
    {
      if service == TodoAddItem {
        recentAdds := recentAdds + {key};
      } else if service == TodoRemoveItem {
        recentRemoves := recentRemoves + {key};
      }
    }

    /** `_trigger_sensor_update(hass, lid)` (lines 11-31). */
    method TriggerSensorUpdate(lid: string)
      modifies this`calls
      ensures calls == old(calls) + SensorCalls(registry, lid)
    {
      var found := FindSensorEntity(registry, lid);
      if found.Some? && found.value != "" {
        calls := calls + [UpdateEntity(found.value)];
      }
    }

    /** The debounce timer fires `schedule_sync` (lines 62-105): the slot is emptied first
        (line 64), then the Keep -> ICA pass runs. */
    method FireDebounced(keepRead: Option<seq<KeepItem>>, lists: Option<seq<IcaList>>, ok: nat -> bool)
      requires Valid() && pending.Some?
      modifies this`pending, this`timers, this`calls
      ensures Valid() && pending.None? && Live(timers) == {}
      ensures timers == old(timers) + [Fire(old(pending).value)]
      ensures calls == old(calls) + SyncCalls(listId, registry, keepRead, lists, ok)
    {
      FireKeepsInvariant(timers, pending.value, nextHandle);
      timers := timers + [Fire(pending.value)];
      pending := None;
      ghost var fired := State();
      assert Invariant(fired);
      SyncKeepToIca(keepRead, lists, ok);
      assert State() == fired;
    }

    /** The body of `schedule_sync` after line 64: it issues `SyncCalls`; `keepRead` and
        `lists` are the answers of `todo.get_items` and `fetch_lists` (None: the call raised)
        and `ok(j)` is the answer of the `j`-th `add_to_list`. */
    method SyncKeepToIca(keepRead: Option<seq<KeepItem>>, lists: Option<seq<IcaList>>, ok: nat -> bool)
      modifies this`calls
      ensures calls == old(calls) + SyncCalls(listId, registry, keepRead, lists, ok)
    {
      if keepRead.None? {
        return;
      }
      var summaries := Take(Summaries(keepRead.value), MAX_KEEP_ITEMS);
      if lists.None? {
        return;
      }
      var rows := RowsOf(lists.value, listId);
      if |rows| >= MAX_ICA_ITEMS {
        assert SyncAdds(keepRead.value, rows) == [];
        return;
      }
      var toAdd := Take(NotOnIca(summaries, RowKeys(rows)), MAX_ICA_ITEMS - |rows|);
      assert toAdd == SyncAdds(keepRead.value, rows);
      var anyAdded := IcaAddEach(listId, toAdd, ok);
      if anyAdded {
        TriggerSensorUpdate(listId);
        AppendAssoc(old(calls), IcaAdds(listId, toAdd), SensorCalls(registry, listId));
      }
    }

    /** Add each text to the ICA list in turn, noting whether any add succeeded (lines
        94-99); `ok(j)` is the answer of the `j`-th call. */
    method IcaAddEach(lid: string, texts: seq<string>, ok: nat -> bool) returns (anyAdded: bool)
      modifies this`calls
      ensures calls == old(calls) + IcaAdds(lid, texts)
      ensures anyAdded <==> AnySucceeded(ok, |texts|)
    {
      anyAdded := false;
      var i := 0;
      while i < |texts|
        invariant 0 <= i <= |texts|
        invariant calls == old(calls) + IcaAdds(lid, texts[..i])
        invariant anyAdded <==> AnySucceeded(ok, i)
      {
        assert texts[..i + 1][..i] == texts[..i];
        calls := calls + [IcaAdd(lid, texts[i])];
        if ok(i) {
          anyAdded := true;
        }
        i := i + 1;
      }
      assert texts[..i] == texts;
    }

    /** The oldest waiting `remove_from_ica_direct` task runs (lines 121-135); `lists` is
        the answer of its `fetch_lists` (None: it raised). */
    method RunDirectRemoval(lists: Option<seq<IcaList>>)
      requires Valid() && directTasks != []
      modifies this`directTasks, this`calls
      ensures Valid()
      ensures directTasks == old(directTasks)[1..]
      ensures calls == old(calls) + DirectRemovalCalls(Some(old(directTasks)[0]), lists, listId)
    {
      var key := directTasks[0];
      directTasks := directTasks[1..];
      if lists.None? {
        return;
      }
      var index := RowIndex(RowsOf(lists.value, listId));
      if key in index && index[key] != "" {
        calls := calls + [IcaRemove(index[key])];
      }
    }

    /** Remove each row id from ICA in turn (lines 191-192). */
    method IcaRemoveEach(ids: seq<string>)
      modifies this`calls
      ensures calls == old(calls) + IcaRemoves(ids)
    {
      var i := 0;
      while i < |ids|
        invariant 0 <= i <= |ids|
        invariant calls == old(calls) + IcaRemoves(ids[..i])
      {
        assert ids[..i + 1][..i] == ids[..i];
        calls := calls + [IcaRemove(ids[i])];
        i := i + 1;
      }
      assert ids[..i] == ids;
    }

    /** For each key in turn, look up its row id and remove that row from ICA when the id
        is non-empty (lines 233-237). */
    method IcaRemoveEachKey(keys: seq<string>, index: map<string, string>)
      modifies this`calls
      ensures calls == old(calls) + IcaRemovesByKey(keys, index)
    {
      var i := 0;
      while i < |keys|
        invariant 0 <= i <= |keys|
        invariant calls == old(calls) + IcaRemovesByKey(keys[..i], index)
      {
        assert keys[..i + 1][..i] == keys[..i];
        if keys[i] in index && index[keys[i]] != "" {
          calls := calls + [IcaRemove(index[keys[i]])];
        }
        i := i + 1;
      }
      assert keys[..i] == keys;
    }

    /** Remove each text from Keep in turn (lines 225-230). */
    method KeepRemoveEach(texts: seq<string>)
      modifies this`calls
      ensures calls == old(calls) + KeepRemoves(texts)
    {
      var i := 0;
      while i < |texts|
        invariant 0 <= i <= |texts|
        invariant calls == old(calls) + KeepRemoves(texts[..i])
      {
        assert texts[..i + 1][..i] == texts[..i];
        calls := calls + [KeepRemove(texts[i])];
        i := i + 1;
      }
      assert texts[..i] == texts;
    }

    /** Remove each non-empty summary from Keep in turn, skipping empty ones (lines 267-273). */
    method KeepRemoveEachNonEmpty(summaries: seq<string>)
      modifies this`calls
      ensures calls == old(calls) + KeepRemoves(NonEmpty(summaries))
    {
      var i := 0;
      while i < |summaries|
        invariant 0 <= i <= |summaries|
        invariant calls == old(calls) + KeepRemoves(NonEmpty(summaries[..i]))
      {
        assert summaries[..i + 1][..i] == summaries[..i];
        if summaries[i] != "" {
          ghost var prev := NonEmpty(summaries[..i]);
          assert (prev + [summaries[i]])[..|prev|] == prev;
          calls := calls + [KeepRemove(summaries[i])];
        }
        i := i + 1;
      }
      assert summaries[..i] == summaries;
    }

    /** Add each text to Keep in turn (lines 254-259). */
    method KeepAddEach(texts: seq<string>)
      modifies this`calls
      ensures calls == old(calls) + KeepAdds(texts)
    {
      var i := 0;
      while i < |texts|
        invariant 0 <= i <= |texts|
        invariant calls == old(calls) + KeepAdds(texts[..i])
      {
        assert texts[..i + 1][..i] == texts[..i];
        calls := calls + [KeepAdd(texts[i])];
        i := i + 1;
      }
      assert texts[..i] == texts;
    }

    /** Lines 276-282: iterate the set `keys` in some order, removing the row each key maps
        to when its id is non-empty; the order taken is returned. */
    method IcaRemoveLedgerKeys(keys: set<string>, index: map<string, string>) returns (ghost order: seq<string>)
      modifies this`calls
      ensures Enumerates(order, keys)
      ensures calls == old(calls) + IcaRemovesByKey(order, index)
    {
      order := [];
      var remaining := keys;
      while remaining != {}
        invariant remaining <= keys
        invariant Enumerates(order, keys - remaining)
        invariant calls == old(calls) + IcaRemovesByKey(order, index)
        decreases remaining
      {
        var k :| k in remaining;
        IcaRemovesByKeySnoc(order, k, index);
        EnumeratesSnoc(order, keys - remaining, k);
        assert keys - (remaining - {k}) == (keys - remaining) + {k};
        if k in index && index[k] != "" {
          calls := calls + [IcaRemove(index[k])];
        }
        order := order + [k];
        remaining := remaining - {k};
      }
      assert keys - remaining == keys;
    }

    /** `handle_refresh` (lines 174-292): one full pass issues exactly what `Pass` says,
        for the order in which it iterated `recent_keep_removes`, and clears the ledger
        exactly when it reaches the end (lines 286-289). */
    method Refresh(lists: Option<seq<IcaList>>, keepRead: Option<seq<KeepItem>>) returns (ghost order: seq<string>)
      requires Valid()
      modifies this`calls, this`recentAdds, this`recentRemoves
      ensures Valid()
      ensures var out := Pass(listId, removeStriked, registry, lists, keepRead, old(recentRemoves), order);
              && calls == old(calls) + out.calls
              && recentAdds == (if out.cleared then {} else old(recentAdds))
              && recentRemoves == (if out.cleared then {} else old(recentRemoves))
      ensures lists.Some? && Pass(listId, removeStriked, registry, lists, keepRead, old(recentRemoves), order).cleared ==>
                Enumerates(order, LedgerKeysOnIca(old(recentRemoves),
                                                  RowIndex(Pruned(RowsOf(lists.value, listId), removeStriked))))
    {
      var completed;
      completed, order := RefreshPass(lists, keepRead);
      if completed {
        recentAdds := {};
        recentRemoves := {};
      }
    }

    /** Lines 177-284: the pass up to the point where the ledger is cleared; `completed`
        says whether it got there. */
    method RefreshPass(lists: Option<seq<IcaList>>, keepRead: Option<seq<KeepItem>>)
      returns (completed: bool, ghost order: seq<string>)
      modifies this`calls
      ensures var out := Pass(listId, removeStriked, registry, lists, keepRead, recentRemoves, order);
              calls == old(calls) + out.calls && completed == out.cleared
      ensures lists.Some? && completed ==>
                Enumerates(order, LedgerKeysOnIca(recentRemoves, RowIndex(Pruned(RowsOf(lists.value, listId), removeStriked))))
    {
      completed := false;
      order := [];
      if lists.None? {
        return;
      }
      var found := FindList(lists.value, listId);
      if found.None? {
        return;
      }
      var rows := found.value.rows;
      ghost var pre := StrikedRemovals(rows, removeStriked);
      if removeStriked {
        IcaRemoveEach(StrikedIds(rows));
        rows := WithoutIds(rows, StrikedIds(rows));
      }
      assert calls == old(calls) + pre;
      assert rows == Pruned(found.value.rows, removeStriked);
      if |rows| >= MAX_ICA_ITEMS {
        return;
      }
      if keepRead.None? {
        return;
      }
      order := ReconcileStores(rows, keepRead.value);
      AppendAssoc(old(calls), pre, Reconcile(rows, keepRead.value, recentRemoves, order, removeStriked, registry, listId));
      completed := true;
    }

    /** Lines 200-284, once the rows left after the clean-up fit and Keep has been read:
        the calls `Reconcile` lists, for the order in which `recent_keep_removes` is iterated. */
    method ReconcileStores(rows: seq<IcaRow>, items: seq<KeepItem>) returns (ghost order: seq<string>)
      modifies this`calls
      ensures Enumerates(order, LedgerKeysOnIca(recentRemoves, RowIndex(rows)))
      ensures calls == old(calls) + Reconcile(rows, items, recentRemoves, order, removeStriked, registry, listId)
    {
      var index := RowIndex(rows);
      var completed := CompletedKeys(items);
      if removeStriked {
        KeepRemoveEach(completed);
      }
      ghost var done := if removeStriked then KeepRemoves(completed) else [];
      assert calls == old(calls) + done;

      IcaRemoveEachKey(completed, index);
      AppendAssoc(old(calls), done, IcaRemovesByKey(completed, index));
      done := done + IcaRemovesByKey(completed, index);

      var toAdd := CollectNewForKeep(IcaTexts(rows), ItemKeys(items), recentRemoves);
      toAdd := CapForKeep(toAdd, |items|);
      KeepAddEach(toAdd);
      AppendAssoc(old(calls), done, KeepAdds(toAdd));
      done := done + KeepAdds(toAdd);

      var stale := StaleInKeep(items, RowKeys(rows));
      KeepRemoveEachNonEmpty(stale);
      AppendAssoc(old(calls), done, KeepRemoves(NonEmpty(stale)));
      done := done + KeepRemoves(NonEmpty(stale));

      order := IcaRemoveLedgerKeys(LedgerKeysOnIca(recentRemoves, index), index);
      AppendAssoc(old(calls), done, IcaRemovesByKey(order, index));
      done := done + IcaRemovesByKey(order, index);

      TriggerSensorUpdate(listId);
      AppendAssoc(old(calls), done, SensorCalls(registry, listId));
      done := done + SensorCalls(registry, listId);
      assert done == Reconcile(rows, items, recentRemoves, order, removeStriked, registry, listId);
    }

    /** `handle_add_item` (lines 296-328); `success` is the answer of `add_to_list`. */
    method AddItem(callListId: Option<string>, text: Option<string>, success: bool)
      modifies this`calls
      ensures calls == old(calls) + AddItemCalls(apiPresent, callListId, currentListId, text, registry, success)
    {
      if !apiPresent {
        return;
      }
      var lid := ChosenListId(callListId, currentListId);
      var t := if text.Some? then Some(Strip(text.value)) else None;
      if lid.None? {
        return;
      }
      if t.None? || t.value == "" {
        return;
      }
      calls := calls + [IcaAdd(lid.value, t.value)];
      if !success {
        return;
      }
      TriggerSensorUpdate(lid.value);
    }
  }

  /** The loop of lines 242-249 that builds `to_add`. */
  method CollectNewForKeep(icaTexts: seq<string>, keepKeys: seq<string>, recentRemoves: set<string>)
    returns (toAdd: seq<string>)
    ensures toAdd == NewForKeep(icaTexts, keepKeys, recentRemoves)
  {
    toAdd := [];
    var i := 0;
    while i < |icaTexts|
      invariant 0 <= i <= |icaTexts|
      invariant toAdd == NewForKeep(icaTexts[..i], keepKeys, recentRemoves)
    {
      assert icaTexts[..i + 1][..i] == icaTexts[..i];
      var key := Lower(icaTexts[i]);
      if key !in keepKeys && key !in recentRemoves {
        toAdd := toAdd + [icaTexts[i]];
      }
      i := i + 1;
    }
    assert icaTexts[..i] == icaTexts;
  }
}

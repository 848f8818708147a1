/** `call_service_listener` (custom_components/ica_shopping/__init__.py:107-170): how one
    intercepted service call changes the anti-echo ledger, how many times it rearms the
    debounce slot, and which ICA row the immediate removal task deletes. */
module Classifier {
  import opened Common
  import opened Text
  import opened Stores

  /** `service_data["entity_id"]`: one id or a list of ids; an absent value is the empty list. */
  datatype EntityIds = OneEntity(id: string) | Entities(ids: seq<string>)

  /** `service_data["item"]`: a text, a list of texts, or absent (any other value reads as absent). */
  datatype ItemArg = NoItem | ItemText(text: string) | ItemTexts(texts: seq<string>)

  /** `event.data["service"]`: the three todo services the listener tells apart, and any other. */
  datatype Service = TodoAddItem | TodoRemoveItem | TodoUpdateItem | OtherService

  /** The parts of a `call_service` event the listener reads: the service, the
      `entity_id`, `item`, `status` and `rename` fields of its data (`statusCompleted`:
      `status` is the text "completed"). The service's domain is not read by the
      listener, so it is not part of the event here. */
  datatype ServiceEvent = ServiceEvent(
    service: Service,
    entityIds: EntityIds,
    item: ItemArg,
    statusCompleted: bool,
    rename: Option<string>)

  /** The targeted entity ids as a list: a single id becomes a one-element list (lines 154-155). */
  function EntityList(ids: EntityIds): seq<string> {
    match ids
    case OneEntity(id) => [id]
    case Entities(ids) => ids
  }

  /** The event names the configured Keep entity; with none configured nothing is targeted. */
  predicate Targets(ev: ServiceEvent, keepEntity: Option<string>) {
    keepEntity.Some? && keepEntity.value in EntityList(ev.entityIds)
  }

  /** Lines 146-152: the normalised `item` text; for a list only its first element. */
  function ItemKey(item: ItemArg): (r: Option<string>)
    ensures r.Some? ==> IsKey(r.value)
  {
    match item
    case ItemText(t) => Some(Norm(t))
    case ItemTexts(ts) => if |ts| > 0 then Some(Norm(ts[0])) else None
    case NoItem => None
  }

  /** Lines 113-117: an `update_item` with status "completed" and a non-empty `rename`
      yields the normalised rename text, whatever entity it targets. */
  function CompletionKey(ev: ServiceEvent): Option<string> {
    if ev.service == TodoUpdateItem && ev.statusCompleted
       && ev.rename.Some? && ev.rename.value != ""
    then Some(Norm(ev.rename.value))
    else None
  }

  /** Lines 143-158: the key of an event that reaches the general path, i.e. one that
      targets the Keep entity and carries a non-empty normalised item. */
  function TrackedKey(ev: ServiceEvent, keepEntity: Option<string>): Option<string> {
    var k := ItemKey(ev.item);
    if Targets(ev, keepEntity) && k.Some? && k.value != "" then k else None
  }

  /** What one event does: keys added to `recent_keep_adds` and `recent_keep_removes`,
      the key of the spawned immediate-removal task (if one is spawned), and the number
      of times the debounce slot is rearmed. */
  datatype Reaction = Reaction(adds: set<string>, removes: set<string>, direct: Option<string>, arms: nat)

  /** The listener's decision for one event. The completed-update branch does not return,
      so an event can both take it and reach the general path, rearming twice. */
  function Classify(ev: ServiceEvent, keepEntity: Option<string>): Reaction {
    var completed := CompletionKey(ev);
    var tracked := TrackedKey(ev, keepEntity);
    Reaction(
      adds := if ev.service == TodoAddItem then KeySet(tracked) else {},
      removes := KeySet(completed) + (if ev.service == TodoRemoveItem then KeySet(tracked) else {}),
      direct := completed,
      arms := Count(completed) + Count(tracked))
  }

  /** The keys an optional key contributes to a ledger set. */
  function KeySet(k: Option<string>): set<string> {
    if k.Some? then {k.value} else {}
  }

  /** One rearm per key present. */
  function Count(k: Option<string>): nat {
    if k.Some? then 1 else 0
  }

  /** Every recorded key is normalised; the immediate removal is keyed by a key the event
      also records as removed; an event rearms at most twice, and not at all exactly when
      it neither completes an item nor reaches the general path; only an `add_item` on the
      Keep entity records an add, and only a `remove_item` on it records a removal other
      than the completed item. */
  lemma ClassifyReaction(ev: ServiceEvent, keepEntity: Option<string>)
    ensures var r := Classify(ev, keepEntity);
            && (forall k :: k in r.adds ==> IsKey(k))
            && (forall k :: k in r.removes ==> IsKey(k))
            && (r.direct.Some? ==> IsKey(r.direct.value) && r.direct.value in r.removes)
            && r.arms <= 2
            && (r.arms == 0 <==>
                  r.adds == {} && r.removes == {} && r.direct.None?
                  && CompletionKey(ev).None? && TrackedKey(ev, keepEntity).None?)
            && (r.adds != {} ==> ev.service == TodoAddItem && Targets(ev, keepEntity))
            && (r.removes - (if r.direct.Some? then {r.direct.value} else {}) != {} ==>
                  ev.service == TodoRemoveItem && Targets(ev, keepEntity))
  {
  }

  /** The other direction: an `add_item` or `remove_item` on the Keep entity whose item has
      a non-empty key records exactly that key in its ledger set, and rearms once more than
      the completion alone would; any other service on it records nothing but still rearms. */
  lemma TrackedEventRecordsKey(ev: ServiceEvent, keepEntity: Option<string>, k: string)
    requires Targets(ev, keepEntity) && ItemKey(ev.item) == Some(k) && k != ""
    ensures var r := Classify(ev, keepEntity);
            && r.adds == (if ev.service == TodoAddItem then {k} else {})
            && (ev.service == TodoRemoveItem ==> k in r.removes)
            && r.removes == KeySet(CompletionKey(ev)) + (if ev.service == TodoRemoveItem then {k} else {})
            && r.arms == 1 + Count(CompletionKey(ev))
  {
  }

  /** An event that is not a completed update and does not reach the general path
      leaves the ledger and the debounce slot alone. */
  lemma IgnoredEventChangesNothing(ev: ServiceEvent, keepEntity: Option<string>)
    requires CompletionKey(ev).None?
    requires !Targets(ev, keepEntity) || ItemKey(ev.item).None? || ItemKey(ev.item) == Some("")
    ensures Classify(ev, keepEntity) == Reaction({}, {}, None, 0)
  {
  }

  /** A list-valued `item` is keyed by its first element only. */
  lemma ListItemUsesFirstElement(ev: ServiceEvent, keepEntity: Option<string>, ts: seq<string>)
    requires ev.item == ItemTexts(ts) && |ts| > 0 && Norm(ts[0]) != ""
    requires Targets(ev, keepEntity) && ev.service == TodoAddItem
    ensures Classify(ev, keepEntity).adds == {Norm(ts[0])}
    ensures Classify(ev, keepEntity).arms == 1
  {
  }

  /** A completed update marks its key removed even when it targets another todo entity,
      and it rearms again when it also targets the Keep entity with an item. */
  lemma CompletedUpdateIgnoresTarget(ev: ServiceEvent, keepEntity: Option<string>, k: string)
    requires CompletionKey(ev) == Some(k)
    ensures k in Classify(ev, keepEntity).removes
    ensures Classify(ev, keepEntity).arms == if TrackedKey(ev, keepEntity).Some? then 2 else 1
  {
  }

  /** `remove_from_ica_direct`: look the key up in the index of the configured list's rows
      and remove the row it maps to when that id is non-empty (lines 121-135). */
  function DirectRemovalCalls(key: Option<string>, lists: Option<seq<IcaList>>, listId: string): seq<Call> {
    match lists
    case None => []
    case Some(ls) =>
      var index := RowIndex(RowsOf(ls, listId));
      if key.Some? && key.value in index && index[key.value] != "" then [IcaRemove(index[key.value])] else []
  }

  /** The immediate removal deletes a row exactly when some row of the configured list has
      the key and the last such row has a non-empty id, and then it deletes that row. */
  lemma DirectRemovalDeletesLastRowWithKey(k: string, ls: seq<IcaList>, listId: string)
    ensures DirectRemovalCalls(Some(k), Some(ls), listId) != [] <==>
              exists i :: LastWithKey(RowsOf(ls, listId), k, i) && RowsOf(ls, listId)[i].id != ""
    ensures forall c :: c in DirectRemovalCalls(Some(k), Some(ls), listId) ==>
              exists i :: LastWithKey(RowsOf(ls, listId), k, i) && c == IcaRemove(RowsOf(ls, listId)[i].id)
  {
    var rows := RowsOf(ls, listId);
    RowIndexHasEveryKey(rows);
    RowIndexLastWins(rows);
    forall i, j | LastWithKey(rows, k, i) && LastWithKey(rows, k, j) ensures i == j {
    }
  }

  /** As written, the task spawned at line 137 reads the variable `item` only when it runs,
      after line 146 has rebound it to the normalised `item` field of the event: this is
      the key it looks up. */
  function LateBoundLookupKey(ev: ServiceEvent): Option<string> {
    ItemKey(ev.item)
  }

  /** The key the task as written looks up does not depend on the completed text at all:
      changing `rename` leaves it unchanged, and a completed update without an `item`
      field looks up nothing, so its task never removes a row, whatever the list holds. */
  lemma LateBoundKeyIgnoresRename(ev: ServiceEvent, rename: Option<string>, lists: Option<seq<IcaList>>, listId: string)
    ensures LateBoundLookupKey(ev.(rename := rename)) == LateBoundLookupKey(ev)
    ensures LateBoundLookupKey(ev).Some? ==> IsKey(LateBoundLookupKey(ev).value)
    ensures ev.item == NoItem ==> DirectRemovalCalls(LateBoundLookupKey(ev), lists, listId) == []
    ensures ev.item == NoItem && CompletionKey(ev).Some? ==> Classify(ev, None).direct.Some?
  {
  }

  /** Completing "Milk" through an `update_item` whose `item` is the todo item's uid: the
      key marked removed is "milk" and the ICA list has a "milk" row, yet the task as
      written looks up the uid and removes nothing; keyed by the completed text, the
      same task removes the row. */
  lemma LateBindingMissesCompletedRow()
    ensures var ev := ServiceEvent(TodoUpdateItem, OneEntity("todo.keep"), ItemText("a1"), true, Some("Milk"));
            var lists := Some([IcaList("L", [IcaRow("17", "milk", false)])]);
            && "milk" in Classify(ev, Some("todo.keep")).removes
            && DirectRemovalCalls(LateBoundLookupKey(ev), lists, "L") == []
            && DirectRemovalCalls(Classify(ev, Some("todo.keep")).direct, lists, "L") == [IcaRemove("17")]
  {
    assert Strip("Milk") == "Milk";
    assert Lower("Milk") == "milk";
    assert Strip("milk") == "milk";
    assert Lower("milk") == "milk";
    assert Strip("a1") == "a1";
    assert Lower("a1") == "a1";
    var rows := [IcaRow("17", "milk", false)];
    assert rows[..0] == [];
    assert RowIndex(rows) == map["milk" := "17"];
  }

  /** The immediate removal a completed update spawns is keyed by the completed text, the
      same key the update records in `recent_keep_removes`. */
  lemma DirectRemovalTargetsCompletedItem(ev: ServiceEvent, keepEntity: Option<string>, k: string)
    requires CompletionKey(ev) == Some(k)
    ensures Classify(ev, keepEntity).direct == Some(k)
    ensures k in Classify(ev, keepEntity).removes
    ensures Norm(k) == k
  {
    NormIdempotent(ev.rename.value);
  }
}

/** `handle_refresh` (custom_components/ica_shopping/__init__.py:174-292): the full
    bidirectional pass, as the sequence of calls it issues and whether it reaches the end,
    where the anti-echo ledger is cleared. */
module FullPass {
  import opened Common
  import opened Text
  import opened Stores
  import opened Sensor

  /** The ids of the striked rows that have an id, in row order (line 190): the ids the
      loop of line 191 removes. */
  function StrikedIds(rows: seq<IcaRow>): (r: seq<string>)
    ensures forall id :: id in r <==> id != "" && exists i :: 0 <= i < |rows| && rows[i].isStriked && rows[i].id == id
    decreases |rows|
  {
    if rows == [] then []
    else
      var before := rows[..|rows| - 1];
      var last := rows[|rows| - 1];
      var prev := StrikedIds(before);
      assert forall i :: 0 <= i < |before| ==> before[i] == rows[i];
      if last.isStriked && last.id != "" then prev + [last.id] else prev
  }

  /** The rows whose id is not among the removed ids, in order (line 194). */
  function WithoutIds(rows: seq<IcaRow>, ids: seq<string>): (r: seq<IcaRow>)
    ensures IsSubseq(r, rows)
    ensures forall row :: row in r <==> row in rows && row.id !in ids
    decreases |rows|
  {
    if rows == [] then []
    else
      var before := rows[..|rows| - 1];
      var last := rows[|rows| - 1];
      var prev := WithoutIds(before, ids);
      assert rows == before + [last];
      if last.id !in ids then
        assert (prev + [last])[..|prev|] == prev;
        prev + [last]
      else prev
  }

  /** `ica_items` (line 200): the stripped text of each row. */
  function IcaTexts(rows: seq<IcaRow>): (r: seq<string>)
    ensures |r| == |rows|
  {
    seq(|rows|, i requires 0 <= i < |rows| => Strip(rows[i].text))
  }

  /** `keep_completed` (lines 218-222): the keys of the completed Keep items, in order. */
  function CompletedKeys(items: seq<KeepItem>): (r: seq<string>)
    ensures forall k :: k in r <==> exists i :: 0 <= i < |items| && items[i].status == Completed && Norm(items[i].summary) == k
    decreases |items|
  {
    if items == [] then []
    else
      var before := items[..|items| - 1];
      var last := items[|items| - 1];
      var prev := CompletedKeys(before);
      assert forall i :: 0 <= i < |before| ==> before[i] == items[i];
      if last.status == Completed then prev + [Norm(last.summary)] else prev
  }

  /** `to_add` as the loop of lines 242-249 builds it: the stripped ICA texts whose
      lower-case form is neither among the Keep keys nor in `recent_keep_removes`. */
  function NewForKeep(icaTexts: seq<string>, keepKeys: seq<string>, recentRemoves: set<string>): (r: seq<string>)
    ensures IsSubseq(r, icaTexts)
    ensures forall t :: t in r <==> t in icaTexts && Lower(t) !in keepKeys && Lower(t) !in recentRemoves
    decreases |icaTexts|
  {
    if icaTexts == [] then []
    else
      var before := icaTexts[..|icaTexts| - 1];
      var t := icaTexts[|icaTexts| - 1];
      var prev := NewForKeep(before, keepKeys, recentRemoves);
      assert icaTexts == before + [t];
      if Lower(t) !in keepKeys && Lower(t) !in recentRemoves then
        assert (prev + [t])[..|prev|] == prev;
        prev + [t]
      else prev
  }

  /** `to_remove_from_keep` (lines 262-265): the ORIGINAL summaries of the Keep items whose
      key is not among the rows' keys, in Keep order. */
  function StaleInKeep(items: seq<KeepItem>, icaKeys: seq<string>): (r: seq<string>)
    ensures forall s :: s in r <==> exists i :: 0 <= i < |items| && items[i].summary == s && Norm(s) !in icaKeys
    decreases |items|
  {
    if items == [] then []
    else
      var before := items[..|items| - 1];
      var last := items[|items| - 1];
      var prev := StaleInKeep(before, icaKeys);
      assert forall i :: 0 <= i < |before| ==> before[i] == items[i];
      if Norm(last.summary) !in icaKeys then prev + [last.summary] else prev
  }

  function RowIds(rows: seq<IcaRow>): seq<string> {
    seq(|rows|, i requires 0 <= i < |rows| => rows[i].id)
  }

  function StrikedMask(rows: seq<IcaRow>): seq<bool> {
    seq(|rows|, i requires 0 <= i < |rows| => rows[i].isStriked && rows[i].id != "")
  }

  /** One id per striked row that has an id, in row order: two striked rows with the same
      id give two removals. */
  lemma {:induction false} StrikedIdsPicks(rows: seq<IcaRow>)
    ensures Picks(StrikedIds(rows), RowIds(rows), StrikedMask(rows))
    decreases |rows|
  {
    if rows == [] {
      PicksNil<string>();
      assert RowIds(rows) == [] && StrikedMask(rows) == [];
    } else {
      var before, last := rows[..|rows| - 1], rows[|rows| - 1];
      StrikedIdsPicks(before);
      var b := last.isStriked && last.id != "";
      PicksSnoc(StrikedIds(before), RowIds(before), StrikedMask(before), last.id, b);
      assert RowIds(before) + [last.id] == RowIds(rows);
      assert StrikedMask(before) + [b] == StrikedMask(rows);
      assert StrikedIds(rows) == StrikedIds(before) + (if b then [last.id] else []);
    }
  }

  function KeptMask(rows: seq<IcaRow>, ids: seq<string>): seq<bool> {
    seq(|rows|, i requires 0 <= i < |rows| => rows[i].id !in ids)
  }

  /** Every row whose id is not removed stays, duplicates included, in order: the rows the
      guard of line 196 counts. */
  lemma {:induction false} WithoutIdsPicks(rows: seq<IcaRow>, ids: seq<string>)
    ensures Picks(WithoutIds(rows, ids), rows, KeptMask(rows, ids))
    decreases |rows|
  {
    if rows == [] {
      PicksNil<IcaRow>();
      assert KeptMask(rows, ids) == [];
    } else {
      var before, last := rows[..|rows| - 1], rows[|rows| - 1];
      WithoutIdsPicks(before, ids);
      assert rows == before + [last];
      var b := last.id !in ids;
      PicksSnoc(WithoutIds(before, ids), before, KeptMask(before, ids), last, b);
      assert KeptMask(before, ids) + [b] == KeptMask(rows, ids);
      assert WithoutIds(rows, ids) == WithoutIds(before, ids) + (if b then [last] else []);
    }
  }

  function CompletedMask(items: seq<KeepItem>): seq<bool> {
    seq(|items|, i requires 0 <= i < |items| => items[i].status == Completed)
  }

  /** One key per completed Keep item, in Keep order: two completed items with the same
      key give the key twice, and each occurrence is removed on its own. */
  lemma {:induction false} CompletedKeysPicks(items: seq<KeepItem>)
    ensures Picks(CompletedKeys(items), ItemKeys(items), CompletedMask(items))
    decreases |items|
  {
    if items == [] {
      PicksNil<string>();
      assert ItemKeys(items) == [] && CompletedMask(items) == [];
    } else {
      var before, last := items[..|items| - 1], items[|items| - 1];
      CompletedKeysPicks(before);
      var b := last.status == Completed;
      PicksSnoc(CompletedKeys(before), ItemKeys(before), CompletedMask(before), Norm(last.summary), b);
      assert ItemKeys(before) + [Norm(last.summary)] == ItemKeys(items);
      assert CompletedMask(before) + [b] == CompletedMask(items);
      assert CompletedKeys(items) == CompletedKeys(before) + (if b then [Norm(last.summary)] else []);
    }
  }

  function NewForKeepMask(icaTexts: seq<string>, keepKeys: seq<string>, recentRemoves: set<string>): seq<bool> {
    seq(|icaTexts|, i requires 0 <= i < |icaTexts| =>
      Lower(icaTexts[i]) !in keepKeys && Lower(icaTexts[i]) !in recentRemoves)
  }

  /** `to_add` holds each ICA text that passes the test, every occurrence of it, in order. */
  lemma {:induction false} NewForKeepPicks(icaTexts: seq<string>, keepKeys: seq<string>, recentRemoves: set<string>)
    ensures Picks(NewForKeep(icaTexts, keepKeys, recentRemoves), icaTexts, NewForKeepMask(icaTexts, keepKeys, recentRemoves))
    decreases |icaTexts|
  {
    if icaTexts == [] {
      PicksNil<string>();
      assert NewForKeepMask(icaTexts, keepKeys, recentRemoves) == [];
    } else {
      var before, t := icaTexts[..|icaTexts| - 1], icaTexts[|icaTexts| - 1];
      NewForKeepPicks(before, keepKeys, recentRemoves);
      assert icaTexts == before + [t];
      var b := Lower(t) !in keepKeys && Lower(t) !in recentRemoves;
      PicksSnoc(NewForKeep(before, keepKeys, recentRemoves), before, NewForKeepMask(before, keepKeys, recentRemoves), t, b);
      assert NewForKeepMask(before, keepKeys, recentRemoves) + [b] == NewForKeepMask(icaTexts, keepKeys, recentRemoves);
      assert NewForKeep(icaTexts, keepKeys, recentRemoves) == NewForKeep(before, keepKeys, recentRemoves) + (if b then [t] else []);
    }
  }

  /** The summaries as Keep holds them, unstripped. */
  function RawSummaries(items: seq<KeepItem>): seq<string> {
    seq(|items|, i requires 0 <= i < |items| => items[i].summary)
  }

  function StaleMask(items: seq<KeepItem>, icaKeys: seq<string>): seq<bool> {
    seq(|items|, i requires 0 <= i < |items| => Norm(items[i].summary) !in icaKeys)
  }

  /** One original summary per Keep item whose key is not on ICA, in Keep order. */
  lemma {:induction false} StaleInKeepPicks(items: seq<KeepItem>, icaKeys: seq<string>)
    ensures Picks(StaleInKeep(items, icaKeys), RawSummaries(items), StaleMask(items, icaKeys))
    decreases |items|
  {
    if items == [] {
      PicksNil<string>();
      assert RawSummaries(items) == [] && StaleMask(items, icaKeys) == [];
    } else {
      var before, last := items[..|items| - 1], items[|items| - 1];
      StaleInKeepPicks(before, icaKeys);
      var b := Norm(last.summary) !in icaKeys;
      PicksSnoc(StaleInKeep(before, icaKeys), RawSummaries(before), StaleMask(before, icaKeys), last.summary, b);
      assert RawSummaries(before) + [last.summary] == RawSummaries(items);
      assert StaleMask(before, icaKeys) + [b] == StaleMask(items, icaKeys);
      assert StaleInKeep(items, icaKeys) == StaleInKeep(before, icaKeys) + (if b then [last.summary] else []);
    }
  }

  /** `to_remove_from_ica` (line 276): the ledger's removed keys that the index still holds. */
  function LedgerKeysOnIca(recentRemoves: set<string>, index: map<string, string>): set<string> {
    set k | k in recentRemoves && k in index
  }

  /** `order` lists every key of `keys` exactly once: one iteration order of a Python set. */
  ghost predicate Enumerates(order: seq<string>, keys: set<string>) {
    && (forall k :: k in order <==> k in keys)
    && (forall i, j :: 0 <= i < j < |order| ==> order[i] != order[j])
  }

  /** Taking one more key not yet taken extends an enumeration by that key. */
  lemma EnumeratesSnoc(order: seq<string>, keys: set<string>, k: string)
    requires Enumerates(order, keys) && k !in keys
    ensures Enumerates(order + [k], keys + {k})
  {
  }

  /** Python's `s[:n]` for any integer `n`: a negative `n` drops the last `-n` elements. */
  function PySliceTo<T>(s: seq<T>, n: int): seq<T> {
    if n >= 0 then Take(s, n)
    else if |s| + n >= 0 then s[..|s| + n]
    else []
  }

  /** Lines 251-252 as written: `to_add` sliced up to MAX_ICA_ITEMS minus the number of
      Keep items, a bound that turns negative once Keep holds more than MAX_ICA_ITEMS. */
  function CapAsWritten(toAdd: seq<string>, keepCount: nat): seq<string> {
    PySliceTo(toAdd, MAX_ICA_ITEMS - keepCount)
  }

  /** The room the cap of line 251 evidently means: what is left below MAX_ICA_ITEMS, never negative. */
  function KeepRoom(keepCount: nat): nat {
    if keepCount < MAX_ICA_ITEMS then MAX_ICA_ITEMS - keepCount else 0
  }

  /** The cap with the room clamped at zero: the first texts of `toAdd`, as many as fit
      below MAX_ICA_ITEMS Keep items (all of them when they fit), and none when Keep is
      already there. */
  function CapForKeep(toAdd: seq<string>, keepCount: nat): (r: seq<string>)
    ensures |r| <= |toAdd| && r == toAdd[..|r|]
    ensures |r| == KeepRoom(keepCount) || r == toAdd
    ensures keepCount >= MAX_ICA_ITEMS ==> r == []
    ensures keepCount + |r| <= MAX_ICA_ITEMS || r == []
    ensures keepCount + |toAdd| <= MAX_ICA_ITEMS ==> r == toAdd
  {
    Take(toAdd, KeepRoom(keepCount))
  }

  /** With 260 Keep items the room is -10, and Python's slice still passes all but the last
      ten new texts: eleven new ICA texts put one more item on an over-full Keep list. */
  lemma NegativeRoomStillAdds()
    ensures var toAdd := ["a", "b", "c", "d", "e", "f", "g", "h", "i", "j", "k"];
            CapAsWritten(toAdd, 260) == ["a"] && CapForKeep(toAdd, 260) == []
  {
  }

  /** Whenever Keep holds at most MAX_ICA_ITEMS items the written cap and the clamped one agree. */
  lemma CapAgreesWithinRoom(toAdd: seq<string>, keepCount: nat)
    requires keepCount <= MAX_ICA_ITEMS
    ensures CapAsWritten(toAdd, keepCount) == CapForKeep(toAdd, keepCount)
  {
  }

  /** The result of one pass: the calls it issued and whether it reached the end (line 286),
      where `recent_keep_adds` and `recent_keep_removes` are cleared. */
  datatype Outcome = Outcome(calls: seq<Call>, cleared: bool)

  /** The rows the pass keeps working on after the striked clean-up (lines 189-194). */
  function Pruned(rows: seq<IcaRow>, removeStriked: bool): seq<IcaRow> {
    if removeStriked then WithoutIds(rows, StrikedIds(rows)) else rows
  }

  function StrikedRemovals(rows: seq<IcaRow>, removeStriked: bool): seq<Call> {
    if removeStriked then IcaRemoves(StrikedIds(rows)) else []
  }

  /** The texts the pass adds to Keep (lines 242-252, with the clamped cap). */
  function KeepAdditions(rows: seq<IcaRow>, items: seq<KeepItem>, recentRemoves: set<string>): seq<string> {
    CapForKeep(NewForKeep(IcaTexts(rows), ItemKeys(items), recentRemoves), |items|)
  }

  /** The calls of lines 224-284, once both stores have been read; `order` is the order in
      which the set `recent_keep_removes` is iterated at line 276. */
  function Reconcile(rows: seq<IcaRow>, items: seq<KeepItem>, recentRemoves: set<string>, order: seq<string>,
                     removeStriked: bool, registry: seq<RegistryEntry>, listId: string): seq<Call>
  {
    var index := RowIndex(rows);
    var completed := CompletedKeys(items);
    (if removeStriked then KeepRemoves(completed) else [])
    + IcaRemovesByKey(completed, index)
    + KeepAdds(KeepAdditions(rows, items, recentRemoves))
    + KeepRemoves(NonEmpty(StaleInKeep(items, RowKeys(rows))))
    + IcaRemovesByKey(order, index)
    + SensorCalls(registry, listId)
  }

  /** One full pass. `lists` and `keepRead` are the answers of `fetch_lists` and
      `todo.get_items` (None: the call raised, which ends the pass at that point). */
  function Pass(listId: string, removeStriked: bool, registry: seq<RegistryEntry>,
                lists: Option<seq<IcaList>>, keepRead: Option<seq<KeepItem>>,
                recentRemoves: set<string>, order: seq<string>): Outcome
  {
    match lists
    case None => Outcome([], false)
    case Some(ls) =>
      match FindList(ls, listId)
      case None => Outcome([], false)
      case Some(l) =>
        var pre := StrikedRemovals(l.rows, removeStriked);
        var rows := Pruned(l.rows, removeStriked);
        if |rows| >= MAX_ICA_ITEMS then Outcome(pre, false)
        else
          match keepRead
          case None => Outcome(pre, false)
          case Some(items) =>
            Outcome(pre + Reconcile(rows, items, recentRemoves, order, removeStriked, registry, listId), true)
  }

  /** Without the configured list the pass issues nothing and keeps the ledger. */
  lemma MissingListIssuesNothing(listId: string, removeStriked: bool, registry: seq<RegistryEntry>,
                                 lists: Option<seq<IcaList>>, keepRead: Option<seq<KeepItem>>,
                                 recentRemoves: set<string>, order: seq<string>)
    requires lists.None? || FindList(lists.value, listId).None?
    ensures Pass(listId, removeStriked, registry, lists, keepRead, recentRemoves, order) == Outcome([], false)
  {
  }

  /** With `remove_striked`, the pass first removes every striked row that has an id, and
      the rows it goes on with contain no such row: the capacity guard sees only the rest. */
  lemma StrikedRowsRemovedFirst(rows: seq<IcaRow>)
    ensures forall row :: row in rows && row.isStriked && row.id != "" ==> IcaRemove(row.id) in StrikedRemovals(rows, true)
    ensures forall row :: row in Pruned(rows, true) ==> row in rows && !(row.isStriked && row.id != "")
    ensures IsSubseq(Pruned(rows, true), rows)
  {
    var ids := StrikedIds(rows);
    forall row | row in rows && row.isStriked && row.id != "" ensures IcaRemove(row.id) in StrikedRemovals(rows, true) {
      var i :| 0 <= i < |rows| && rows[i] == row;
      assert row.id in ids;
      var j :| 0 <= j < |ids| && ids[j] == row.id;
      assert IcaRemoves(ids)[j] == IcaRemove(row.id);
    }
    forall row | row in Pruned(rows, true) ensures row in rows && !(row.isStriked && row.id != "") {
      assert row.id !in ids;
      var i :| 0 <= i < |rows| && rows[i] == row;
    }
  }

  /** When the rows left after the clean-up fill the list, the pass stops there: it issues
      only the striked removals, never reads or changes Keep, and keeps the ledger. */
  lemma FullListStopsBeforeKeep(listId: string, removeStriked: bool, registry: seq<RegistryEntry>,
                                ls: seq<IcaList>, keepRead: Option<seq<KeepItem>>,
                                recentRemoves: set<string>, order: seq<string>)
    requires FindList(ls, listId).Some?
    requires |Pruned(FindList(ls, listId).value.rows, removeStriked)| >= MAX_ICA_ITEMS
    ensures var out := Pass(listId, removeStriked, registry, Some(ls), keepRead, recentRemoves, order);
            && !out.cleared
            && out.calls == StrikedRemovals(FindList(ls, listId).value.rows, removeStriked)
            && forall c :: c in out.calls ==> c.IcaRemove?
  {
  }

  /** Anti-echo: every text the pass adds to Keep is a stripped ICA text whose key is
      neither on Keep nor in `recent_keep_removes`; the texts are the first of the filtered
      ICA texts, in ICA order, as many as fit below MAX_ICA_ITEMS Keep items. */
  lemma KeepAdditionsAntiEcho(rows: seq<IcaRow>, items: seq<KeepItem>, recentRemoves: set<string>)
    ensures var adds := KeepAdditions(rows, items, recentRemoves);
            && (forall t :: t in adds ==> Strip(t) == t && Norm(t) !in ItemKeys(items) && Norm(t) !in recentRemoves)
            && adds == NewForKeep(IcaTexts(rows), ItemKeys(items), recentRemoves)[..|adds|]
            && IsSubseq(adds, IcaTexts(rows))
            && (|items| + |adds| <= MAX_ICA_ITEMS || adds == [])
            && (|adds| == KeepRoom(|items|) || adds == NewForKeep(IcaTexts(rows), ItemKeys(items), recentRemoves))
  {
    var texts := IcaTexts(rows);
    var candidates := NewForKeep(texts, ItemKeys(items), recentRemoves);
    var adds := KeepAdditions(rows, items, recentRemoves);
    PrefixOfSubseq(candidates, texts, |adds|);
    forall t | t in adds ensures Strip(t) == t && Norm(t) !in ItemKeys(items) && Norm(t) !in recentRemoves {
      var i :| 0 <= i < |adds| && adds[i] == t;
      assert candidates[i] == t;
      assert t in candidates;
      assert t in texts;
      var j :| 0 <= j < |texts| && texts[j] == t;
      StripIdempotent(rows[j].text);
    }
  }

  /** The only Keep additions a completed pass issues are those texts, in that order. */
  lemma PassAddsToKeepOnlyAdditions(listId: string, removeStriked: bool, registry: seq<RegistryEntry>,
                                    rows: seq<IcaRow>, items: seq<KeepItem>,
                                    recentRemoves: set<string>, order: seq<string>)
    ensures var calls := Reconcile(rows, items, recentRemoves, order, removeStriked, registry, listId);
            forall c :: c in calls && c.KeepAdd? ==> c.item in KeepAdditions(rows, items, recentRemoves)
  {
    var index := RowIndex(rows);
    var completed := CompletedKeys(items);
    var adds := KeepAdditions(rows, items, recentRemoves);
    var stale := NonEmpty(StaleInKeep(items, RowKeys(rows)));
    KeepRemovesOnlyRemove(completed);
    KeepRemovesOnlyRemove(stale);
    SensorCallsFirstMatch(registry, listId);
    var calls := Reconcile(rows, items, recentRemoves, order, removeStriked, registry, listId);
    forall c | c in calls && c.KeepAdd? ensures c.item in adds {
      assert c in KeepAdds(adds);
      var i :| 0 <= i < |adds| && KeepAdds(adds)[i] == c;
    }
  }

  /** `to_remove_from_keep` is exactly the Keep summaries, as written in Keep, whose key is
      not among the rows' keys; each non-empty one is removed from Keep by a completed pass. */
  lemma StaleKeepItemsRemoved(listId: string, removeStriked: bool, registry: seq<RegistryEntry>,
                              rows: seq<IcaRow>, items: seq<KeepItem>,
                              recentRemoves: set<string>, order: seq<string>)
    ensures forall s :: s in StaleInKeep(items, RowKeys(rows)) <==>
              exists i :: 0 <= i < |items| && items[i].summary == s && Norm(s) !in RowKeys(rows)
    ensures forall i :: 0 <= i < |items| && items[i].summary != "" && Norm(items[i].summary) !in RowKeys(rows) ==>
              KeepRemove(items[i].summary) in Reconcile(rows, items, recentRemoves, order, removeStriked, registry, listId)
  {
    var stale := NonEmpty(StaleInKeep(items, RowKeys(rows)));
    NonEmptyKeepsNonEmpty(StaleInKeep(items, RowKeys(rows)));
    forall i | 0 <= i < |items| && items[i].summary != "" && Norm(items[i].summary) !in RowKeys(rows)
      ensures KeepRemove(items[i].summary) in Reconcile(rows, items, recentRemoves, order, removeStriked, registry, listId)
    {
      var s := items[i].summary;
      assert s in stale;
      var j :| 0 <= j < |stale| && stale[j] == s;
      assert KeepRemoves(stale)[j] == KeepRemove(s);
    }
  }

  /** Keep deletions reach ICA: for each key of `recent_keep_removes` that the index holds
      with a non-empty id, a completed pass removes that row, whatever the set's order; and
      the removals of line 281 are only such rows. */
  lemma LedgerRemovalsReachIca(listId: string, removeStriked: bool, registry: seq<RegistryEntry>,
                               rows: seq<IcaRow>, items: seq<KeepItem>,
                               recentRemoves: set<string>, order: seq<string>)
    requires Enumerates(order, LedgerKeysOnIca(recentRemoves, RowIndex(rows)))
    ensures var index := RowIndex(rows);
            forall k :: k in recentRemoves && k in index && index[k] != "" ==>
              IcaRemove(index[k]) in Reconcile(rows, items, recentRemoves, order, removeStriked, registry, listId)
    ensures var index := RowIndex(rows);
            forall c :: c in IcaRemovesByKey(order, index) ==>
              exists k :: k in recentRemoves && k in index && c == IcaRemove(index[k]) && index[k] != ""
  {
    var index := RowIndex(rows);
    forall k | k in recentRemoves && k in index && index[k] != ""
      ensures IcaRemove(index[k]) in Reconcile(rows, items, recentRemoves, order, removeStriked, registry, listId)
    {
      assert k in LedgerKeysOnIca(recentRemoves, index);
      assert IcaRemove(index[k]) in IcaRemovesByKey(order, index);
    }
  }

  /** Completed Keep items are removed from ICA whether or not `remove_striked` is set
      (lines 233-237), while only `remove_striked` removes them from Keep (lines 224-230). */
  lemma CompletedRemovedFromIcaRegardless(listId: string, removeStriked: bool, registry: seq<RegistryEntry>,
                                          rows: seq<IcaRow>, items: seq<KeepItem>,
                                          recentRemoves: set<string>, order: seq<string>)
    ensures var index := RowIndex(rows);
            forall i :: 0 <= i < |items| && items[i].status == Completed
                        && Norm(items[i].summary) in index && index[Norm(items[i].summary)] != "" ==>
              IcaRemove(index[Norm(items[i].summary)]) in Reconcile(rows, items, recentRemoves, order, removeStriked, registry, listId)
    ensures removeStriked ==>
              forall i :: 0 <= i < |items| && items[i].status == Completed ==>
                KeepRemove(Norm(items[i].summary)) in Reconcile(rows, items, recentRemoves, order, removeStriked, registry, listId)
  {
    var index := RowIndex(rows);
    var completed := CompletedKeys(items);
    forall i | 0 <= i < |items| && items[i].status == Completed
      ensures Norm(items[i].summary) in completed
    {
    }
    if removeStriked {
      forall i | 0 <= i < |items| && items[i].status == Completed
        ensures KeepRemove(Norm(items[i].summary)) in KeepRemoves(completed)
      {
        var j :| 0 <= j < |completed| && completed[j] == Norm(items[i].summary);
        assert KeepRemoves(completed)[j] == KeepRemove(Norm(items[i].summary));
      }
    }
  }

  /** The ledger is cleared exactly when the pass gets through both reads and the guard. */
  lemma ClearedIffPassCompletes(listId: string, removeStriked: bool, registry: seq<RegistryEntry>,
                                lists: Option<seq<IcaList>>, keepRead: Option<seq<KeepItem>>,
                                recentRemoves: set<string>, order: seq<string>)
    ensures Pass(listId, removeStriked, registry, lists, keepRead, recentRemoves, order).cleared <==>
              && lists.Some? && FindList(lists.value, listId).Some?
              && |Pruned(FindList(lists.value, listId).value.rows, removeStriked)| < MAX_ICA_ITEMS
              && keepRead.Some?
  {
  }
}

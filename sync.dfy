/** `schedule_sync` (custom_components/ica_shopping/__init__.py:62-105): the debounced
    Keep -> ICA pass. It only ever adds to ICA. */
module DebouncedSync {
  import opened Common
  import opened Text
  import opened Stores
  import opened Sensor

  /** The summaries whose lower-case form is not among the rows' keys, in order (the
      filter of line 92, before its slice). */
  function NotOnIca(summaries: seq<string>, existing: seq<string>): (r: seq<string>)
    ensures IsSubseq(r, summaries)
    ensures forall s :: s in r <==> s in summaries && Lower(s) !in existing
    decreases |summaries|
  {
    if summaries == [] then []
    else
      var before := summaries[..|summaries| - 1];
      var s := summaries[|summaries| - 1];
      var prev := NotOnIca(before, existing);
      assert summaries == before + [s];
      if Lower(s) !in existing then
        assert (prev + [s])[..|prev|] == prev;
        prev + [s]
      else prev
  }

  /** Which summaries are new to the list. */
  function NewMask(summaries: seq<string>, existing: seq<string>): seq<bool> {
    seq(|summaries|, i requires 0 <= i < |summaries| => Lower(summaries[i]) !in existing)
  }

  /** The filter keeps each new summary, every occurrence of it, in order, and nothing else. */
  lemma {:induction false} NotOnIcaPicks(summaries: seq<string>, existing: seq<string>)
    ensures Picks(NotOnIca(summaries, existing), summaries, NewMask(summaries, existing))
    decreases |summaries|
  {
    if summaries == [] {
      PicksNil<string>();
      assert NewMask(summaries, existing) == [];
    } else {
      var before := summaries[..|summaries| - 1];
      var s := summaries[|summaries| - 1];
      NotOnIcaPicks(before, existing);
      assert summaries == before + [s];
      var b := Lower(s) !in existing;
      PicksSnoc(NotOnIca(before, existing), before, NewMask(before, existing), s, b);
      assert NewMask(before, existing) + [b] == NewMask(summaries, existing);
      assert NotOnIca(summaries, existing) == NotOnIca(before, existing) + (if b then [s] else []);
    }
  }

  /** The texts one firing sends to `add_to_list`, in order (lines 79-92): the first
      MAX_KEEP_ITEMS stripped summaries whose lower-case form is not among the rows' keys,
      cut to the room left on the list; nothing once the list holds MAX_ICA_ITEMS rows. */
  function SyncAdds(items: seq<KeepItem>, rows: seq<IcaRow>): seq<string> {
    if |rows| >= MAX_ICA_ITEMS then []
    else Take(NotOnIca(Take(Summaries(items), MAX_KEEP_ITEMS), RowKeys(rows)), MAX_ICA_ITEMS - |rows|)
  }

  /** Some of the first `n` `add_to_list` calls reported success. */
  predicate AnySucceeded(ok: nat -> bool, n: nat) {
    exists j :: 0 <= j < n && ok(j)
  }

  /** Everything one firing issues. `keepRead` and `lists` are the answers of `todo.get_items`
      and `fetch_lists` (None: the call raised, which ends the pass); `ok(j)` is what the
      `j`-th `add_to_list` call returns. */
  function SyncCalls(listId: string, registry: seq<RegistryEntry>, keepRead: Option<seq<KeepItem>>,
                     lists: Option<seq<IcaList>>, ok: nat -> bool): seq<Call>
  {
    match keepRead
    case None => []
    case Some(items) =>
      match lists
      case None => []
      case Some(ls) =>
        var adds := SyncAdds(items, RowsOf(ls, listId));
        IcaAdds(listId, adds) + (if AnySucceeded(ok, |adds|) then SensorCalls(registry, listId) else [])
  }

  /** The texts added: none when the list is full; otherwise the first new summaries, as
      many as there is room for on the list (all of them when they fit), in the order of
      the first MAX_KEEP_ITEMS stripped summaries, each new to the list by key. */
  lemma SyncAddsOnlyNewSummaries(items: seq<KeepItem>, rows: seq<IcaRow>)
    ensures |rows| >= MAX_ICA_ITEMS ==> SyncAdds(items, rows) == []
    ensures |rows| < MAX_ICA_ITEMS ==> |SyncAdds(items, rows)| <= MAX_ICA_ITEMS - |rows|
    ensures var newOnes := NotOnIca(Take(Summaries(items), MAX_KEEP_ITEMS), RowKeys(rows));
            var adds := SyncAdds(items, rows);
            |rows| < MAX_ICA_ITEMS ==>
              && |adds| <= |newOnes| && adds == newOnes[..|adds|]
              && (|adds| == MAX_ICA_ITEMS - |rows| || adds == newOnes)
    ensures IsSubseq(SyncAdds(items, rows), Take(Summaries(items), MAX_KEEP_ITEMS))
    ensures forall t :: t in SyncAdds(items, rows) ==> Strip(t) == t && Norm(t) !in RowKeys(rows)
    ensures |rows| < MAX_ICA_ITEMS
            && |NotOnIca(Take(Summaries(items), MAX_KEEP_ITEMS), RowKeys(rows))| <= MAX_ICA_ITEMS - |rows|
            ==> forall s :: s in Take(Summaries(items), MAX_KEEP_ITEMS) && Norm(s) !in RowKeys(rows)
                  ==> s in SyncAdds(items, rows)
  {
    var summaries := Take(Summaries(items), MAX_KEEP_ITEMS);
    forall s | s in summaries ensures Strip(s) == s && Lower(s) == Norm(s) {
      var i :| 0 <= i < |summaries| && summaries[i] == s;
      assert s == Strip(items[i].summary);
      StripIdempotent(items[i].summary);
    }
    if |rows| < MAX_ICA_ITEMS {
      var newOnes := NotOnIca(summaries, RowKeys(rows));
      var adds := SyncAdds(items, rows);
      assert adds == newOnes[..|adds|];
      PrefixOfSubseq(newOnes, summaries, |adds|);
      SubseqElements(adds, summaries);
      forall t | t in adds ensures t in newOnes {
        var i :| 0 <= i < |adds| && adds[i] == t;
        assert newOnes[i] == t;
      }
    }
  }

  /** One firing refreshes the sensor if and only if some `add_to_list` call succeeded (and
      the registry has the list's sensor); the calls before it are the adds, in order. */
  lemma SyncSensorIffAnyAdd(listId: string, registry: seq<RegistryEntry>, items: seq<KeepItem>,
                            ls: seq<IcaList>, ok: nat -> bool)
    ensures var calls := SyncCalls(listId, registry, Some(items), Some(ls), ok);
            var adds := SyncAdds(items, RowsOf(ls, listId));
            && |adds| <= |calls| && calls[..|adds|] == IcaAdds(listId, adds)
            && ((exists c :: c in calls && c.UpdateEntity?)
                <==> AnySucceeded(ok, |adds|) && SensorCalls(registry, listId) != [])
  {
    var calls := SyncCalls(listId, registry, Some(items), Some(ls), ok);
    var adds := SyncAdds(items, RowsOf(ls, listId));
    var tail := if AnySucceeded(ok, |adds|) then SensorCalls(registry, listId) else [];
    assert calls == IcaAdds(listId, adds) + tail;
    assert calls[..|adds|] == IcaAdds(listId, adds);
    SensorCallsFirstMatch(registry, listId);
    if AnySucceeded(ok, |adds|) && SensorCalls(registry, listId) != [] {
      assert calls[|adds|] == SensorCalls(registry, listId)[0];
    }
  }

  /** A read that raises ends the pass before any call. */
  lemma SyncReadFailureIssuesNothing(listId: string, registry: seq<RegistryEntry>,
                                     keepRead: Option<seq<KeepItem>>, lists: Option<seq<IcaList>>, ok: nat -> bool)
    requires keepRead.None? || lists.None?
    ensures SyncCalls(listId, registry, keepRead, lists, ok) == []
  {
  }
}

/** The two list stores as the engine sees them, the log of outbound calls it
    issues against them, and the lookups shared by every reconciliation path. */
module Stores {
  import opened Common
  import opened Text

  /** Row limit of an ICA list (custom_components/ica_shopping/__init__.py:36). */
  const MAX_ICA_ITEMS: nat := 250
  /** Number of Keep summaries the debounced sync reads (line 37). */
  const MAX_KEEP_ITEMS: nat := 100

  /** A row of the remote ICA list. An absent, null or empty `id` is written "". */
  datatype IcaRow = IcaRow(id: string, text: string, isStriked: bool)

  datatype IcaList = IcaList(id: string, rows: seq<IcaRow>)

  datatype Status = NeedsAction | Completed

  /** An item of the Home Assistant todo ("Keep") list; an absent summary is written "". */
  datatype KeepItem = KeepItem(summary: string, status: Status)

  /** One outbound call of the engine: the ICA API's `add_to_list` and `remove_item`,
      the `todo.add_item` / `todo.remove_item` services on the configured Keep entity,
      and `homeassistant.update_entity` on the list's sensor. */
  datatype Call =
    | IcaAdd(listId: string, text: string)
    | IcaRemove(rowId: string)
    | KeepAdd(item: string)
    | KeepRemove(item: string)
    | UpdateEntity(entityId: string)

  /** The first list with the given id, or none (line 182). */
  function FindList(lists: seq<IcaList>, listId: string): (r: Option<IcaList>)
    ensures r.None? <==> forall i :: 0 <= i < |lists| ==> lists[i].id != listId
    ensures r.Some? ==> exists i :: 0 <= i < |lists| && lists[i] == r.value && r.value.id == listId
                                    && forall j :: 0 <= j < i ==> lists[j].id != listId
  {
    if lists == [] then None
    else if lists[0].id == listId then Some(lists[0])
    else
      var r := FindList(lists[1..], listId);
      assert forall i :: 1 <= i < |lists| ==> lists[i] == lists[1..][i - 1];
      r
  }

  /** The rows of the configured list, or no rows when it is missing (lines 85 and 125). */
  function RowsOf(lists: seq<IcaList>, listId: string): seq<IcaRow> {
    match FindList(lists, listId)
    case Some(l) => l.rows
    case None => []
  }

  /** The index from each row's key to its id, built by a dict comprehension over the rows
      in order (lines 126-129, 202-205). */
  function RowIndex(rows: seq<IcaRow>): map<string, string>
    decreases |rows|
  {
    if rows == [] then map[]
    else
      var last := rows[|rows| - 1];
      RowIndex(rows[..|rows| - 1])[Norm(last.text) := last.id]
  }

  /** Row `i` is the last row of `rows` whose key is `k`. */
  ghost predicate LastWithKey(rows: seq<IcaRow>, k: string, i: int) {
    0 <= i < |rows| && Norm(rows[i].text) == k
    && forall j :: i < j < |rows| ==> Norm(rows[j].text) != k
  }

  /** The index holds the key of every row and nothing else, and a key shared by several
      rows maps to the id of the LAST of them (a later entry of a dict comprehension wins). */
  lemma {:induction false} RowIndexHasEveryKey(rows: seq<IcaRow>)
    ensures forall i :: 0 <= i < |rows| ==> Norm(rows[i].text) in RowIndex(rows)
    decreases |rows|
  {
    if rows != [] {
      var prev := rows[..|rows| - 1];
      RowIndexHasEveryKey(prev);
      forall i | 0 <= i < |prev| ensures Norm(rows[i].text) in RowIndex(rows) {
        assert prev[i] == rows[i];
      }
    }
  }

  lemma {:induction false} RowIndexLastWins(rows: seq<IcaRow>)
    ensures forall k :: k in RowIndex(rows) ==>
              exists i :: LastWithKey(rows, k, i) && RowIndex(rows)[k] == rows[i].id
    decreases |rows|
  {
    if rows != [] {
      var prev := rows[..|rows| - 1];
      var last := rows[|rows| - 1];
      var m := RowIndex(rows);
      assert m == RowIndex(prev)[Norm(last.text) := last.id];
      RowIndexLastWins(prev);
      forall k | k in m
        ensures exists i :: LastWithKey(rows, k, i) && m[k] == rows[i].id
      {
        if k == Norm(last.text) {
          assert LastWithKey(rows, k, |rows| - 1);
        } else {
          assert k in RowIndex(prev);
          var i :| LastWithKey(prev, k, i) && RowIndex(prev)[k] == prev[i].id;
          LastWithKeyExtends(rows, k, i);
        }
      }
    }
  }

  lemma LastWithKeyExtends(rows: seq<IcaRow>, k: string, i: int)
    requires |rows| > 0 && Norm(rows[|rows| - 1].text) != k
    requires LastWithKey(rows[..|rows| - 1], k, i)
    ensures LastWithKey(rows, k, i) && rows[i] == rows[..|rows| - 1][i]
  {
    var prev := rows[..|rows| - 1];
    forall j | i < j < |rows| ensures Norm(rows[j].text) != k {
      if j < |prev| {
        assert prev[j] == rows[j];
      }
    }
  }

  /** The stripped summary of each Keep item, in order (lines 80 and 215). */
  function Summaries(items: seq<KeepItem>): (r: seq<string>)
    ensures |r| == |items|
  {
    seq(|items|, i requires 0 <= i < |items| => Strip(items[i].summary))
  }

  /** The key of each row, in order (line 90); also `ica_items_lower` of line 201, which
      lower-cases the stripped texts. */
  function RowKeys(rows: seq<IcaRow>): (r: seq<string>)
    ensures |r| == |rows|
  {
    seq(|rows|, i requires 0 <= i < |rows| => Norm(rows[i].text))
  }

  /** The keys of the Keep items: `keep_lower` of line 216, which lower-cases the stripped summaries. */
  function ItemKeys(items: seq<KeepItem>): (r: seq<string>)
    ensures |r| == |items|
  {
    seq(|items|, i requires 0 <= i < |items| => Norm(items[i].summary))
  }

  /** The texts of `xs` that Python treats as true in `if summary:` (line 268). */
  function NonEmpty(xs: seq<string>): seq<string>
    decreases |xs|
  {
    if xs == [] then []
    else
      var prev := NonEmpty(xs[..|xs| - 1]);
      var x := xs[|xs| - 1];
      if x != "" then prev + [x] else prev
  }

  /** Which texts are non-empty. */
  function NonEmptyMask(xs: seq<string>): seq<bool> {
    seq(|xs|, i requires 0 <= i < |xs| => xs[i] != "")
  }

  /** `NonEmpty` keeps exactly the non-empty texts, each occurrence once, in their order. */
  lemma {:induction false} NonEmptyKeepsNonEmpty(xs: seq<string>)
    ensures Picks(NonEmpty(xs), xs, NonEmptyMask(xs))
    ensures forall x :: x in NonEmpty(xs) <==> x in xs && x != ""
    ensures IsSubseq(NonEmpty(xs), xs)
    decreases |xs|
  {
    if xs == [] {
      PicksNil<string>();
      assert NonEmptyMask(xs) == [];
    } else {
      var before := xs[..|xs| - 1];
      var x := xs[|xs| - 1];
      NonEmptyKeepsNonEmpty(before);
      assert xs == before + [x];
      var prev := NonEmpty(before);
      PicksSnoc(prev, before, NonEmptyMask(before), x, x != "");
      assert NonEmptyMask(before) + [x != ""] == NonEmptyMask(xs);
      if x != "" {
        assert (prev + [x])[..|prev|] == prev;
      } else {
        assert prev + [] == prev;
      }
    }
  }

  // The call sequences issued by the source's `for` loops, one element per iteration.

  function IcaAdds(listId: string, texts: seq<string>): (r: seq<Call>)
    ensures |r| == |texts|
    ensures forall i :: 0 <= i < |r| ==> r[i] == IcaAdd(listId, texts[i])
    decreases |texts|
  {
    if texts == [] then [] else IcaAdds(listId, texts[..|texts| - 1]) + [IcaAdd(listId, texts[|texts| - 1])]
  }

  function IcaRemoves(ids: seq<string>): (r: seq<Call>)
    ensures |r| == |ids|
    ensures forall i :: 0 <= i < |r| ==> r[i] == IcaRemove(ids[i])
    decreases |ids|
  {
    if ids == [] then [] else IcaRemoves(ids[..|ids| - 1]) + [IcaRemove(ids[|ids| - 1])]
  }

  function KeepAdds(texts: seq<string>): (r: seq<Call>)
    ensures |r| == |texts|
    ensures forall i :: 0 <= i < |r| ==> r[i] == KeepAdd(texts[i])
    decreases |texts|
  {
    if texts == [] then [] else KeepAdds(texts[..|texts| - 1]) + [KeepAdd(texts[|texts| - 1])]
  }

  function KeepRemoves(texts: seq<string>): (r: seq<Call>)
    ensures |r| == |texts|
    ensures forall i :: 0 <= i < |r| ==> r[i] == KeepRemove(texts[i])
    decreases |texts|
  {
    if texts == [] then [] else KeepRemoves(texts[..|texts| - 1]) + [KeepRemove(texts[|texts| - 1])]
  }

  /** Every call `KeepRemoves` issues is a Keep removal. */
  lemma KeepRemovesOnlyRemove(texts: seq<string>)
    ensures forall c :: c in KeepRemoves(texts) ==> c.KeepRemove?
  {
    forall c | c in KeepRemoves(texts) ensures c.KeepRemove? {
      var i :| 0 <= i < |texts| && KeepRemoves(texts)[i] == c;
    }
  }

  /** The id an index gives a key; a key it does not hold gives the empty id, which,
      like Python's `None`, is false in `if row_id:`. */
  function IdOf(index: map<string, string>, k: string): string {
    if k in index then index[k] else ""
  }

  /** For each key in turn, look its row id up in the index and remove that row when the
      id is non-empty (lines 233-237 and 278-282). */
  function IcaRemovesByKey(keys: seq<string>, index: map<string, string>): (r: seq<Call>)
    ensures forall c :: c in r ==> c.IcaRemove? && exists k :: k in keys && k in index && index[k] != "" && c.rowId == index[k]
    ensures forall k :: k in keys && k in index && index[k] != "" ==> IcaRemove(index[k]) in r
    ensures |r| <= |keys|
    decreases |keys|
  {
    if keys == [] then []
    else
      var prev := IcaRemovesByKey(keys[..|keys| - 1], index);
      var k := keys[|keys| - 1];
      assert keys == keys[..|keys| - 1] + [k];
      if k in index && index[k] != "" then prev + [IcaRemove(index[k])] else prev
  }

  /** The removal each key would issue, and whether it issues it. */
  function RemovalPerKey(keys: seq<string>, index: map<string, string>): seq<Call> {
    seq(|keys|, i requires 0 <= i < |keys| => IcaRemove(IdOf(index, keys[i])))
  }

  function RemovableMask(keys: seq<string>, index: map<string, string>): seq<bool> {
    seq(|keys|, i requires 0 <= i < |keys| => IdOf(index, keys[i]) != "")
  }

  /** One removal per key that maps to a non-empty id, of that id, in key order: a key
      listed twice removes twice, and no key removes more than once. */
  lemma {:induction false} IcaRemovesByKeyPicks(keys: seq<string>, index: map<string, string>)
    ensures Picks(IcaRemovesByKey(keys, index), RemovalPerKey(keys, index), RemovableMask(keys, index))
    decreases |keys|
  {
    if keys == [] {
      PicksNil<Call>();
      assert RemovalPerKey(keys, index) == [] && RemovableMask(keys, index) == [];
    } else {
      var before := keys[..|keys| - 1];
      var k := keys[|keys| - 1];
      IcaRemovesByKeyPicks(before, index);
      assert keys == before + [k];
      var b := IdOf(index, k) != "";
      PicksSnoc(IcaRemovesByKey(before, index), RemovalPerKey(before, index), RemovableMask(before, index),
                IcaRemove(IdOf(index, k)), b);
      assert RemovalPerKey(before, index) + [IcaRemove(IdOf(index, k))] == RemovalPerKey(keys, index);
      assert RemovableMask(before, index) + [b] == RemovableMask(keys, index);
      assert IcaRemovesByKey(keys, index) == IcaRemovesByKey(before, index) + (if b then [IcaRemove(IdOf(index, k))] else []);
    }
  }

  /** One more key adds at most the removal of the row it maps to. */
  lemma IcaRemovesByKeySnoc(keys: seq<string>, k: string, index: map<string, string>)
    ensures IcaRemovesByKey(keys + [k], index)
            == IcaRemovesByKey(keys, index) + (if k in index && index[k] != "" then [IcaRemove(index[k])] else [])
  {
    assert (keys + [k])[..|keys|] == keys;
  }
}

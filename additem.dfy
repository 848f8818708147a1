/** `handle_add_item` (custom_components/ica_shopping/__init__.py:296-328): the
    `ica_shopping.add_item` service, which adds one text to an ICA list. */
module ManualAdd {
  import opened Common
  import opened Text
  import opened Stores
  import opened Sensor

  /** Why a call is refused before any request is made, in the order the checks run. */
  datatype AddItemError = NoApi | NoListId | NoText

  /** A call that passed the checks: the list it targets and the stripped text. */
  datatype AddRequest = AddRequest(listId: string, text: string)

  /** The list a manual add goes to (line 302): the call's list id unless it is absent or
      empty, else the stored current list id unless that is absent or empty. */
  function ChosenListId(callListId: Option<string>, currentListId: Option<string>): (r: Option<string>)
    ensures r.Some? ==> r.value != ""
    ensures callListId.Some? && callListId.value != "" ==> r == callListId
    ensures r.None? <==> (callListId.None? || callListId.value == "") && (currentListId.None? || currentListId.value == "")
    ensures !(callListId.Some? && callListId.value != "") && r.Some? ==> r == currentListId
  {
    if callListId.Some? && callListId.value != "" then callListId
    else if currentListId.Some? && currentListId.value != "" then currentListId
    else None
  }

  /** The checks of lines 297-314: the API must be set up, a list id must be found, and the
      stripped text must be non-empty; the first failing check decides the error. */
  function CheckAddItem(apiPresent: bool, callListId: Option<string>, currentListId: Option<string>,
                        text: Option<string>): (r: Result<AddRequest, AddItemError>)
    ensures r == Err(NoApi) <==> !apiPresent
    ensures r == Err(NoListId) <==> apiPresent && ChosenListId(callListId, currentListId).None?
    ensures r == Err(NoText) <==>
              apiPresent && ChosenListId(callListId, currentListId).Some? && (text.None? || Strip(text.value) == "")
    ensures r.Ok? ==> && text.Some?
                      && r.value == AddRequest(ChosenListId(callListId, currentListId).value, Strip(text.value))
                      && r.value.listId != "" && r.value.text != "" && Strip(r.value.text) == r.value.text
  {
    if !apiPresent then Err(NoApi)
    else
      match ChosenListId(callListId, currentListId)
      case None => Err(NoListId)
      case Some(listId) =>
        if text.None? || Strip(text.value) == "" then Err(NoText)
        else
          StripIdempotent(text.value);
          Ok(AddRequest(listId, Strip(text.value)))
  }

  /** Everything one call issues: the `add_to_list` request, then, if it reported
      `success`, the refresh of that list's sensor (lines 318-325). */
  function AddItemCalls(apiPresent: bool, callListId: Option<string>, currentListId: Option<string>,
                        text: Option<string>, registry: seq<RegistryEntry>, success: bool): seq<Call>
  {
    match CheckAddItem(apiPresent, callListId, currentListId, text)
    case Err(_) => []
    case Ok(req) => [IcaAdd(req.listId, req.text)] + (if success then SensorCalls(registry, req.listId) else [])
  }

  /** A refused call issues nothing; an accepted one issues exactly one ICA add of the
      stripped text to the chosen list, followed by at most a refresh of that list's sensor,
      which happens only when the add succeeded. */
  lemma AddItemIssuesOneAdd(apiPresent: bool, callListId: Option<string>, currentListId: Option<string>,
                            text: Option<string>, registry: seq<RegistryEntry>, success: bool)
    ensures var calls := AddItemCalls(apiPresent, callListId, currentListId, text, registry, success);
            var checked := CheckAddItem(apiPresent, callListId, currentListId, text);
            && (calls == [] <==> checked.Err?)
            && (checked.Ok? ==> calls[0] == IcaAdd(checked.value.listId, checked.value.text)
                                && 1 <= |calls| <= 2
                                && (|calls| == 2 <==> success && SensorCalls(registry, checked.value.listId) != [])
                                && forall i :: 1 <= i < |calls| ==>
                                     calls[i].UpdateEntity? && calls[i] in SensorCalls(registry, checked.value.listId))
  {
    var checked := CheckAddItem(apiPresent, callListId, currentListId, text);
    if checked.Ok? {
      SensorCallsFirstMatch(registry, checked.value.listId);
    }
  }
}

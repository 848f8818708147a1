/** `_trigger_sensor_update`: find the list's sensor in the entity registry by its
    unique id and ask Home Assistant to refresh it. */
module Sensor {
  import opened Common
  import opened Stores

  /** An entry of the entity registry, in the registry's iteration order. */
  datatype RegistryEntry = RegistryEntry(entityId: string, uniqueId: string)

  /** The unique id the sensor platform gives the sensor of list `listId` (line 13). */
  function SensorUniqueId(listId: string): string {
    "shoppinglist_" + listId
  }

  /** The entity id of the FIRST registry entry whose unique id is `uid`, if any. */
  function FirstWithUniqueId(registry: seq<RegistryEntry>, uid: string): (r: Option<string>)
    ensures r.None? <==> forall i :: 0 <= i < |registry| ==> registry[i].uniqueId != uid
    ensures r.Some? ==> exists i :: 0 <= i < |registry| && registry[i].uniqueId == uid
                                    && registry[i].entityId == r.value
                                    && forall j :: 0 <= j < i ==> registry[j].uniqueId != uid
  {
    if registry == [] then None
    else if registry[0].uniqueId == uid then Some(registry[0].entityId)
    else
      var r := FirstWithUniqueId(registry[1..], uid);
      assert forall i :: 1 <= i < |registry| ==> registry[i] == registry[1..][i - 1];
      r
  }

  /** What one call of `_trigger_sensor_update(hass, listId)` issues: one `update_entity`
      on the first matching entity, or nothing when none matches or its entity id is empty. */
  function SensorCalls(registry: seq<RegistryEntry>, listId: string): seq<Call> {
    match FirstWithUniqueId(registry, SensorUniqueId(listId))
    case Some(e) => if e != "" then [UpdateEntity(e)] else []
    case None => []
  }

  /** The registry scan of lines 16-19: walk the entries, stop at the first match. */
  method FindSensorEntity(registry: seq<RegistryEntry>, listId: string) returns (found: Option<string>)
    ensures found == FirstWithUniqueId(registry, SensorUniqueId(listId))
  {
    var target := SensorUniqueId(listId);
    found := None;
    var i := 0;
    while i < |registry|
      invariant 0 <= i <= |registry|
      invariant FirstWithUniqueId(registry, target) == FirstWithUniqueId(registry[i..], target)
    {
      if registry[i].uniqueId == target {
        found := Some(registry[i].entityId);
        break;
      }
      assert registry[i..][1..] == registry[i + 1..];
      i := i + 1;
    }
  }

  /** The sensor is refreshed exactly when some entry carries the list's unique id and the
      first such entry has a non-empty entity id; the refreshed entity is that entry's. */
  lemma SensorCallsFirstMatch(registry: seq<RegistryEntry>, listId: string)
    ensures |SensorCalls(registry, listId)| <= 1
    ensures SensorCalls(registry, listId) != [] <==>
              exists i :: 0 <= i < |registry| && registry[i].uniqueId == SensorUniqueId(listId)
                          && registry[i].entityId != ""
                          && forall j :: 0 <= j < i ==> registry[j].uniqueId != SensorUniqueId(listId)
    ensures forall c :: c in SensorCalls(registry, listId) ==>
              c.UpdateEntity? && c.entityId != ""
              && exists i :: 0 <= i < |registry| && registry[i].entityId == c.entityId
                             && registry[i].uniqueId == SensorUniqueId(listId)
  {
    var uid := SensorUniqueId(listId);
    var r := FirstWithUniqueId(registry, uid);
    if r.Some? {
      var i :| 0 <= i < |registry| && registry[i].uniqueId == uid && registry[i].entityId == r.value
               && forall j :: 0 <= j < i ==> registry[j].uniqueId != uid;
      forall i' | 0 <= i' < |registry| && registry[i'].uniqueId == uid
                  && forall j :: 0 <= j < i' ==> registry[j].uniqueId != uid
        ensures i' == i
      {
      }
    }
  }
}

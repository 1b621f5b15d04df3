/** The three lookups HelloTinyB runs before polling: find the sensor by address among the
    discovered devices (`getDevice`), the temperature service by UUID among the device's
    services (`getService`), and a characteristic by UUID within that service
    (`getCharacteristic`).

    The TinyB objects are not modelled; a device, service or characteristic is identified by
    its address or UUID string, and a lookup returns the position of the chosen element in the
    list it scanned. What `manager.getDevices()` or `device.getServices()` returns on its i-th
    call is the i-th entry of a script (`None` where the library returns `null`), and the value of
    the `running` flag at the i-th loop test is `running(i)`. */
module GattLookup {
  import opened JavaLang

  /** `getDevice` gives up after this many snapshots of the device list (about a minute). */
  const MaxDevicePolls := 15

  /** The position of the last element equal to `target`, or `None` when there is none. */
  function LastIndexOf(list: seq<string>, target: string): (r: Option<nat>)
    ensures r.Some? ==> r.value < |list| && list[r.value] == target
    ensures r.Some? ==> forall j :: r.value < j < |list| ==> list[j] != target
    ensures r.None? <==> target !in list
    decreases |list|
  {
    if list == [] then None
    else if list[|list| - 1] == target then Some(|list| - 1)
    else LastIndexOf(list[..|list| - 1], target)
  }

  /** The scan loop shared by `getDevice` and `getService`: every element equal to `target`
      overwrites the variable, so it ends on the last match, or keeps its old value. */
  method ScanForLast(list: seq<string>, target: string, current: Option<nat>) returns (last: Option<nat>)
    ensures last == if target in list then LastIndexOf(list, target) else current
  {
    last := current;
    for i := 0 to |list|
      invariant last == if target in list[..i] then LastIndexOf(list[..i], target) else current
    {
      assert list[..i + 1][..i] == list[..i];
      if list[i] == target {
        last := Some(i);
      }
    }
    assert list[..|list|] == list;
  }

  /** `getDevice(address)`: takes up to 15 snapshots of the device list while `running` holds, and
      returns the last device with the address in the first snapshot that has one. A `null` list ends
      the search with `null`. `polls` is the number of snapshots taken. */
  method GetDevice(devices: nat -> Option<seq<string>>, running: nat -> bool, address: string)
    returns (sensor: Option<nat>, polls: nat)
    ensures polls <= MaxDevicePolls
    ensures forall j :: 0 <= j < polls ==> running(j)
    ensures forall j :: 0 <= j < polls - 1 ==> devices(j).Some? && address !in devices(j).value
    ensures sensor.Some? ==>
      0 < polls && devices(polls - 1).Some? && sensor == LastIndexOf(devices(polls - 1).value, address)
    ensures sensor.None? ==>
      (0 < polls && devices(polls - 1).None?) ||
      ((polls == MaxDevicePolls || !running(polls)) &&
       forall j :: 0 <= j < polls ==> devices(j).Some? && address !in devices(j).value)
  {
    sensor := None;
    var i := 0;
    while i < MaxDevicePolls && running(i)
      invariant i <= MaxDevicePolls && sensor.None?
      invariant forall j :: 0 <= j < i ==> running(j) && devices(j).Some? && address !in devices(j).value
    {
      var list := devices(i);
      if list.None? {
        return None, i + 1;
      }
      sensor := ScanForLast(list.value, address, sensor);
      if sensor.Some? {
        return sensor, i + 1;
      }
      i := i + 1;
    }
    return None, i;
  }

  /** The loop in `getService` stops after a poll that returned `null`, a non-empty list, or when
      `running` has been cleared. */
  predicate ServicePollEnds(services: Option<seq<string>>, running: bool) {
    services.None? || services.value != [] || !running
  }

  /** `getService(device, UUID)`: polls the service list for as long as it comes back empty and
      `running` holds, then returns the last service with the UUID in the final list, or `null`.
      A non-empty list without the UUID is not polled again. `bound` names a poll at which the loop
      is sure to end (the source waits forever while the list stays empty and `running` stays set). */
  method GetService(services: nat -> Option<seq<string>>, running: nat -> bool, uuid: string, ghost bound: nat)
    returns (service: Option<nat>, polls: nat)
    requires ServicePollEnds(services(bound), running(bound))
    ensures 0 < polls <= bound + 1
    ensures forall j :: 0 <= j < polls - 1 ==> services(j) == Some([]) && running(j)
    ensures ServicePollEnds(services(polls - 1), running(polls - 1))
    ensures service == if services(polls - 1).None? then None else LastIndexOf(services(polls - 1).value, uuid)
  {
    service := None;
    var i := 0;
    while true
      invariant i <= bound && service.None?
      invariant forall j :: 0 <= j < i ==> services(j) == Some([]) && running(j)
      decreases bound - i
    {
      var bluetoothServices := services(i);
      if bluetoothServices.None? {
        return None, i + 1;
      }
      service := ScanForLast(bluetoothServices.value, uuid, service);
      if !(bluetoothServices.value == [] && running(i)) {
        return service, i + 1;
      }
      i := i + 1;
    }
  }

  /** `getCharacteristic(service, UUID)`: the first characteristic with the UUID, or `null` when the
      list is `null` or holds none. */
  method GetCharacteristic(characteristics: Option<seq<string>>, uuid: string) returns (found: Option<nat>)
    ensures characteristics.None? ==> found.None?
    ensures found.Some? ==> characteristics.Some? && found.value < |characteristics.value|
    ensures found.Some? ==> characteristics.value[found.value] == uuid
    ensures found.Some? ==> forall j :: 0 <= j < found.value ==> characteristics.value[j] != uuid
    ensures found.None? && characteristics.Some? ==> uuid !in characteristics.value
  {
    if characteristics.None? {
      return None;
    }
    var list := characteristics.value;
    for i := 0 to |list|
      invariant forall j :: 0 <= j < i ==> list[j] != uuid
    {
      if list[i] == uuid {
        return Some(i);
      }
    }
    return None;
  }
}

/** The device table as the firmware keeps it: static variables updated in place. */
module DeviceTable {
  import opened CTypes
  import opened Endpoints
  import opened Topology
  import opened ParentResolver
  import opened Json
  import opened DeviceStore

  /** The endpoints of a device, none when the device is unknown. */
  function EndpointsOf(devices: seq<Device>, nodeId: U64): seq<Endpoint> {
    var i := FindDevice(devices, nodeId);
    if i < |devices| then devices[i].endpoints else []
  }

  predicate Knows(devices: seq<Device>, nodeId: U64) {
    FindDevice(devices, nodeId) < |devices|
  }

  /** The table once that device's endpoints are `eps`; an unknown device changes nothing. */
  function Edit(devices: seq<Device>, nodeId: U64, eps: seq<Endpoint>): seq<Device> {
    if Knows(devices, nodeId) then WithEndpoints(devices, nodeId, eps) else devices
  }

  /** No node has two records, so the first one found is the only one. */
  ghost predicate UniqueNodes(devices: seq<Device>) {
    forall i, j :: 0 <= i < j < |devices| ==> devices[i].nodeId != devices[j].nodeId
  }

  /** Every update of one device's endpoints keeps that. */
  lemma EditKeepsNodes(devices: seq<Device>, nodeId: U64, eps: seq<Endpoint>)
    ensures UniqueNodes(Edit(devices, nodeId, eps)) <==> UniqueNodes(devices)
  {
    var after := Edit(devices, nodeId, eps);
    assert |after| == |devices| && forall i :: 0 <= i < |devices| ==> after[i].nodeId == devices[i].nodeId;
  }

  lemma EditIsFound(devices: seq<Device>, nodeId: U64, eps: seq<Endpoint>)
    requires Knows(devices, nodeId)
    ensures FindDevice(Edit(devices, nodeId, eps), nodeId) == FindDevice(devices, nodeId)
    ensures EndpointsOf(Edit(devices, nodeId, eps), nodeId) == eps
  {
    var i := FindDevice(devices, nodeId);
    var after := Edit(devices, nodeId, eps);
    assert after[i].nodeId == nodeId;
    assert forall j :: 0 <= j < i ==> after[j] == devices[j];
  }

  /** Nothing but the endpoints of the first record of that node changes. */
  lemma EditChangesOne(devices: seq<Device>, nodeId: U64, eps: seq<Endpoint>, i: nat)
    requires i < |devices|
    ensures var after := Edit(devices, nodeId, eps);
      && |after| == |devices|
      && after[i] == if devices[i].nodeId == nodeId && forall j :: 0 <= j < i ==> devices[j].nodeId != nodeId
                     then devices[i].(endpoints := eps) else devices[i]
  {
  }

  const ONOFF_TYPES: set<U32> := {0x0100, 0x0101, 0x010A, 0x010C, 0x010D}
  const SWITCH_TYPES: set<U32> := {0x0103, 0x0104, 0x0105, 0x000F}

  predicate Hosts(ep: Endpoint, wanted: set<U32>) {
    exists t :: t in ep.types && t in wanted
  }

  /** r is the id of the earliest endpoint with a type among those wanted, None if there is no such endpoint. */
  ghost predicate IsFirstHost(eps: seq<Endpoint>, wanted: set<U32>, r: Option<U16>) {
    if r.None? then forall j, t :: 0 <= j < |eps| && t in eps[j].types ==> t !in wanted
    else exists i, t :: 0 <= i < |eps| && t in eps[i].types && t in wanted
           && eps[i].id == r.value && NoneBefore(eps, wanted, i)
  }

  ghost predicate NoneBefore(eps: seq<Endpoint>, wanted: set<U32>, i: nat)
    requires i <= |eps|
  {
    forall j, t :: 0 <= j < i && t in eps[j].types ==> t !in wanted
  }

  /** The first endpoint that hosts one of the wanted types. */
  function FirstHostOf(eps: seq<Endpoint>, wanted: set<U32>): (r: Option<U16>) {
    if eps == [] then None
    else if Hosts(eps[0], wanted) then Some(eps[0].id)
    else FirstHostOf(eps[1..], wanted)
  }

  lemma {:induction false} FirstHostIsFirst(eps: seq<Endpoint>, wanted: set<U32>)
    ensures IsFirstHost(eps, wanted, FirstHostOf(eps, wanted))
  {
    var r := FirstHostOf(eps, wanted);
    if eps != [] && Hosts(eps[0], wanted) {
      assert NoneBefore(eps, wanted, 0);
    } else if eps != [] {
      FirstHostIsFirst(eps[1..], wanted);
      assert forall j :: 0 <= j < |eps| - 1 ==> eps[1..][j] == eps[j + 1];
      if r.Some? {
        var i, t :| 0 <= i < |eps| - 1 && t in eps[1..][i].types && t in wanted && eps[1..][i].id == r.value
          && NoneBefore(eps[1..], wanted, i);
        forall j, t | 0 <= j < i + 1 && t in eps[j].types ensures t !in wanted {
          if j > 0 { assert eps[j] == eps[1..][j - 1]; }
        }
        assert NoneBefore(eps, wanted, i + 1) && t in eps[i + 1].types;
      } else {
        forall j, t | 0 <= j < |eps| && t in eps[j].types ensures t !in wanted {
          if j > 0 { assert eps[j] == eps[1..][j - 1]; }
        }
      }
    }
  }

  /** OnOff endpoints are those of OnOff, dimmable, colour temperature and extended colour lights and of OnOff
      plugs; switch endpoints those of OnOff, dimmer, colour dimmer and generic switches. */
  lemma EndpointsAreFirst(devices: seq<Device>, nodeId: U64)
    ensures var eps := EndpointsOf(devices, nodeId);
      && IsFirstHost(eps, {0x0100, 0x0101, 0x010C, 0x010D, 0x010A}, OnOffEndpoint(devices, nodeId))
      && IsFirstHost(eps, {0x0103, 0x0104, 0x0105, 0x000F}, SwitchEndpoint(devices, nodeId))
  {
    FirstHostIsFirst(EndpointsOf(devices, nodeId), ONOFF_TYPES);
    FirstHostIsFirst(EndpointsOf(devices, nodeId), SWITCH_TYPES);
  }

  function OnOffEndpoint(devices: seq<Device>, nodeId: U64): Option<U16> {
    FirstHostOf(EndpointsOf(devices, nodeId), ONOFF_TYPES)
  }

  function SwitchEndpoint(devices: seq<Device>, nodeId: U64): Option<U16> {
    FirstHostOf(EndpointsOf(devices, nodeId), SWITCH_TYPES)
  }

  class DeviceManager {
    var devices: seq<Device>
    var nextNodeId: U64

    constructor ()
      ensures devices == [] && nextNodeId == FIRST_NODE_ID
    {
      devices, nextNodeId := [], FIRST_NODE_ID;
    }

    /** Afterwards the node is known, once, and no other record has changed. */
    method AddDevice(nodeId: U64)
      modifies `devices
      ensures Knows(devices, nodeId) && old(devices) <= devices
      ensures UniqueNodes(old(devices)) ==> UniqueNodes(devices)
      ensures devices == if Knows(old(devices), nodeId) then old(devices)
                         else old(devices) + [Device(nodeId, "", "", "", [], false, 0)]
    {
      if !Knows(devices, nodeId) {
        devices := devices + [Device(nodeId, "", "", "", [], false, 0)];
        assert devices[|devices| - 1].nodeId == nodeId;
      }
    }

    method AddEndpoint(nodeId: U64, id: U16) returns (err: Err)
      modifies `devices
      ensures devices == Edit(old(devices), nodeId, WithEndpoint(EndpointsOf(old(devices), nodeId), id))
      ensures err == if Knows(old(devices), nodeId) then Ok else NotFound
    {
      var i := FindDevice(devices, nodeId);
      if i == |devices| { return NotFound; }
      if FindEndpoint(devices[i].endpoints, id) == |devices[i].endpoints| {
        var ep := Endpoint(id, NO_PARENT, "", false, [], []);
        devices := devices[i := devices[i].(endpoints := devices[i].endpoints + [ep])];
      }
      err := Ok;
    }

    method AddDeviceType(nodeId: U64, id: U16, deviceType: U32) returns (err: Err)
      modifies `devices
      ensures devices == Edit(old(devices), nodeId, WithType(EndpointsOf(old(devices), nodeId), id, deviceType))
      ensures err == if HasEndpoint(EndpointsOf(old(devices), nodeId), id) then Ok else NotFound
    {
      var i := FindDevice(devices, nodeId);
      if i == |devices| { return NotFound; }
      var eps := devices[i].endpoints;
      var k := FindEndpoint(eps, id);
      if k == |eps| { return NotFound; }
      var types := eps[k].types;
      var found := false;
      for j := 0 to |types|
        invariant found <==> deviceType in types[..j]
      {
        if types[j] == deviceType { found := true; }
      }
      assert types[..|types|] == types;
      if !found { types := types + [deviceType]; }
      devices := devices[i := devices[i].(endpoints := eps[k := eps[k].(types := types)])];
      err := Ok;
    }

    method AddEndpointPart(nodeId: U64, parentId: U16, child: U16) returns (err: Err)
      modifies `devices
      ensures devices == Edit(old(devices), nodeId, WithPart(EndpointsOf(old(devices), nodeId), parentId, child))
      ensures err == if HasEndpoint(EndpointsOf(old(devices), nodeId), parentId) then Ok else NotFound
    {
      var i := FindDevice(devices, nodeId);
      if i == |devices| { return NotFound; }
      var eps := devices[i].endpoints;
      var k := FindEndpoint(eps, parentId);
      if k == |eps| { return NotFound; }
      var parts := eps[k].parts;
      var found := false;
      for j := 0 to |parts|
        invariant found <==> child in parts[..j]
      {
        if parts[j] == child { found := true; }
      }
      assert parts[..|parts|] == parts;
      if !found { parts := parts + [child]; }
      devices := devices[i := devices[i].(endpoints := eps[k := eps[k].(parts := parts)])];
      err := Ok;
    }

    method SetEndpointLabel(nodeId: U64, id: U16, text: string) returns (err: Err)
      modifies `devices
      ensures devices == Edit(old(devices), nodeId, WithLabel(EndpointsOf(old(devices), nodeId), id, text))
      ensures err == if HasEndpoint(EndpointsOf(old(devices), nodeId), id) then Ok else NotFound
    {
      var i := FindDevice(devices, nodeId);
      if i == |devices| { return NotFound; }
      var eps := devices[i].endpoints;
      var k := FindEndpoint(eps, id);
      if k == |eps| { return NotFound; }
      devices := devices[i := devices[i].(endpoints := eps[k := eps[k].(nodeLabel := text)])];
      err := Ok;
    }

    method SetPrimaryDeviceType(nodeId: U64, deviceType: U32) returns (err: Err)
      modifies `devices
      ensures var i := FindDevice(old(devices), nodeId);
        if i < |old(devices)|
        then err == Ok && devices == old(devices)[i := old(devices)[i].(primaryType := deviceType)]
        else err == NotFound && devices == old(devices)
    {
      var i := FindDevice(devices, nodeId);
      if i == |devices| { return NotFound; }
      devices := devices[i := devices[i].(primaryType := deviceType)];
      err := Ok;
    }

    method ClearDeviceEndpoints(nodeId: U64) returns (err: Err)
      modifies `devices
      ensures devices == Edit(old(devices), nodeId, [])
      ensures err == if Knows(old(devices), nodeId) then Ok else NotFound
    {
      var i := FindDevice(devices, nodeId);
      if i == |devices| { return NotFound; }
      devices := devices[i := devices[i].(endpoints := [])];
      err := Ok;
    }

    /** Every endpoint of the device gets its resolved parent; nothing else changes. */
    method ResolveParents(nodeId: U64) returns (err: Err)
      modifies `devices
      ensures err == if Knows(old(devices), nodeId) then Ok else NotFound
      ensures devices == Edit(old(devices), nodeId, EndpointsOf(devices, nodeId))
      ensures Resolved(EndpointsOf(old(devices), nodeId), EndpointsOf(devices, nodeId))
    {
      var i := FindDevice(devices, nodeId);
      if i == |devices| { return NotFound; }
      var after := ResolveEndpoints(devices[i].endpoints);
      EditIsFound(devices, nodeId, after);
      devices := devices[i := devices[i].(endpoints := after)];
      err := Ok;
    }

    method FirstHost(nodeId: U64, wanted: set<U32>) returns (r: Option<U16>)
      ensures r == FirstHostOf(EndpointsOf(devices, nodeId), wanted)
    {
      var i := FindDevice(devices, nodeId);
      if i == |devices| { return None; }
      var eps := devices[i].endpoints;
      for k := 0 to |eps|
        invariant FirstHostOf(eps, wanted) == FirstHostOf(eps[k..], wanted)
      {
        assert eps[k..][1..] == eps[k + 1..];
        var ep := eps[k];
        for j := 0 to |ep.types|
          invariant forall m :: 0 <= m < j ==> ep.types[m] !in wanted
        {
          if ep.types[j] in wanted {
            assert Hosts(ep, wanted);
            return Some(ep.id);
          }
        }
        assert !Hosts(ep, wanted);
      }
      r := None;
    }

    method GetOnOffEndpoint(nodeId: U64) returns (r: Option<U16>)
      ensures r == OnOffEndpoint(devices, nodeId)
      ensures IsFirstHost(EndpointsOf(devices, nodeId), {0x0100, 0x0101, 0x010C, 0x010D, 0x010A}, r)
    {
      EndpointsAreFirst(devices, nodeId);
      r := FirstHost(nodeId, ONOFF_TYPES);
    }

    method GetSwitchEndpoint(nodeId: U64) returns (r: Option<U16>)
      ensures r == SwitchEndpoint(devices, nodeId)
      ensures IsFirstHost(EndpointsOf(devices, nodeId), {0x0103, 0x0104, 0x0105, 0x000F}, r)
    {
      EndpointsAreFirst(devices, nodeId);
      r := FirstHost(nodeId, SWITCH_TYPES);
    }

    /** The document that becomes the file. */
    method Persist() returns (root: Json)
      ensures root == TableJson(devices, nextNodeId)
    {
      hide DeviceJson, ToDouble;
      var arr: seq<Json> := [];
      for i := 0 to |devices|
        invariant arr == DevicesJson(devices[..i])
      {
        var dobj := SaveDevice(devices[i]);
        assert devices[..i + 1][..i] == devices[..i];
        arr := arr + [dobj];
      }
      assert devices[..|devices|] == devices;
      root := Object([("nextNodeId", Number(ToDouble(nextNodeId))), ("devices", Array(arr))]);
    }

    static method SaveDevice(d: Device) returns (j: Json)
      ensures j == DeviceJson(d)
    {
      hide EndpointJson, ToDouble, CString;
      var eps: seq<Json> := [];
      for k := 0 to |d.endpoints|
        invariant eps == EndpointsJson(d.endpoints[..k])
      {
        var ep := SaveEndpoint(d.endpoints[k]);
        assert d.endpoints[..k + 1][..k] == d.endpoints[..k];
        eps := eps + [ep];
      }
      assert d.endpoints[..|d.endpoints|] == d.endpoints;
      j := Object([("nodeId", Number(ToDouble(d.nodeId))), ("vendorName", String(CString(d.vendorName))),
                   ("productName", String(CString(d.productName))), ("name", String(CString(d.name))),
                   ("deviceType", Number(ToDouble(d.primaryType))), ("endpoints", Array(eps))]);
    }

    static method SaveEndpoint(ep: Endpoint) returns (j: Json)
      ensures j == EndpointJson(ep)
    {
      var fields := [("endpointId", Number(ep.id))];
      if ep.parent != NO_PARENT { fields := fields + [("parentEndpointId", Number(ep.parent))]; }
      var types := SaveNumbers(ep.types);
      var parts := SaveNumbers(ep.parts);
      j := Object(fields + [("label", String(CString(ep.nodeLabel))), ("included", Bool(ep.included)),
                            ("deviceTypes", Array(types)), ("parts", Array(parts))]);
    }

    static method SaveNumbers(xs: seq<U32>) returns (items: seq<Json>)
      ensures items == Numbers(xs)
    {
      items := [];
      for i := 0 to |xs|
        invariant items == Numbers(xs[..i])
      {
        assert xs[..i + 1][..i] == xs[..i];
        items := items + [Number(ToDouble(xs[i]))];
      }
      assert xs[..|xs|] == xs;
    }

    /** Appends the file's devices to the table; an unusable file leaves everything alone. */
    method LoadFromDisk(file: File)
      modifies this
      ensures file.Missing? || !(0 < file.size <= 65536) || file.root.None? ==>
        devices == old(devices) && nextNodeId == old(nextNodeId)
      ensures Loadable(file) ==>
        devices == old(devices) + LoadedDevices(Children(Get(file.root.value, "devices")))
        && nextNodeId == LoadedNextId(file.root.value, old(nextNodeId))
    {
      hide LoadedDevice, Children, Get, DoubleToU64;
      if file.Missing? || file.size <= 0 || file.size > MAX_FILE || file.root.None? { return; }
      var root := file.root.value;
      var next := Get(root, "nextNodeId");
      if next.Number? { nextNodeId := DoubleToU64(next.value); }
      var items := Children(Get(root, "devices"));
      for i := 0 to |items|
        invariant devices == old(devices) + LoadedDevices(items[..i])
        invariant nextNodeId == LoadedNextId(root, old(nextNodeId))
      {
        var dev := LoadDevice(items[i]);
        assert items[..i + 1][..i] == items[..i];
        devices := devices + [dev];
      }
      assert items[..|items|] == items;
    }

    static method LoadDevice(j: Json) returns (d: Device)
      ensures d == LoadedDevice(j)
    {
      hide LoadedEndpoint, Get, Children, DoubleToU64, DoubleToU32, TextOr;
      var id, pdt := Get(j, "nodeId"), Get(j, "deviceType");
      var items := Children(Get(j, "endpoints"));
      var eps: seq<Endpoint> := [];
      for i := 0 to |items|
        invariant eps == LoadedEndpoints(items[..i])
      {
        var ep := LoadEndpoint(items[i]);
        assert items[..i + 1][..i] == items[..i];
        eps := eps + [ep];
      }
      assert items[..|items|] == items;
      d := Device(if id.Number? then DoubleToU64(id.value) else 0,
                  TextOr(Get(j, "vendorName"), ""), TextOr(Get(j, "productName"), ""), TextOr(Get(j, "name"), ""),
                  eps, false, if pdt.Number? then DoubleToU32(pdt.value) else 0);
    }

    static method LoadEndpoint(j: Json) returns (ep: Endpoint)
      ensures ep == LoadedEndpoint(j)
    {
      var id, parent := Get(j, "endpointId"), Get(j, "parentEndpointId");
      var types: seq<U32>, parts: seq<U16> := [], [];
      var items := Children(Get(j, "deviceTypes"));
      for i := 0 to |items|
        invariant types == LoadedTypes(items[..i])
      {
        assert items[..i + 1][..i] == items[..i];
        if items[i].Number? { types := types + [ValueInt(items[i].value) % 0x1_0000_0000]; }
      }
      assert items[..|items|] == items;
      items := Children(Get(j, "parts"));
      for i := 0 to |items|
        invariant parts == LoadedParts(items[..i])
      {
        assert items[..i + 1][..i] == items[..i];
        if items[i].Number? { parts := parts + [ValueInt(items[i].value) % 0x1_0000]; }
      }
      assert items[..|items|] == items;
      ep := Endpoint(if id.Number? then ValueInt(id.value) % 0x1_0000 else 0,
                     if parent.Number? then ValueInt(parent.value) % 0x1_0000 else NO_PARENT,
                     TextOr(Get(j, "label"), ""), Get(j, "included") == Bool(true), types, parts);
    }
  }

  /** Persist, then load into a fresh table: the same table, subscriptions cleared, exactly when
      the table is storable; a file over the size limit leaves the fresh table empty. */
  method SaveAndReload(manager: DeviceManager, size: int) returns (rebooted: DeviceManager)
    ensures 0 < size <= 65536 ==>
      ((rebooted.devices == Unsubscribed(manager.devices) && rebooted.nextNodeId == manager.nextNodeId)
       <==> ExactId(manager.nextNodeId) && forall d :: d in manager.devices ==> StorableDevice(d))
    ensures !(0 < size <= 65536) ==> rebooted.devices == [] && rebooted.nextNodeId == 10000
  {
    var root := manager.Persist();
    rebooted := new DeviceManager();
    rebooted.LoadFromDisk(File(size, Some(root)));
    TableReloads(manager.devices, manager.nextNodeId, FIRST_NODE_ID);
  }
}

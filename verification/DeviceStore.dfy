/** What device_manager_persist writes for a table and what load_from_disk makes of it. */
module DeviceStore {
  import opened CTypes
  import opened Endpoints
  import opened Json

  const MAX_FILE: int := 65536

  function Numbers(xs: seq<U32>): (r: seq<Json>)
    ensures |r| == |xs| && forall i :: 0 <= i < |xs| ==> r[i] == Number(ToDouble(xs[i]))
  {
    if xs == [] then [] else Numbers(xs[..|xs| - 1]) + [Number(ToDouble(xs[|xs| - 1]))]
  }

  function EndpointJson(ep: Endpoint): Json {
    Object([("endpointId", Number(ep.id))]
           + (if ep.parent != NO_PARENT then [("parentEndpointId", Number(ep.parent))] else [])
           + [("label", String(CString(ep.nodeLabel))), ("included", Bool(ep.included)),
              ("deviceTypes", Array(Numbers(ep.types))), ("parts", Array(Numbers(ep.parts)))])
  }

  function EndpointsJson(eps: seq<Endpoint>): (r: seq<Json>)
    ensures |r| == |eps| && forall i :: 0 <= i < |eps| ==> r[i] == EndpointJson(eps[i])
  {
    if eps == [] then [] else EndpointsJson(eps[..|eps| - 1]) + [EndpointJson(eps[|eps| - 1])]
  }

  function DeviceJson(d: Device): Json {
    Object([("nodeId", Number(ToDouble(d.nodeId))), ("vendorName", String(CString(d.vendorName))),
            ("productName", String(CString(d.productName))), ("name", String(CString(d.name))),
            ("deviceType", Number(ToDouble(d.primaryType))), ("endpoints", Array(EndpointsJson(d.endpoints)))])
  }

  function DevicesJson(ds: seq<Device>): (r: seq<Json>)
    ensures |r| == |ds| && forall i :: 0 <= i < |ds| ==> r[i] == DeviceJson(ds[i])
  {
    if ds == [] then [] else DevicesJson(ds[..|ds| - 1]) + [DeviceJson(ds[|ds| - 1])]
  }

  function TableJson(ds: seq<Device>, nextNodeId: U64): Json {
    Object([("nextNodeId", Number(ToDouble(nextNodeId))), ("devices", Array(DevicesJson(ds)))])
  }

  // ---- Loading ------------------------------------------------------------------------------

  function TextOr(j: Json, default: string): string {
    if j.String? then j.text else default
  }

  function LoadedTypes(items: seq<Json>): seq<U32> {
    if items == [] then [] else
    var last := items[|items| - 1];
    LoadedTypes(items[..|items| - 1]) + if last.Number? then [ValueInt(last.value) % 0x1_0000_0000] else []
  }

  function LoadedParts(items: seq<Json>): seq<U16> {
    if items == [] then [] else
    var last := items[|items| - 1];
    LoadedParts(items[..|items| - 1]) + if last.Number? then [ValueInt(last.value) % 0x1_0000] else []
  }

  /** A record field that the file lacks keeps its default; the two C leaves unset read as 0. */
  function LoadedEndpoint(j: Json): Endpoint {
    var id, parent := Get(j, "endpointId"), Get(j, "parentEndpointId");
    Endpoint(if id.Number? then ValueInt(id.value) % 0x1_0000 else 0,
             if parent.Number? then ValueInt(parent.value) % 0x1_0000 else NO_PARENT,
             TextOr(Get(j, "label"), ""), Get(j, "included") == Bool(true),
             LoadedTypes(Children(Get(j, "deviceTypes"))), LoadedParts(Children(Get(j, "parts"))))
  }

  function LoadedEndpoints(items: seq<Json>): (r: seq<Endpoint>)
    ensures |r| == |items| && forall i :: 0 <= i < |items| ==> r[i] == LoadedEndpoint(items[i])
  {
    if items == [] then [] else
    LoadedEndpoints(items[..|items| - 1]) + [LoadedEndpoint(items[|items| - 1])]
  }

  function LoadedDevice(j: Json): Device {
    var id, pdt := Get(j, "nodeId"), Get(j, "deviceType");
    Device(if id.Number? then DoubleToU64(id.value) else 0,
           TextOr(Get(j, "vendorName"), ""), TextOr(Get(j, "productName"), ""), TextOr(Get(j, "name"), ""),
           LoadedEndpoints(Children(Get(j, "endpoints"))), false,
           if pdt.Number? then DoubleToU32(pdt.value) else 0)
  }

  function LoadedDevices(items: seq<Json>): (r: seq<Device>)
    ensures |r| == |items| && forall i :: 0 <= i < |items| ==> r[i] == LoadedDevice(items[i])
  {
    if items == [] then [] else LoadedDevices(items[..|items| - 1]) + [LoadedDevice(items[|items| - 1])]
  }

  function LoadedNextId(root: Json, current: U64): U64 {
    var n := Get(root, "nextNodeId");
    if n.Number? then DoubleToU64(n.value) else current
  }

  predicate Loadable(file: File) {
    file.File? && 0 < file.size <= MAX_FILE && file.root.Some?
  }

  // ---- What survives ------------------------------------------------------------------------

  /** A 64-bit id that a double holds exactly; every id up to 2^53 is one. */
  ghost predicate ExactId(n: U64) {
    n % Ulp(n) == 0
  }

  ghost predicate StorableEndpoint(ep: Endpoint) {
    '\0' !in ep.nodeLabel && forall t :: t in ep.types ==> t < 0x8000_0000
  }

  ghost predicate StorableDevice(d: Device) {
    ExactId(d.nodeId) && '\0' !in d.vendorName && '\0' !in d.productName && '\0' !in d.name
    && forall ep :: ep in d.endpoints ==> StorableEndpoint(ep)
  }

  function Unsubscribed(ds: seq<Device>): (r: seq<Device>)
    ensures |r| == |ds| && forall i :: 0 <= i < |ds| ==> r[i] == ds[i].(hasSubscription := false)
  {
    if ds == [] then [] else Unsubscribed(ds[..|ds| - 1]) + [ds[|ds| - 1].(hasSubscription := false)]
  }

  lemma {:induction false} LoadedNumbers(xs: seq<U32>)
    ensures |LoadedTypes(Numbers(xs))| == |LoadedParts(Numbers(xs))| == |xs|
    ensures forall i :: 0 <= i < |xs| ==>
      LoadedTypes(Numbers(xs))[i] == ValueInt(xs[i]) && LoadedParts(Numbers(xs))[i] == ValueInt(xs[i]) % 0x1_0000
  {
    if xs != [] {
      var n := |xs| - 1;
      LoadedNumbers(xs[..n]);
      RoundsToItself(xs[n]);
      assert Numbers(xs)[..n] == Numbers(xs[..n]);
    }
  }

  lemma TypesReload(xs: seq<U32>)
    ensures LoadedTypes(Numbers(xs)) == xs <==> forall t :: t in xs ==> t < 0x8000_0000
  {
    LoadedNumbers(xs);
    hide LoadedTypes, LoadedParts, Numbers;
    var r := LoadedTypes(Numbers(xs));
    if t :| t in xs && t >= 0x8000_0000 {
      var i :| 0 <= i < |xs| && xs[i] == t;
      assert r[i] != xs[i];
    } else {
      forall i | 0 <= i < |xs| ensures r[i] == xs[i] { assert xs[i] in xs; }
      assert r == xs;
    }
  }

  lemma SmallValue(x: U16)
    ensures ValueInt(x) % 0x1_0000 == x
  {
  }

  lemma PartsReload(xs: seq<U16>)
    ensures LoadedParts(Numbers(xs)) == xs
  {
    hide LoadedTypes, LoadedParts, Numbers, ValueInt;
    LoadedNumbers(xs);
    var r := LoadedParts(Numbers(xs));
    forall i | 0 <= i < |xs| ensures r[i] == xs[i] { SmallValue(xs[i]); }
  }

  /** The saved endpoint, field by field, as the loader looks them up. */
  lemma EndpointFields(ep: Endpoint)
    ensures var j := EndpointJson(ep);
      Get(j, "endpointId") == Number(ep.id)
      && Get(j, "parentEndpointId") == (if ep.parent != NO_PARENT then Number(ep.parent) else Null)
      && Get(j, "label") == String(CString(ep.nodeLabel)) && Get(j, "included") == Bool(ep.included)
      && Get(j, "deviceTypes") == Array(Numbers(ep.types)) && Get(j, "parts") == Array(Numbers(ep.parts))
  {
    var f := EndpointJson(ep).fields;
    var k := |f| - 4;
    LookupAt(f, 0);
    LookupAt(f, k);
    LookupAt(f, k + 1);
    LookupAt(f, k + 2);
    LookupAt(f, k + 3);
    if ep.parent != NO_PARENT { LookupAt(f, 1); } else { LookupNone(f, "parentEndpointId"); }
  }

  lemma EndpointReloads(ep: Endpoint)
    ensures LoadedEndpoint(EndpointJson(ep)) == ep <==> StorableEndpoint(ep)
  {
    hide Get, EndpointJson, LoadedTypes, LoadedParts, Numbers, CString;
    EndpointFields(ep);
    TypesReload(ep.types);
    PartsReload(ep.parts);
  }

  lemma EndpointsReload(eps: seq<Endpoint>)
    ensures LoadedEndpoints(EndpointsJson(eps)) == eps <==> forall ep :: ep in eps ==> StorableEndpoint(ep)
  {
    hide EndpointJson, LoadedEndpoint, StorableEndpoint;
    var r := LoadedEndpoints(EndpointsJson(eps));
    forall i | 0 <= i < |eps| ensures r[i] == eps[i] <==> StorableEndpoint(eps[i]) {
      EndpointReloads(eps[i]);
    }
    if r == eps {
      forall ep | ep in eps ensures StorableEndpoint(ep) {
        var i :| 0 <= i < |eps| && eps[i] == ep;
      }
    }
  }

  lemma DeviceFields(d: Device)
    ensures var j := DeviceJson(d);
      Get(j, "nodeId") == Number(ToDouble(d.nodeId)) && Get(j, "vendorName") == String(CString(d.vendorName))
      && Get(j, "productName") == String(CString(d.productName)) && Get(j, "name") == String(CString(d.name))
      && Get(j, "deviceType") == Number(ToDouble(d.primaryType))
      && Get(j, "endpoints") == Array(EndpointsJson(d.endpoints))
  {
    hide ToDouble, CString, EndpointsJson;
    var f := DeviceJson(d).fields;
    assert "vendorName"[0] != "deviceType"[0];
    LookupAt(f, 0);
    LookupAt(f, 1);
    LookupAt(f, 2);
    LookupAt(f, 3);
    LookupAt(f, 4);
    LookupAt(f, 5);
  }

  /** The document's two fields. */
  lemma TableFields(ds: seq<Device>, nextNodeId: U64)
    ensures Get(TableJson(ds, nextNodeId), "nextNodeId") == Number(ToDouble(nextNodeId))
    ensures Get(TableJson(ds, nextNodeId), "devices") == Array(DevicesJson(ds))
  {
    hide ToDouble, DevicesJson;
    var f := TableJson(ds, nextNodeId).fields;
    LookupAt(f, 0);
    LookupAt(f, 1);
  }

  /** Fields the loader does not find, or finds with another type, get their defaults. */
  lemma DefaultsAreEmpty(j: Json)
    ensures !Get(j, "nodeId").Number? ==> LoadedDevice(j).nodeId == 0
    ensures !Get(j, "vendorName").String? ==> LoadedDevice(j).vendorName == ""
    ensures !Get(j, "productName").String? ==> LoadedDevice(j).productName == ""
    ensures !Get(j, "name").String? ==> LoadedDevice(j).name == ""
    ensures !Get(j, "deviceType").Number? ==> LoadedDevice(j).primaryType == 0
    ensures Children(Get(j, "endpoints")) == [] ==> LoadedDevice(j).endpoints == []
    ensures !LoadedDevice(j).hasSubscription
    ensures forall current: U64 :: !Get(j, "nextNodeId").Number? ==> LoadedNextId(j, current) == current
  {
    hide Get, Children, LoadedEndpoint;
  }

  lemma EndpointDefaults(j: Json)
    ensures !Get(j, "endpointId").Number? ==> LoadedEndpoint(j).id == 0
    ensures !Get(j, "parentEndpointId").Number? ==> LoadedEndpoint(j).parent == 0xFFFF
    ensures !Get(j, "label").String? ==> LoadedEndpoint(j).nodeLabel == ""
    ensures Get(j, "included") != Bool(true) ==> !LoadedEndpoint(j).included
    ensures Children(Get(j, "deviceTypes")) == [] ==> LoadedEndpoint(j).types == []
    ensures Children(Get(j, "parts")) == [] ==> LoadedEndpoint(j).parts == []
  {
    hide Get, Children, ValueInt;
  }

  /** Of a list only the numbers count. */
  lemma {:induction false} OnlyNumbersLoad(items: seq<Json>, t: U32, p: U16)
    ensures t in LoadedTypes(items) <==>
      exists i :: 0 <= i < |items| && items[i].Number? && t == ValueInt(items[i].value) % 0x1_0000_0000
    ensures p in LoadedParts(items) <==>
      exists i :: 0 <= i < |items| && items[i].Number? && p == ValueInt(items[i].value) % 0x1_0000
  {
    hide ValueInt;
    if items != [] {
      var n := |items| - 1;
      OnlyNumbersLoad(items[..n], t, p);
      assert forall i :: 0 <= i < n ==> items[..n][i] == items[i];
    }
  }

  /** valueint saturates to the range of int. */
  lemma ValueIntSaturates(v: int)
    ensures -2147483648 <= ValueInt(v) <= 2147483647
    ensures -2147483648 <= v <= 2147483647 ==> ValueInt(v) == v
    ensures v > 2147483647 ==> ValueInt(v) == 2147483647
    ensures v < -2147483648 ==> ValueInt(v) == -2147483648
  {
  }

  lemma IdReloads(n: U64)
    ensures DoubleToU64(ToDouble(n)) == n <==> ExactId(n)
  {
    RoundsToItself(n);
  }

  lemma DeviceReloads(d: Device)
    ensures LoadedDevice(DeviceJson(d)) == d.(hasSubscription := false) <==> StorableDevice(d)
  {
    hide Get, DeviceJson, CString, LoadedEndpoints, EndpointsJson, ToDouble, DoubleToU64, ExactId, StorableEndpoint;
    DeviceFields(d);
    EndpointsReload(d.endpoints);
    IdReloads(d.nodeId);
    RoundsToItself(d.primaryType);
  }

  lemma DevicesReload(ds: seq<Device>)
    ensures LoadedDevices(DevicesJson(ds)) == Unsubscribed(ds) <==> forall d :: d in ds ==> StorableDevice(d)
  {
    hide DeviceJson, LoadedDevice, StorableDevice;
    var r, u := LoadedDevices(DevicesJson(ds)), Unsubscribed(ds);
    forall i | 0 <= i < |ds| ensures r[i] == u[i] <==> StorableDevice(ds[i]) {
      DeviceReloads(ds[i]);
    }
    if r == u {
      forall d | d in ds ensures StorableDevice(d) {
        var i :| 0 <= i < |ds| && ds[i] == d;
      }
    }
  }

  /** A table comes back from its own file, subscriptions cleared, exactly when every id fits a
      double, every device type fits an int and no text holds a NUL. */
  lemma TableReloads(ds: seq<Device>, nextNodeId: U64, current: U64)
    ensures (LoadedDevices(Children(Get(TableJson(ds, nextNodeId), "devices"))) == Unsubscribed(ds)
             && LoadedNextId(TableJson(ds, nextNodeId), current) == nextNodeId)
            <==> ExactId(nextNodeId) && forall d :: d in ds ==> StorableDevice(d)
  {
    hide DevicesJson, LoadedDevices, Unsubscribed, StorableDevice, ToDouble, DoubleToU64, ExactId;
    var f := TableJson(ds, nextNodeId).fields;
    LookupAt(f, 0);
    LookupAt(f, 1);
    DevicesReload(ds);
    IdReloads(nextNodeId);
  }

  /** Ids up to 2^53 always survive; 2^53 + 1 is the first that does not. */
  lemma SmallIdsAreExact(n: U64)
    ensures n <= 0x20_0000_0000_0000 ==> ExactId(n)
    ensures !ExactId(0x20_0000_0000_0001)
  {
    RoundsToItself(n);
    assert Ulp(0x20_0000_0000_0001) == 2 * Ulp(0x10_0000_0000_0000) == 2;
  }

  /** The first device type that does not survive comes back as the largest int. */
  lemma BigTypeIsClamped()
    ensures LoadedTypes(Numbers([0x8000_0000])) == [0x7FFF_FFFF]
  {
    LoadedNumbers([0x8000_0000]);
  }
}

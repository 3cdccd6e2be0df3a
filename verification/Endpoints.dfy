/** The device table's records and the pure effect of each table update (device_manager.cpp). */
module Endpoints {
  import opened CTypes

  const NO_PARENT: U16 := 0xFFFF
  const FIRST_NODE_ID: U64 := 10000

  datatype Endpoint = Endpoint(id: U16, parent: U16, nodeLabel: string, included: bool,
                               types: seq<U32>, parts: seq<U16>)

  datatype Device = Device(nodeId: U64, vendorName: string, productName: string, name: string,
                           endpoints: seq<Endpoint>, hasSubscription: bool, primaryType: U32)

  /** Index of the first device with this node id, or the table's length. */
  function FindDevice(devices: seq<Device>, nodeId: U64): (i: nat)
    ensures i <= |devices|
    ensures i < |devices| ==> devices[i].nodeId == nodeId
    ensures forall j :: 0 <= j < i ==> devices[j].nodeId != nodeId
  {
    if devices == [] || devices[0].nodeId == nodeId then 0 else 1 + FindDevice(devices[1..], nodeId)
  }

  function Ids(eps: seq<Endpoint>): set<U16> {
    set i | 0 <= i < |eps| :: eps[i].id
  }

  predicate HasEndpoint(eps: seq<Endpoint>, id: U16) {
    id in Ids(eps)
  }

  /** Index of the first endpoint with this id, or the list's length. */
  function FindEndpoint(eps: seq<Endpoint>, id: U16): (i: nat)
    ensures i <= |eps|
    ensures i < |eps| ==> eps[i].id == id
    ensures forall j :: 0 <= j < i ==> eps[j].id != id
    ensures i < |eps| <==> HasEndpoint(eps, id)
  {
    if eps == [] || eps[0].id == id then 0 else 1 + FindEndpoint(eps[1..], id)
  }

  function PartsOf(eps: seq<Endpoint>, id: U16): seq<U16> {
    if HasEndpoint(eps, id) then eps[FindEndpoint(eps, id)].parts else []
  }

  function TypesOf(eps: seq<Endpoint>, id: U16): seq<U32> {
    if HasEndpoint(eps, id) then eps[FindEndpoint(eps, id)].types else []
  }

  lemma {:induction false} IdsFit(eps: seq<Endpoint>)
    ensures |Ids(eps)| <= |eps|
  {
    if eps != [] {
      var n := |eps| - 1;
      IdsFit(eps[..n]);
      assert Ids(eps) == Ids(eps[..n]) + {eps[n].id};
    }
  }

  ghost predicate UniqueIds(eps: seq<Endpoint>) {
    forall i, j :: 0 <= i < j < |eps| ==> eps[i].id != eps[j].id
  }

  /** r is eps with at most the first endpoint of that id changed, and neither its id, parent nor inclusion. */
  ghost predicate OneEdited(eps: seq<Endpoint>, id: U16, r: seq<Endpoint>) {
    && |r| == |eps|
    && (forall i :: 0 <= i < |eps| && (eps[i].id != id || exists j :: 0 <= j < i && eps[j].id == id) ==> r[i] == eps[i])
    && (forall i :: 0 <= i < |eps| ==> r[i].id == eps[i].id && r[i].parent == eps[i].parent)
    && (forall i :: 0 <= i < |eps| ==> r[i].included == eps[i].included)
  }

  /** add_endpoint: a new endpoint goes last, with no parent, no types and no parts. */
  function WithEndpoint(eps: seq<Endpoint>, id: U16): (r: seq<Endpoint>)
    ensures eps <= r && |r| == if HasEndpoint(eps, id) then |eps| else |eps| + 1
    ensures |r| > |eps| ==> r[|eps|] == Endpoint(id, 0xFFFF, "", false, [], [])
  {
    if HasEndpoint(eps, id) then eps else eps + [Endpoint(id, NO_PARENT, "", false, [], [])]
  }

  /** add_device_type: only an endpoint already in the table takes the type. */
  function WithType(eps: seq<Endpoint>, id: U16, deviceType: U32): (r: seq<Endpoint>)
    ensures OneEdited(eps, id, r)
    ensures forall i :: 0 <= i < |eps| ==> r[i].parts == eps[i].parts && r[i].nodeLabel == eps[i].nodeLabel
  {
    var i := FindEndpoint(eps, id);
    if i == |eps| then eps else eps[i := eps[i].(types := AddOnce(eps[i].types, deviceType))]
  }

  /** add_endpoint_part: only a parent already in the table takes the part. */
  function WithPart(eps: seq<Endpoint>, id: U16, child: U16): (r: seq<Endpoint>)
    ensures OneEdited(eps, id, r)
    ensures forall i :: 0 <= i < |eps| ==> r[i].types == eps[i].types && r[i].nodeLabel == eps[i].nodeLabel
  {
    var i := FindEndpoint(eps, id);
    if i == |eps| then eps else eps[i := eps[i].(parts := AddOnce(eps[i].parts, child))]
  }

  function WithLabel(eps: seq<Endpoint>, id: U16, text: string): (r: seq<Endpoint>)
    ensures OneEdited(eps, id, r)
    ensures forall i :: 0 <= i < |eps| ==> r[i].types == eps[i].types && r[i].parts == eps[i].parts
    ensures forall i :: 0 <= i < |eps| && eps[i].id == id && (forall j :: 0 <= j < i ==> eps[j].id != id) ==>
      r[i].nodeLabel == text
  {
    var i := FindEndpoint(eps, id);
    if i == |eps| then eps else eps[i := eps[i].(nodeLabel := text)]
  }

  /** The whole table after the endpoints of one known device changed. */
  function WithEndpoints(devices: seq<Device>, nodeId: U64, eps: seq<Endpoint>): seq<Device>
    requires FindDevice(devices, nodeId) < |devices|
  {
    var i := FindDevice(devices, nodeId);
    devices[i := devices[i].(endpoints := eps)]
  }
}

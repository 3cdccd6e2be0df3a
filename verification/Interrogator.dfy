/** The interrogation callbacks of matter_controller.cpp, working on the shared device table. */
module Interrogator {
  import opened CTypes
  import opened Endpoints
  import opened Topology
  import opened DeviceTable
  import opened Interrogation

  function PendingOf(pending: map<U64, PendingMap>, nodeId: U64): PendingMap {
    if nodeId in pending then pending[nodeId] else map[]
  }

  lemma EditTwice(devices: seq<Device>, nodeId: U64, a: seq<Endpoint>, b: seq<Endpoint>)
    ensures Edit(Edit(devices, nodeId, a), nodeId, b) == Edit(devices, nodeId, b)
    ensures Knows(devices, nodeId) ==> EndpointsOf(Edit(devices, nodeId, a), nodeId) == a
    ensures Edit(devices, nodeId, EndpointsOf(devices, nodeId)) == devices
    ensures Knows(Edit(devices, nodeId, a), nodeId) <==> Knows(devices, nodeId)
  {
    if Knows(devices, nodeId) { EditIsFound(devices, nodeId, a); }
  }

  class Interrogator {
    const manager: DeviceManager
    var pending: map<U64, PendingMap>

    constructor (manager: DeviceManager)
      ensures this.manager == manager && pending == map[]
    {
      this.manager := manager;
      pending := map[];
    }

    /** on_interrogation_attr: a known device takes the report in, its pending map alongside; an
        unknown device has only its pending map changed. */
    method OnAttr(nodeId: U64, r: Report)
      modifies `pending, manager`devices
      ensures manager.devices ==
        Edit(old(manager.devices), nodeId, After(EndpointsOf(old(manager.devices), nodeId), r))
      ensures PendingOf(pending, nodeId) == PendingAfter(PendingOf(old(pending), nodeId), r)
      ensures forall n :: n != nodeId ==> PendingOf(pending, n) == PendingOf(old(pending), n)
    {
      match r
      case DeviceTypeList(ep, types) => OnDeviceTypes(nodeId, ep, types);
      case PartsList(ep, ids) => OnParts(nodeId, ep, ids);
      case NodeLabel(ep, text) =>
        var err := manager.AddEndpoint(nodeId, ep);
        ghost var eps := WithEndpoint(EndpointsOf(old(manager.devices), nodeId), ep);
        EditTwice(old(manager.devices), nodeId, eps, WithLabel(eps, ep, text));
        err := manager.SetEndpointLabel(nodeId, ep, text);
    }

    method OnDeviceTypes(nodeId: U64, ep: U16, types: seq<U32>)
      modifies `pending, manager`devices
      ensures manager.devices == Edit(old(manager.devices), nodeId,
                AfterTypes(WithEndpoint(EndpointsOf(old(manager.devices), nodeId), ep), ep, types))
      ensures PendingOf(pending, nodeId) == PendingAfter(PendingOf(old(pending), nodeId), DeviceTypeList(ep, types))
      ensures forall n :: n != nodeId ==> PendingOf(pending, n) == PendingOf(old(pending), n)
    {
      hide Edit, EndpointsOf, WithEndpoint, WithType, Knows;
      ghost var devs := manager.devices;
      ghost var eps := WithEndpoint(EndpointsOf(devs, nodeId), ep);
      var err := manager.AddEndpoint(nodeId, ep);
      for k := 0 to |types|
        invariant manager.devices == Edit(devs, nodeId, AfterTypes(eps, ep, types[..k]))
        invariant PendingOf(pending, nodeId)
                  == PendingAfter(PendingOf(old(pending), nodeId), DeviceTypeList(ep, types[..k]))
        invariant forall n :: n != nodeId ==> PendingOf(pending, n) == PendingOf(old(pending), n)
      {
        assert types[..k + 1][..k] == types[..k];
        var t := types[k];
        if t != 0 {
          EditedType(devs, nodeId, AfterTypes(eps, ep, types[..k]), ep, t);
          err := manager.AddDeviceType(nodeId, ep, t);
          var m := PendingOf(pending, nodeId);
          PushType(PendingOf(old(pending), nodeId), ep, types, k);
          pending := pending[nodeId := m[ep := TypesIn(m, ep) + [t]]];
        } else {
          assert NonZero(types[..k + 1]) == NonZero(types[..k]);
        }
      }
      assert types[..|types|] == types;
    }

    method OnParts(nodeId: U64, ep: U16, ids: seq<U16>)
      modifies manager`devices
      ensures manager.devices ==
        Edit(old(manager.devices), nodeId, AfterParts(EndpointsOf(old(manager.devices), nodeId), ep, ids))
    {
      hide Edit, EndpointsOf, WithEndpoint, WithPart, Knows;
      ghost var devs := manager.devices;
      ghost var eps := EndpointsOf(devs, nodeId);
      EditTwice(devs, nodeId, eps, eps);
      for k := 0 to |ids|
        invariant manager.devices == Edit(devs, nodeId, AfterParts(eps, ep, ids[..k]))
      {
        assert ids[..k + 1][..k] == ids[..k];
        EditedPart(devs, nodeId, AfterParts(eps, ep, ids[..k]), ep, ids[k]);
        var err := manager.AddEndpoint(nodeId, ids[k]);
        err := manager.AddEndpointPart(nodeId, ep, ids[k]);
      }
      assert ids[..|ids|] == ids;
    }

    /** on_interrogation_done: the primary type comes from the pending map, which is dropped, and
        the parents are resolved. */
    method OnDone(nodeId: U64) returns (primary: U32)
      modifies `pending, manager`devices
      ensures IsPrimary(PendingOf(old(pending), nodeId), primary)
      ensures pending == old(pending) - {nodeId}
      ensures Knows(old(manager.devices), nodeId) ==>
        var i := FindDevice(old(manager.devices), nodeId);
        var after := EndpointsOf(manager.devices, nodeId);
        Resolved(EndpointsOf(old(manager.devices), nodeId), after)
        && manager.devices ==
           old(manager.devices)[i := old(manager.devices)[i].(primaryType := primary, endpoints := after)]
      ensures !Knows(old(manager.devices), nodeId) ==> manager.devices == old(manager.devices)
    {
      primary := SelectPrimary(PendingOf(pending, nodeId));
      pending := pending - {nodeId};
      ghost var devs := manager.devices;
      var err := manager.SetPrimaryDeviceType(nodeId, primary);
      if Knows(devs, nodeId) { PrimaryIsFound(devs, nodeId, primary); }
      err := manager.ResolveParents(nodeId);
    }
  }

  lemma PrimaryIsFound(devices: seq<Device>, nodeId: U64, t: U32)
    requires Knows(devices, nodeId)
    ensures var i := FindDevice(devices, nodeId);
      FindDevice(devices[i := devices[i].(primaryType := t)], nodeId) == i
  {
    var i := FindDevice(devices, nodeId);
    var after := devices[i := devices[i].(primaryType := t)];
    assert after[i].nodeId == nodeId;
    assert forall j :: 0 <= j < i ==> after[j] == devices[j];
  }

  lemma PushType(m: PendingMap, ep: U16, types: seq<U32>, k: nat)
    requires k < |types| && types[k] != 0
    ensures var now := PendingAfter(m, DeviceTypeList(ep, types[..k]));
      now[ep := TypesIn(now, ep) + [types[k]]] == PendingAfter(m, DeviceTypeList(ep, types[..k + 1]))
  {
    assert types[..k + 1][..k] == types[..k];
    var a, b := NonZero(types[..k]), NonZero(types[..k + 1]);
    assert b == a + [types[k]];
    assert TypesIn(m, ep) + a + [types[k]] == TypesIn(m, ep) + b;
    assert a == [] ==> TypesIn(m, ep) + [types[k]] == TypesIn(m, ep) + b;
  }

  lemma EditedType(devices: seq<Device>, nodeId: U64, eps: seq<Endpoint>, ep: U16, t: U32)
    ensures var d := Edit(devices, nodeId, eps);
      Edit(d, nodeId, WithType(EndpointsOf(d, nodeId), ep, t)) == Edit(devices, nodeId, WithType(eps, ep, t))
  {
    hide WithType;
    EditTwice(devices, nodeId, eps, WithType(eps, ep, t));
  }

  lemma EditedPart(devices: seq<Device>, nodeId: U64, eps: seq<Endpoint>, ep: U16, id: U16)
    ensures var d := Edit(devices, nodeId, eps);
      var e := Edit(d, nodeId, WithEndpoint(EndpointsOf(d, nodeId), id));
      Edit(e, nodeId, WithPart(EndpointsOf(e, nodeId), ep, id))
      == Edit(devices, nodeId, WithPart(WithEndpoint(eps, id), ep, id))
  {
    hide WithPart, WithEndpoint;
    EditTwice(devices, nodeId, eps, WithEndpoint(eps, id));
    EditTwice(devices, nodeId, WithEndpoint(eps, id), WithPart(WithEndpoint(eps, id), ep, id));
  }

  /** select_primary_device_type: std::map hands out the endpoints in ascending order. */
  method SelectPrimary(endpoints: PendingMap) returns (r: U32)
    ensures IsPrimary(endpoints, r)
  {
    for ep := 1 to 0x1_0000
      invariant forall e: U16 :: 0 < e < ep ==> MainOf(endpoints, e).None?
    {
      if ep in endpoints {
        var t := FirstOwnType(endpoints[ep]);
        if t.Some? {
          assert LowestMain(endpoints, ep);
          return t.value;
        }
      }
    }
    for ep := 0 to 0x1_0000
      invariant ep > 0 ==> MainOf(endpoints, 0).None?
    {
      if ep in endpoints {
        var t := FirstOwnType(endpoints[ep]);
        assert t == MainOf(endpoints, ep);
        if t.Some? { return t.value; }
      }
    }
    r := 0;
  }

  method FirstOwnType(types: seq<U32>) returns (r: Option<U32>)
    ensures r == MainType(types)
  {
    for i := 0 to |types|
      invariant MainType(types) == MainType(types[i..])
    {
      if types[i] != ROOT_NODE { return Some(types[i]); }
      assert types[i..][1..] == types[i + 1..];
    }
    r := None;
  }

  /** A whole interrogation of a known device with no endpoints yet: whatever the order of the
      reports, the primary type is the one the finished table itself would give. */
  method Interrogate(it: Interrogator, nodeId: U64, rs: seq<Report>) returns (primary: U32)
    requires Knows(it.manager.devices, nodeId)
    requires EndpointsOf(it.manager.devices, nodeId) == [] && PendingOf(it.pending, nodeId) == map[]
    modifies it`pending, it.manager`devices
    ensures Resolved(AfterAll([], rs), EndpointsOf(it.manager.devices, nodeId))
    ensures IsPrimary(TypeMap(AfterAll([], rs)), primary)
    ensures Knows(it.manager.devices, nodeId)
      && it.manager.devices[FindDevice(it.manager.devices, nodeId)].primaryType == primary
  {
    hide After, PendingAfter, Resolved, IsPrimary;
    ghost var devs := it.manager.devices;
    EditTwice(devs, nodeId, [], []);
    for i := 0 to |rs|
      invariant it.manager.devices == Edit(devs, nodeId, AfterAll([], rs[..i]))
      invariant PendingOf(it.pending, nodeId) == PendingAll(map[], rs[..i])
    {
      assert rs[..i + 1][..i] == rs[..i];
      EditTwice(devs, nodeId, AfterAll([], rs[..i]), After(AfterAll([], rs[..i]), rs[i]));
      it.OnAttr(nodeId, rs[i]);
    }
    assert rs[..|rs|] == rs;
    EditTwice(devs, nodeId, AfterAll([], rs), []);
    label Done:
    primary := it.OnDone(nodeId);
    PrimaryFromEitherIndex(rs, primary);
    assert it.manager.devices[FindDevice(old@Done(it.manager.devices), nodeId)].primaryType == primary;
    FoundAgain(old@Done(it.manager.devices), it.manager.devices, nodeId);
  }

  lemma FoundAgain(before: seq<Device>, after: seq<Device>, nodeId: U64)
    requires Knows(before, nodeId) && |after| == |before|
    requires forall j :: 0 <= j < |before| ==> after[j].nodeId == before[j].nodeId
    ensures FindDevice(after, nodeId) == FindDevice(before, nodeId)
  {
    var i := FindDevice(before, nodeId);
    assert after[i].nodeId == nodeId;
  }
}

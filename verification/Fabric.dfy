/** The devices' own lists, what the read callbacks make of them, and the steps the controller takes
    on them (Matter Core Specification sections 9.6, 9.10 and 11.2). */
module Fabric {
  import opened CTypes

  const CONTROLLER: U64 := 112233
  const ONOFF: U32 := 0x0006
  const OPERATE: U8 := 3
  const ADMINISTER: U8 := 5
  const AUTH_CASE: U8 := 2
  const AUTH_GROUP: U8 := 3

  // ---- Lists as a device reports them: a field may be absent or unreadable --------------------

  datatype AclRaw = AclRaw(privilege: Option<U8>, authMode: Option<U8>, subjects: Option<seq<U64>>)
  datatype BindingRaw = BindingRaw(node: Option<U64>, group: Option<U16>, endpoint: Option<U16>, cluster: Option<U32>)
  datatype KeyMapRaw = KeyMapRaw(group: Option<U16>, keyset: Option<U16>)

  // ---- Lists as the controller holds them ------------------------------------------------------

  datatype AclEntry = AclEntry(privilege: U8, authMode: U8, subjects: seq<U64>)
  datatype Target = Target(node: U64, endpoint: U16, cluster: U32, group: U16, isGroup: bool)
  datatype KeyMapEntry = KeyMapEntry(group: U16, keyset: U16)

  function ReadEntry(r: AclRaw): AclEntry {
    AclEntry(r.privilege.GetOr(0), r.authMode.GetOr(0), r.subjects.GetOr([]))
  }

  /** on_acl_read_full keeps every entry, absent fields as 0 or empty. */
  function ReadAcl(rs: seq<AclRaw>): (es: seq<AclEntry>)
    ensures |es| == |rs| && forall i :: 0 <= i < |rs| ==> es[i] == ReadEntry(rs[i])
  {
    if rs == [] then [] else ReadAcl(rs[..|rs| - 1]) + [ReadEntry(rs[|rs| - 1])]
  }

  predicate IsOperate(e: AclEntry) {
    e.privilege == OPERATE && e.authMode == AUTH_CASE
  }

  /** on_acl_read_attr collects the subjects of the Operate/CASE entries, each once. */
  function OperateSubjects(rs: seq<AclRaw>): (s: seq<U64>)
    ensures NoDuplicates(s)
    ensures forall x :: x in s <==>
      exists i :: 0 <= i < |rs| && IsOperate(ReadEntry(rs[i])) && x in ReadEntry(rs[i]).subjects
  {
    if rs == [] then [] else
    var n := |rs| - 1;
    var before := OperateSubjects(rs[..n]);
    assert forall i :: 0 <= i < n ==> rs[..n][i] == rs[i];
    if IsOperate(ReadEntry(rs[n])) then AddAllOnce(before, ReadEntry(rs[n]).subjects) else before
  }

  /** on_binding_read_attr keeps group targets, and unicast ones with both endpoint and cluster. */
  function ReadTarget(r: BindingRaw): Option<Target> {
    if r.group.Some? || (r.endpoint.Some? && r.cluster.Some?) then
      Some(Target(r.node.GetOr(0), r.endpoint.GetOr(0), r.cluster.GetOr(0), r.group.GetOr(0), r.group.Some?))
    else None
  }

  function ReadTargets(rs: seq<BindingRaw>): (ts: seq<Target>)
    ensures forall t :: t in ts <==> exists i :: 0 <= i < |rs| && ReadTarget(rs[i]) == Some(t)
  {
    if rs == [] then [] else
    var n := |rs| - 1;
    assert forall i :: 0 <= i < n ==> rs[..n][i] == rs[i];
    ReadTargets(rs[..n]) + if ReadTarget(rs[n]).Some? then [ReadTarget(rs[n]).value] else []
  }

  /** on_groupkeymap_read_attr keeps the entries with both fields. */
  function ReadKeyMapEntry(r: KeyMapRaw): Option<KeyMapEntry> {
    if r.group.Some? && r.keyset.Some? then Some(KeyMapEntry(r.group.value, r.keyset.value)) else None
  }

  function ReadKeyMap(rs: seq<KeyMapRaw>): (es: seq<KeyMapEntry>)
    ensures forall e :: e in es <==> exists i :: 0 <= i < |rs| && ReadKeyMapEntry(rs[i]) == Some(e)
  {
    if rs == [] then [] else
    var n := |rs| - 1;
    assert forall i :: 0 <= i < n ==> rs[..n][i] == rs[i];
    ReadKeyMap(rs[..n]) + if ReadKeyMapEntry(rs[n]).Some? then [ReadKeyMapEntry(rs[n]).value] else []
  }

  // ---- Lists as they are written: exactly the fields the serialisers print ----------------------

  function WriteEntry(e: AclEntry): AclRaw {
    AclRaw(Some(e.privilege), Some(e.authMode), Some(e.subjects))
  }

  function WriteAcl(es: seq<AclEntry>): (rs: seq<AclRaw>)
    ensures |rs| == |es| && forall i :: 0 <= i < |es| ==> rs[i] == WriteEntry(es[i])
  {
    if es == [] then [] else WriteAcl(es[..|es| - 1]) + [WriteEntry(es[|es| - 1])]
  }

  function WriteTarget(t: Target): BindingRaw {
    if t.isGroup then BindingRaw(None, Some(t.group), None, Some(t.cluster))
    else BindingRaw(Some(t.node), None, Some(t.endpoint), Some(t.cluster))
  }

  function WriteTargets(ts: seq<Target>): (rs: seq<BindingRaw>)
    ensures |rs| == |ts| && forall i :: 0 <= i < |ts| ==> rs[i] == WriteTarget(ts[i])
  {
    if ts == [] then [] else WriteTargets(ts[..|ts| - 1]) + [WriteTarget(ts[|ts| - 1])]
  }

  function WriteKeyMapEntry(e: KeyMapEntry): KeyMapRaw {
    KeyMapRaw(Some(e.group), Some(e.keyset))
  }

  function WriteKeyMap(es: seq<KeyMapEntry>): (rs: seq<KeyMapRaw>)
    ensures |rs| == |es| && forall i :: 0 <= i < |es| ==> rs[i] == WriteKeyMapEntry(es[i])
  {
    if es == [] then [] else WriteKeyMap(es[..|es| - 1]) + [WriteKeyMapEntry(es[|es| - 1])]
  }

  lemma AclReadsBack(es: seq<AclEntry>)
    ensures ReadAcl(WriteAcl(es)) == es
  {
  }

  lemma {:induction false} KeyMapReadsBack(es: seq<KeyMapEntry>)
    ensures ReadKeyMap(WriteKeyMap(es)) == es
  {
    if es != [] {
      var n := |es| - 1;
      KeyMapReadsBack(es[..n]);
      assert WriteKeyMap(es)[..n] == WriteKeyMap(es[..n]);
      assert es == es[..n] + [es[n]];
    }
  }

  /** A target as it reads after having been written: a group target keeps its group and cluster. */
  function Normal(t: Target): Target {
    if t.isGroup then Target(0, 0, t.cluster, t.group, true) else Target(t.node, t.endpoint, t.cluster, 0, false)
  }

  lemma WrittenTargets(ts: seq<Target>, t: Target)
    ensures t in ReadTargets(WriteTargets(ts)) <==> exists u :: u in ts && t == Normal(u)
  {
    var rs := WriteTargets(ts);
    forall i | 0 <= i < |ts| ensures ReadTarget(rs[i]) == Some(Normal(ts[i])) { }
    if u :| u in ts && t == Normal(u) {
      var i :| 0 <= i < |ts| && ts[i] == u;
      assert ReadTarget(rs[i]) == Some(t);
    }
  }

  // ---- The network -------------------------------------------------------------------------------

  /** `groups` holds the (endpoint, group) memberships of the Groups cluster. */
  datatype Device = Device(acl: seq<AclRaw>, bindings: map<U16, seq<BindingRaw>>, keyMap: seq<KeyMapRaw>,
                           keysets: set<U16>, groups: set<(U16, U16)>)

  type Network = map<U64, Device>

  /** One write or command a device has carried out. */
  datatype Step =
    | PutAcl(node: U64, acl: seq<AclRaw>)
    | PutBindings(node: U64, endpoint: U16, bindings: seq<BindingRaw>)
    | PutKeyMap(node: U64, keyMap: seq<KeyMapRaw>)
    | PutKeyset(node: U64, keyset: U16)
    | DropKeyset(node: U64, keyset: U16)
    | JoinGroup(node: U64, endpoint: U16, group: U16)
    | LeaveGroup(node: U64, endpoint: U16, group: U16)
    | LeaveAllGroups(node: U64, endpoint: U16)

  function Carry(d: Device, s: Step): Device {
    match s
    case PutAcl(_, acl) => d.(acl := acl)
    case PutBindings(_, ep, bindings) => d.(bindings := d.bindings[ep := bindings])
    case PutKeyMap(_, keyMap) => d.(keyMap := keyMap)
    case PutKeyset(_, keyset) => d.(keysets := d.keysets + {keyset})
    case DropKeyset(_, keyset) => d.(keysets := d.keysets - {keyset})
    case JoinGroup(_, ep, g) => d.(groups := d.groups + {(ep, g)})
    case LeaveGroup(_, ep, g) => d.(groups := d.groups - {(ep, g)})
    case LeaveAllGroups(_, ep) => d.(groups := set m | m in d.groups && m.0 != ep)
  }

  function Apply(net: Network, s: Step): (r: Network)
    ensures r.Keys == net.Keys
    ensures forall n :: n in net && n != s.node ==> r[n] == net[n]
  {
    if s.node in net then net[s.node := Carry(net[s.node], s)] else net
  }

  /** The state after the steps; ApplyAll(net, steps[..i]) are the states on the way. */
  function ApplyAll(net: Network, steps: seq<Step>): (r: Network)
    ensures r.Keys == net.Keys
  {
    if steps == [] then net else Apply(ApplyAll(net, steps[..|steps| - 1]), steps[|steps| - 1])
  }

  lemma {:induction false} ApplySplit(net: Network, a: seq<Step>, b: seq<Step>)
    ensures ApplyAll(net, a + b) == ApplyAll(ApplyAll(net, a), b)
  {
    if b == [] {
      assert a + b == a;
    } else {
      var n := |b| - 1;
      ApplySplit(net, a, b[..n]);
      assert (a + b)[..|a| + n] == a + b[..n];
    }
  }

  lemma ApplyNext(net: Network, steps: seq<Step>, s: Step)
    ensures ApplyAll(net, steps + [s]) == Apply(ApplyAll(net, steps), s)
  {
    assert (steps + [s])[..|steps|] == steps;
  }

  lemma ApplyFirst(net: Network, s: Step)
    ensures ApplyAll(net, [s]) == Apply(net, s)
  {
    ApplyNext(net, [], s);
    assert [] + [s] == [s];
  }

  function HasBindings(net: Network, node: U64, ep: U16): bool {
    node in net && ep in net[node].bindings
  }
}

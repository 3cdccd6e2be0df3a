/** What each provisioning call of matter_controller.cpp does to the network: the steps carried out
    and the result, for every possible answer of the devices along the way. */
module Calls {
  import opened CTypes
  import opened Fabric
  import Endpoints
  import DeviceTable

  const APP_KEYSET: U16 := 1
  const MAX_KEYSET_SCAN: U16 := 32

  /** What a call meets: the answer to each remote operation in the order the call's text makes them
      (an operation that is not reached leaves its answer unused), the device table, whether the shared
      epoch key is stored, and the reads that are handed another list than the device's own, because an
      earlier read that had timed out has reported late. */
  datatype Env = Env(replies: seq<Err>, table: seq<Endpoints.Device>, keyStored: bool, handed: map<nat, Lists>)

  /** The list a read leaves in its snapshot is the one of these that belongs to its attribute. */
  datatype Lists = Lists(acl: seq<AclRaw>, bindings: seq<BindingRaw>, keyMap: seq<KeyMapRaw>)

  /** Every read that succeeds is handed the device's own list. */
  predicate OwnLists(env: Env) {
    env.handed == map[]
  }

  datatype Out = Out(steps: seq<Step>, err: Err)

  /** The k-th answer; nothing succeeds on a node or endpoint that is not there. */
  function Reply(env: Env, k: nat, present: bool): (e: Err)
    ensures e == Ok ==> present
    ensures e == Ok <==> k < |env.replies| && env.replies[k] == Ok && present
  {
    if k >= |env.replies| then Timeout
    else if env.replies[k] == Ok && !present then Fail
    else env.replies[k]
  }

  /** The answer to a read: a late report makes it succeed even where there is nothing to read. */
  function ReadReply(env: Env, k: nat, present: bool): (e: Err)
    ensures e == Ok <==> k < |env.replies| && env.replies[k] == Ok && (present || k in env.handed)
  {
    Reply(env, k, present || k in env.handed)
  }

  /** Operations i, a read, and j, a write, both succeed where there is something to read and write. */
  predicate BothOk(env: Env, i: nat, j: nat) {
    Reply(env, i, true) == Ok && Reply(env, j, true) == Ok
  }

  // The lists that the k-th operation, a read, is handed.

  function AclAt(net: Network, env: Env, k: nat, node: U64): seq<AclRaw> {
    if k in env.handed then env.handed[k].acl else if node in net then net[node].acl else []
  }

  function BindingsAt(net: Network, env: Env, k: nat, node: U64, ep: U16): seq<BindingRaw> {
    if k in env.handed then env.handed[k].bindings
    else if HasBindings(net, node, ep) then net[node].bindings[ep]
    else []
  }

  function KeyMapAt(net: Network, env: Env, k: nat, node: U64): seq<KeyMapRaw> {
    if k in env.handed then env.handed[k].keyMap else if node in net then net[node].keyMap else []
  }

  /** The first n operations of the call succeed, where node and endpoint are there. */
  predicate AllOk(env: Env, n: nat) {
    n <= |env.replies| && forall i :: 0 <= i < n ==> env.replies[i] == Ok
  }

  function SwitchEp(env: Env, node: U64, ep: U16): Option<U16> {
    if ep == 0 then DeviceTable.SwitchEndpoint(env.table, node) else Some(ep)
  }

  function OnOffEp(env: Env, node: U64, ep: U16): Option<U16> {
    if ep == 0 then DeviceTable.OnOffEndpoint(env.table, node) else Some(ep)
  }

  function AppEp(env: Env, node: U64): U16 {
    DeviceTable.OnOffEndpoint(env.table, node).GetOr(1)
  }

  // ---- New list values -------------------------------------------------------------------------

  const ADMIN := AclEntry(ADMINISTER, AUTH_CASE, [CONTROLLER])

  /** build_acl_json: the Administer entry, and one Operate entry when anyone is to be named in it. */
  function GrantList(subjects: seq<U64>): seq<AclEntry> {
    [ADMIN] + if subjects == [] then [] else [AclEntry(OPERATE, AUTH_CASE, subjects)]
  }

  function Drop(s: seq<U64>, x: U64): (r: seq<U64>)
    ensures forall y :: y in r <==> y in s && y != x
    ensures x !in s ==> r == s
  {
    if s == [] then [] else
    assert s == s[..|s| - 1] + [s[|s| - 1]];
    Drop(s[..|s| - 1], x) + if s[|s| - 1] == x then [] else [s[|s| - 1]]
  }

  predicate Aims(t: Target, light: U64, ep: U16) {
    t.node == light && t.endpoint == ep && t.cluster == ONOFF
  }

  /** create_binding's list: a matching target, of either kind, is enough to add nothing. */
  function WithTarget(ts: seq<Target>, light: U64, ep: U16): seq<Target> {
    if exists i :: 0 <= i < |ts| && Aims(ts[i], light, ep) then ts else ts + [Target(light, ep, ONOFF, 0, false)]
  }

  /** delete_binding's match; endpoint 0 matches every endpoint of the light. */
  predicate Matches(t: Target, light: U64, ep: U16) {
    t.node == light && t.cluster == ONOFF && (ep == 0 || t.endpoint == ep)
  }

  function WithoutTarget(ts: seq<Target>, light: U64, ep: U16): (r: seq<Target>)
    ensures forall t :: t in r <==> t in ts && !Matches(t, light, ep)
  {
    if ts == [] then [] else
    var last := ts[|ts| - 1];
    WithoutTarget(ts[..|ts| - 1], light, ep) + if Matches(last, light, ep) then [] else [last]
  }

  predicate AimsGroup(t: Target, g: U16) {
    t.isGroup && t.group == g && t.cluster == ONOFF
  }

  function WithGroupTarget(ts: seq<Target>, g: U16): seq<Target> {
    if exists i :: 0 <= i < |ts| && AimsGroup(ts[i], g) then ts else ts + [Target(0, 0, ONOFF, g, true)]
  }

  function WithoutGroupTarget(ts: seq<Target>, g: U16): (r: seq<Target>)
    ensures forall t :: t in r <==> t in ts && !AimsGroup(t, g)
  {
    if ts == [] then [] else
    var last := ts[|ts| - 1];
    WithoutGroupTarget(ts[..|ts| - 1], g) + if AimsGroup(last, g) then [] else [last]
  }

  predicate Maps(es: seq<KeyMapEntry>, g: U16) {
    exists i :: 0 <= i < |es| && es[i].group == g
  }

  /** An entry for the group is left as it is, whatever keyset it names. */
  function WithMapping(es: seq<KeyMapEntry>, g: U16, keyset: U16): seq<KeyMapEntry> {
    if Maps(es, g) then es else es + [KeyMapEntry(g, keyset)]
  }

  function WithoutMapping(es: seq<KeyMapEntry>, g: U16): (r: seq<KeyMapEntry>)
    ensures forall e :: e in r <==> e in es && e.group != g
    ensures !Maps(es, g) ==> r == es
  {
    if es == [] then [] else
    assert es == es[..|es| - 1] + [es[|es| - 1]];
    WithoutMapping(es[..|es| - 1], g) + if es[|es| - 1].group == g then [] else [es[|es| - 1]]
  }

  predicate IsAdmin(e: AclEntry) {
    e.privilege == ADMINISTER && e.authMode == AUTH_CASE
  }

  predicate IsGroupEntry(e: AclEntry) {
    e.privilege == OPERATE && e.authMode == AUTH_GROUP
  }

  /** Every entry but the Administer ones, with the group in each Operate/Group entry. */
  function Admitted(es: seq<AclEntry>, g: U16): seq<AclEntry> {
    if es == [] then [] else
    var last := es[|es| - 1];
    Admitted(es[..|es| - 1], g)
    + if IsAdmin(last) then []
      else if IsGroupEntry(last) then [last.(subjects := AddOnce(last.subjects, g as U64))]
      else [last]
  }

  predicate HasGroupEntry(es: seq<AclEntry>) {
    exists i :: 0 <= i < |es| && IsGroupEntry(es[i])
  }

  /** add_group_member's list. */
  function AdmitList(es: seq<AclEntry>, g: U16): seq<AclEntry> {
    [ADMIN] + Admitted(es, g) + if HasGroupEntry(es) then [] else [AclEntry(OPERATE, AUTH_GROUP, [g as U64])]
  }

  /** Entries without privilege or auth mode, and group entries left empty, go as well. */
  function Expelled(es: seq<AclEntry>, g: U16): seq<AclEntry> {
    if es == [] then [] else
    var last := es[|es| - 1];
    Expelled(es[..|es| - 1], g)
    + if last.privilege == 0 || last.authMode == 0 || IsAdmin(last) then []
      else if IsGroupEntry(last) then
        var left := Drop(last.subjects, g as U64);
        if left == [] then [] else [last.(subjects := left)]
      else [last]
  }

  /** remove_group_member's list. */
  function ExpelList(es: seq<AclEntry>, g: U16): seq<AclEntry> {
    [ADMIN] + Expelled(es, g)
  }

  // ---- The calls ---------------------------------------------------------------------------------

  function CreateBinding(net: Network, env: Env, sw: U64, swEp: U16, light: U64, lightEp: U16): Out {
    var from, to := SwitchEp(env, sw, swEp), OnOffEp(env, light, lightEp);
    if from.None? || to.None? then Out([], NotFound) else
    if ReadReply(env, 0, light in net) != Ok then Out([], ReadReply(env, 0, light in net)) else
    if Reply(env, 1, light in net) != Ok then Out([], Reply(env, 1, light in net)) else
    var grant := PutAcl(light, WriteAcl(GrantList(AddOnce(OperateSubjects(AclAt(net, env, 0, light)), sw))));
    var mid := Apply(net, grant);
    var there := HasBindings(mid, sw, from.value);
    if ReadReply(env, 2, there) != Ok then Out([grant], ReadReply(env, 2, there)) else
    if Reply(env, 3, there) != Ok then Out([grant], Reply(env, 3, there)) else
    var ts := WithTarget(ReadTargets(BindingsAt(mid, env, 2, sw, from.value)), light, to.value);
    Out([grant, PutBindings(sw, from.value, WriteTargets(ts))], Ok)
  }

  /** The first half of delete_binding; endpoint 0 stands for a light whose endpoint is unknown. */
  function Unbind(net: Network, env: Env, sw: U64, ep: U16, light: U64, lightEp: U16): seq<Step> {
    if ReadReply(env, 0, HasBindings(net, sw, ep)) == Ok && Reply(env, 1, HasBindings(net, sw, ep)) == Ok then
      [PutBindings(sw, ep, WriteTargets(WithoutTarget(ReadTargets(BindingsAt(net, env, 0, sw, ep)), light, lightEp)))]
    else []
  }

  /** The second half. */
  function Revoke(net: Network, env: Env, sw: U64, light: U64): seq<Step> {
    if ReadReply(env, 2, light in net) == Ok && Reply(env, 3, light in net) == Ok then
      [PutAcl(light, WriteAcl(GrantList(Drop(OperateSubjects(AclAt(net, env, 2, light)), sw))))]
    else []
  }

  function DeleteBinding(net: Network, env: Env, sw: U64, swEp: U16, light: U64, lightEp: U16): Out {
    var from := SwitchEp(env, sw, swEp);
    if from.None? then Out([], NotFound) else
    var unbind := Unbind(net, env, sw, from.value, light, OnOffEp(env, light, lightEp).GetOr(0));
    Out(unbind + Revoke(ApplyAll(net, unbind), env, sw, light), Ok)
  }

  /** install_group_key_on_node, operations 0 to 2: a map that cannot be read counts as empty. */
  function InstallKey(net: Network, env: Env, node: U64, g: U16): Out {
    if !env.keyStored then Out([], NotFound) else
    if Reply(env, 0, node in net) != Ok then Out([], Reply(env, 0, node in net)) else
    var key := PutKeyset(node, APP_KEYSET);
    var known := if ReadReply(env, 1, node in net) == Ok then ReadKeyMap(KeyMapAt(net, env, 1, node)) else [];
    if Reply(env, 2, node in net) != Ok then Out([key], Reply(env, 2, node in net)) else
    Out([key, PutKeyMap(node, WriteKeyMap(WithMapping(known, g, APP_KEYSET)))], Ok)
  }

  function AddGroupMember(net: Network, env: Env, node: U64, g: U16): Out {
    var install := InstallKey(net, env, node, g);
    if install.err != Ok then install else
    if ReadReply(env, 3, node in net) != Ok then Out(install.steps, ReadReply(env, 3, node in net)) else
    if Reply(env, 4, node in net) != Ok then Out(install.steps, Reply(env, 4, node in net)) else
    var admit := PutAcl(node, WriteAcl(AdmitList(ReadAcl(AclAt(net, env, 3, node)), g)));
    if Reply(env, 5, node in net) != Ok then Out(install.steps + [admit], Reply(env, 5, node in net)) else
    Out(install.steps + [admit, JoinGroup(node, AppEp(env, node), g)], Ok)
  }

  function LeaveStep(net: Network, env: Env, node: U64, g: U16): seq<Step> {
    if Reply(env, 0, node in net) == Ok then [LeaveGroup(node, AppEp(env, node), g)] else []
  }

  function UnmapStep(net: Network, env: Env, node: U64, g: U16): seq<Step> {
    if ReadReply(env, 1, node in net) == Ok && Reply(env, 2, node in net) == Ok then
      [PutKeyMap(node, WriteKeyMap(WithoutMapping(ReadKeyMap(KeyMapAt(net, env, 1, node)), g)))]
    else []
  }

  function ExpelStep(net: Network, env: Env, node: U64, g: U16): seq<Step> {
    if ReadReply(env, 3, node in net) == Ok && Reply(env, 4, node in net) == Ok then
      [PutAcl(node, WriteAcl(ExpelList(ReadAcl(AclAt(net, env, 3, node)), g)))]
    else []
  }

  function RemoveGroupMember(net: Network, env: Env, node: U64, g: U16): Out {
    Out(LeaveStep(net, env, node, g) + UnmapStep(net, env, node, g) + ExpelStep(net, env, node, g), Ok)
  }

  function CreateGroupBinding(net: Network, env: Env, sw: U64, swEp: U16, g: U16): Out {
    var from := SwitchEp(env, sw, swEp);
    if from.None? then Out([], NotFound) else
    var install := InstallKey(net, env, sw, g);
    if install.err != Ok then install else
    var there := HasBindings(net, sw, from.value);
    var known := if ReadReply(env, 3, there) == Ok then ReadTargets(BindingsAt(net, env, 3, sw, from.value)) else [];
    if Reply(env, 4, there) != Ok then Out(install.steps, Reply(env, 4, there)) else
    var bind := PutBindings(sw, from.value, WriteTargets(WithGroupTarget(known, g)));
    Out(install.steps + [bind] + LocalGroup(net, env, 5, sw, g, true), Ok)
  }

  function DeleteGroupBinding(net: Network, env: Env, sw: U64, swEp: U16, g: U16): Out {
    var from := SwitchEp(env, sw, swEp);
    if from.None? then Out([], NotFound) else
    var there := HasBindings(net, sw, from.value);
    var unbind :=
      if ReadReply(env, 0, there) == Ok && Reply(env, 1, there) == Ok then
        var ts := WithoutGroupTarget(ReadTargets(BindingsAt(net, env, 0, sw, from.value)), g);
        [PutBindings(sw, from.value, WriteTargets(ts))]
      else [];
    Out(unbind + LocalGroup(net, env, 2, sw, g, false), Ok)
  }

  /** The switch's own membership, when it has an OnOff endpoint to hold one. */
  function LocalGroup(net: Network, env: Env, k: nat, sw: U64, g: U16, join: bool): seq<Step> {
    var ep := DeviceTable.OnOffEndpoint(env.table, sw);
    if ep.None? || Reply(env, k, sw in net) != Ok then []
    else if join then [JoinGroup(sw, ep.value, g)] else [LeaveGroup(sw, ep.value, g)]
  }

  /** KeySetRemove for the keysets 1 to n. */
  function DropKeysets(net: Network, env: Env, node: U64, n: U16): seq<Step> {
    if n == 0 then [] else
    DropKeysets(net, env, node, n - 1) + if Reply(env, n, node in net) == Ok then [DropKeyset(node, n)] else []
  }

  function ResetNodeGroups(net: Network, env: Env, node: U64): Out {
    Out((if Reply(env, 0, node in net) == Ok then [PutKeyMap(node, [])] else [])
        + DropKeysets(net, env, node, MAX_KEYSET_SCAN)
        + (if Reply(env, MAX_KEYSET_SCAN + 1, node in net) == Ok then [LeaveAllGroups(node, AppEp(env, node))] else []),
        Ok)
  }

  function ResetAcl(net: Network, env: Env, node: U64): Out {
    var e := Reply(env, 0, node in net);
    Out(if e == Ok then [PutAcl(node, WriteAcl(GrantList([])))] else [], e)
  }

  function ResetBindings(net: Network, env: Env, node: U64): Out {
    var ep := DeviceTable.SwitchEndpoint(env.table, node);
    if ep.None? then Out([], Ok) else
    var e := Reply(env, 0, HasBindings(net, node, ep.value));
    Out(if e == Ok then [PutBindings(node, ep.value, [])] else [], e)
  }

  // ---- Runs ----------------------------------------------------------------------------------------

  datatype Call =
    | CallCreateBinding(sw: U64, swEp: U16, light: U64, lightEp: U16)
    | CallDeleteBinding(sw: U64, swEp: U16, light: U64, lightEp: U16)
    | CallAddGroupMember(node: U64, group: U16)
    | CallRemoveGroupMember(node: U64, group: U16)
    | CallCreateGroupBinding(sw: U64, swEp: U16, group: U16)
    | CallDeleteGroupBinding(sw: U64, swEp: U16, group: U16)
    | CallResetNodeGroups(node: U64)
    | CallResetAcl(node: U64)
    | CallResetBindings(node: U64)

  function Perform(net: Network, env: Env, c: Call): Out {
    match c
    case CallCreateBinding(sw, swEp, light, lightEp) => CreateBinding(net, env, sw, swEp, light, lightEp)
    case CallDeleteBinding(sw, swEp, light, lightEp) => DeleteBinding(net, env, sw, swEp, light, lightEp)
    case CallAddGroupMember(node, g) => AddGroupMember(net, env, node, g)
    case CallRemoveGroupMember(node, g) => RemoveGroupMember(net, env, node, g)
    case CallCreateGroupBinding(sw, swEp, g) => CreateGroupBinding(net, env, sw, swEp, g)
    case CallDeleteGroupBinding(sw, swEp, g) => DeleteGroupBinding(net, env, sw, swEp, g)
    case CallResetNodeGroups(node) => ResetNodeGroups(net, env, node)
    case CallResetAcl(node) => ResetAcl(net, env, node)
    case CallResetBindings(node) => ResetBindings(net, env, node)
  }

  /** A run of calls, each meeting its own answers. */
  datatype Event = Event(call: Call, env: Env)

  /** Every step a run carries out, in order. */
  function RunSteps(net: Network, run: seq<Event>): seq<Step> {
    if run == [] then [] else
    var before := RunSteps(net, run[..|run| - 1]);
    var last := run[|run| - 1];
    before + Perform(ApplyAll(net, before), last.env, last.call).steps
  }
}

/** The provisioning calls of matter_controller.cpp as the firmware runs them: snapshot vectors refilled
    by callbacks, lists rebuilt in loops, texts sent to devices that read them back. */
module Controller {
  import opened CTypes
  import opened Fabric
  import opened Calls
  import opened Effects
  import opened Serialiser
  import opened DeviceTable

  class Controller {
    const manager: DeviceManager
    /** The devices, changed only through the operations below. */
    var net: Network
    /** The network when the current call began, and the steps carried out since. */
    ghost var begun: Network
    ghost var done: seq<Step>
    var keyStored: bool

    // The snapshot vectors the report callbacks fill.
    var bindingEntries: seq<Target>
    var aclOperateSubjects: seq<U64>
    var aclEntries: seq<AclEntry>
    var groupKeyMap: seq<KeyMapEntry>

    constructor (manager: DeviceManager, net: Network, keyStored: bool)
      ensures this.manager == manager && this.net == net && this.keyStored == keyStored && Valid()
    {
      this.manager, this.net, this.keyStored := manager, net, keyStored;
      begun, done := net, [];
      bindingEntries, aclOperateSubjects, aclEntries, groupKeyMap := [], [], [], [];
    }

    ghost predicate Valid()
      reads `net, `begun, `done
    {
      net == ApplyAll(begun, done)
    }

    /** This call has turned `start` into the present network by exactly these steps. */
    ghost predicate Did(start: Network, steps: seq<Step>)
      reads `net, `begun, `done
    {
      Valid() && begun == start && done == steps
    }

    // ---- Report callbacks --------------------------------------------------------------------------

    method OnBindingReadAttr(data: seq<BindingRaw>)
      modifies `bindingEntries
      ensures bindingEntries == ReadTargets(data)
    {
      bindingEntries := [];
      for i := 0 to |data|
        invariant bindingEntries == ReadTargets(data[..i])
      {
        assert data[..i + 1][..i] == data[..i];
        var r := data[i];
        var t := Target(r.node.GetOr(0), r.endpoint.GetOr(0), r.cluster.GetOr(0), r.group.GetOr(0), false);
        if r.group.Some? {
          t := t.(isGroup := true);
          bindingEntries := bindingEntries + [t];
        } else if r.endpoint.Some? && r.cluster.Some? {
          bindingEntries := bindingEntries + [t];
        }
      }
      assert data[..|data|] == data;
    }

    method OnAclReadAttr(data: seq<AclRaw>)
      modifies `aclOperateSubjects
      ensures aclOperateSubjects == OperateSubjects(data)
    {
      aclOperateSubjects := [];
      for i := 0 to |data|
        invariant aclOperateSubjects == OperateSubjects(data[..i])
      {
        assert data[..i + 1][..i] == data[..i];
        var privilege, authMode := data[i].privilege.GetOr(0), data[i].authMode.GetOr(0);
        var subjects := data[i].subjects.GetOr([]);
        if privilege == OPERATE && authMode == AUTH_CASE {
          ghost var before := aclOperateSubjects;
          for j := 0 to |subjects|
            invariant aclOperateSubjects == AddAllOnce(before, subjects[..j])
          {
            assert subjects[..j + 1][..j] == subjects[..j];
            if subjects[j] !in aclOperateSubjects {
              aclOperateSubjects := aclOperateSubjects + [subjects[j]];
            }
          }
          assert subjects[..|subjects|] == subjects;
        }
      }
      assert data[..|data|] == data;
    }

    method OnAclReadFull(data: seq<AclRaw>)
      modifies `aclEntries
      ensures aclEntries == ReadAcl(data)
    {
      aclEntries := [];
      for i := 0 to |data|
        invariant aclEntries == ReadAcl(data[..i])
      {
        assert data[..i + 1][..i] == data[..i];
        var r := data[i];
        aclEntries := aclEntries + [AclEntry(r.privilege.GetOr(0), r.authMode.GetOr(0), r.subjects.GetOr([]))];
      }
      assert data[..|data|] == data;
    }

    method OnGroupKeyMapReadAttr(data: seq<KeyMapRaw>)
      modifies `groupKeyMap
      ensures groupKeyMap == ReadKeyMap(data)
    {
      groupKeyMap := [];
      for i := 0 to |data|
        invariant groupKeyMap == ReadKeyMap(data[..i])
      {
        assert data[..i + 1][..i] == data[..i];
        if data[i].group.Some? && data[i].keyset.Some? {
          groupKeyMap := groupKeyMap + [KeyMapEntry(data[i].group.value, data[i].keyset.value)];
        }
      }
      assert data[..|data|] == data;
    }

    // ---- Remote operations: the k-th answer decides, a failed read leaves any snapshot behind ---------

    method ReadBindings(node: U64, ep: U16, env: Env, k: nat) returns (err: Err)
      modifies `bindingEntries
      ensures err == ReadReply(env, k, HasBindings(net, node, ep))
      ensures err == Ok ==> bindingEntries == ReadTargets(BindingsAt(net, env, k, node, ep))
    {
      err := ReadReply(env, k, HasBindings(net, node, ep));
      if err == Ok {
        OnBindingReadAttr(BindingsAt(net, env, k, node, ep));
      } else {
        bindingEntries := *;
      }
    }

    method ReadAclSubjects(node: U64, env: Env, k: nat) returns (err: Err)
      modifies `aclOperateSubjects
      ensures err == ReadReply(env, k, node in net)
      ensures err == Ok ==> aclOperateSubjects == OperateSubjects(AclAt(net, env, k, node))
    {
      err := ReadReply(env, k, node in net);
      if err == Ok {
        OnAclReadAttr(AclAt(net, env, k, node));
      } else {
        aclOperateSubjects := *;
      }
    }

    method ReadAclFull(node: U64, env: Env, k: nat) returns (err: Err)
      modifies `aclEntries
      ensures err == ReadReply(env, k, node in net)
      ensures err == Ok ==> aclEntries == ReadAcl(AclAt(net, env, k, node))
    {
      err := ReadReply(env, k, node in net);
      if err == Ok {
        OnAclReadFull(AclAt(net, env, k, node));
      } else {
        aclEntries := *;
      }
    }

    method ReadGroupKeyMap(node: U64, env: Env, k: nat) returns (err: Err)
      modifies `groupKeyMap
      ensures err == ReadReply(env, k, node in net)
      ensures err == Ok ==> groupKeyMap == ReadKeyMap(KeyMapAt(net, env, k, node))
    {
      err := ReadReply(env, k, node in net);
      if err == Ok {
        OnGroupKeyMapReadAttr(KeyMapAt(net, env, k, node));
      } else {
        groupKeyMap := *;
      }
    }

    /** A write or command that succeeds is carried out as one step. */
    method Carry(s: Step, env: Env, k: nat, present: bool) returns (err: Err)
      requires Valid()
      modifies `net, `done
      ensures Valid() && err == Reply(env, k, present)
      ensures done == old(done) + if err == Ok then [s] else []
      ensures net == if err == Ok then Apply(old(net), s) else old(net)
    {
      err := Reply(env, k, present);
      if err == Ok {
        ApplyNext(begun, done, s);
        net := Apply(net, s);
        done := done + [s];
      }
    }

    method WriteAclAttr(node: U64, json: string, env: Env, k: nat) returns (err: Err)
      requires Valid() && ParseAcl(json).Some?
      modifies `net, `done
      ensures Valid() && err == Reply(env, k, node in old(net))
      ensures done == old(done) + if err == Ok then [PutAcl(node, ParseAcl(json).value)] else []
      ensures net == if err == Ok then Apply(old(net), PutAcl(node, ParseAcl(json).value)) else old(net)
    {
      err := Carry(PutAcl(node, ParseAcl(json).value), env, k, node in net);
    }

    method WriteBindingsAttr(node: U64, ep: U16, json: string, env: Env, k: nat) returns (err: Err)
      requires Valid() && ParseBindings(json).Some?
      modifies `net, `done
      ensures Valid() && err == Reply(env, k, HasBindings(old(net), node, ep))
      ensures done == old(done) + if err == Ok then [PutBindings(node, ep, ParseBindings(json).value)] else []
      ensures net == if err == Ok then Apply(old(net), PutBindings(node, ep, ParseBindings(json).value)) else old(net)
    {
      err := Carry(PutBindings(node, ep, ParseBindings(json).value), env, k, HasBindings(net, node, ep));
    }

    method WriteKeyMapAttr(node: U64, json: string, env: Env, k: nat) returns (err: Err)
      requires Valid() && ParseKeyMap(json).Some?
      modifies `net, `done
      ensures Valid() && err == Reply(env, k, node in old(net))
      ensures done == old(done) + if err == Ok then [PutKeyMap(node, ParseKeyMap(json).value)] else []
      ensures net == if err == Ok then Apply(old(net), PutKeyMap(node, ParseKeyMap(json).value)) else old(net)
    {
      err := Carry(PutKeyMap(node, ParseKeyMap(json).value), env, k, node in net);
    }

    /** A new call starts here. */
    ghost method Begin()
      modifies `begun, `done
      ensures Did(net, [])
    {
      begun, done := net, [];
    }

    // ---- Endpoints ----------------------------------------------------------------------------------------

    method ResolveSwitch(node: U64, ep: U16) returns (r: Option<U16>)
      ensures r == SwitchEp(Env([], manager.devices, false, map[]), node, ep)
    {
      if ep != 0 { return Some(ep); }
      r := manager.GetSwitchEndpoint(node);
    }

    method ResolveOnOff(node: U64, ep: U16) returns (r: Option<U16>)
      ensures r == OnOffEp(Env([], manager.devices, false, map[]), node, ep)
    {
      if ep != 0 { return Some(ep); }
      r := manager.GetOnOffEndpoint(node);
    }

    // ---- Bindings -----------------------------------------------------------------------------------------

    method CreateBinding(sw: U64, swEp: U16, light: U64, lightEp: U16, replies: seq<Err>, handed: map<nat,
                         Lists>) returns (err: Err)
      modifies `net, `begun, `done, `aclOperateSubjects, `bindingEntries
      ensures var env := Env(replies, manager.devices, keyStored, handed);
        var out := Calls.CreateBinding(old(net), env, sw, swEp, light, lightEp);
        err == out.err && Did(old(net), out.steps)
    {
      hide OperateSubjects, ReadTargets, WriteTargets, WriteAcl, Apply, ApplyAll, WithTarget, AddOnce, GrantList;
      var env := Env(replies, manager.devices, keyStored, handed);
      Begin();
      var from := ResolveSwitch(sw, swEp);
      if from.None? { return NotFound; }
      var to := ResolveOnOff(light, lightEp);
      if to.None? { return NotFound; }

      err := GrantSwitch(sw, light, env);
      if err != Ok { return; }

      err := BindTarget(sw, from.value, light, to.value, env);
    }

    /** The first half of create_binding: the switch becomes an Operate subject of the light. */
    method GrantSwitch(sw: U64, light: U64, env: Env) returns (err: Err)
      requires Did(net, [])
      modifies `net, `done, `aclOperateSubjects
      ensures Valid()
      ensures var read := ReadReply(env, 0, light in old(net));
        err == if read != Ok then read else Reply(env, 1, light in old(net))
      ensures err != Ok ==> done == [] && net == old(net)
      ensures err == Ok ==>
        var grant := PutAcl(light, WriteAcl(GrantList(AddOnce(OperateSubjects(AclAt(old(net), env, 0, light)), sw))));
        done == [grant] && net == Apply(old(net), grant)
    {
      hide OperateSubjects, WriteAcl, ParseAcl, AclText, Apply, ApplyAll, AddOnce;
      err := ReadAclSubjects(light, env, 0);
      if err != Ok { return; }
      var subjects := AddSubject(aclOperateSubjects, sw);
      var json := BuildAclJson(CONTROLLER, subjects);
      AclTextReadsBack(GrantList(subjects));
      err := WriteAclAttr(light, json, env, 1);
    }

    /** The second half: the light becomes a target of the switch. */
    method BindTarget(sw: U64, ep: U16, light: U64, lightEp: U16, env: Env) returns (err: Err)
      requires Valid()
      modifies `net, `done, `bindingEntries
      ensures Valid()
      ensures var there := HasBindings(old(net), sw, ep);
        err == if ReadReply(env, 2, there) != Ok then ReadReply(env, 2, there) else Reply(env, 3, there)
      ensures err != Ok ==> done == old(done)
      ensures err == Ok ==>
        var ts := WithTarget(ReadTargets(BindingsAt(old(net), env, 2, sw, ep)), light, lightEp);
        done == old(done) + [PutBindings(sw, ep, WriteTargets(ts))]
    {
      hide ReadTargets, WriteTargets, ParseBindings, BindingText, Apply, ApplyAll, WithTarget;
      err := ReadBindings(sw, ep, env, 2);
      if err != Ok { return; }
      var targets := AddTarget(bindingEntries, light, lightEp);
      var json := BuildBindingJson(targets);
      BindingTextReadsBack(targets);
      err := WriteBindingsAttr(sw, ep, json, env, 3);
    }

    method DeleteBinding(sw: U64, swEp: U16, light: U64, lightEp: U16, replies: seq<Err>, handed: map<nat,
                         Lists>) returns (err: Err)
      modifies `net, `begun, `done, `aclOperateSubjects, `bindingEntries
      ensures var env := Env(replies, manager.devices, keyStored, handed);
        var out := Calls.DeleteBinding(old(net), env, sw, swEp, light, lightEp);
        err == out.err && Did(old(net), out.steps)
    {
      hide Unbind, Revoke, ApplyAll;
      var env := Env(replies, manager.devices, keyStored, handed);
      Begin();
      var from := ResolveSwitch(sw, swEp);
      if from.None? { return NotFound; }
      var to := ResolveOnOff(light, lightEp);
      UnbindTarget(sw, from.value, light, to.GetOr(0), env);
      ghost var unbind := Unbind(begun, env, sw, from.value, light, to.GetOr(0));
      assert done == unbind;
      assert net == ApplyAll(begun, unbind);
      RevokeGrant(sw, light, env);
      err := Ok;
    }

    /** The best-effort first half of delete_binding. */
    method UnbindTarget(sw: U64, ep: U16, light: U64, lightEp: U16, env: Env)
      requires Valid()
      modifies `net, `done, `bindingEntries
      ensures Valid() && done == old(done) + Unbind(old(net), env, sw, ep, light, lightEp)
    {
      hide ReadTargets, WriteTargets, ParseBindings, BindingText, WithoutTarget;
      var err := ReadBindings(sw, ep, env, 0);
      if err == Ok {
        var targets := StripTarget(bindingEntries, light, lightEp);
        var json := BuildBindingJson(targets);
        BindingTextReadsBack(targets);
        err := WriteBindingsAttr(sw, ep, json, env, 1);
      }
    }

    /** The best-effort second half. */
    method RevokeGrant(sw: U64, light: U64, env: Env)
      requires Valid()
      modifies `net, `done, `aclOperateSubjects
      ensures Valid() && done == old(done) + Revoke(old(net), env, sw, light)
    {
      hide OperateSubjects, WriteAcl, ParseAcl, AclText, Drop;
      var err := ReadAclSubjects(light, env, 2);
      if err == Ok {
        var subjects := StripSubject(aclOperateSubjects, sw);
        var json := BuildAclJson(CONTROLLER, subjects);
        AclTextReadsBack(GrantList(subjects));
        err := WriteAclAttr(light, json, env, 3);
      }
    }

    // ---- Groups -------------------------------------------------------------------------------------------

    method InstallGroupKeyOnNode(node: U64, g: U16, env: Env) returns (err: Err)
      requires Did(net, [])
      modifies `net, `done, `groupKeyMap
      ensures var out := InstallKey(begun, env, node, g);
        err == out.err && Did(old(net), out.steps)
    {
      hide ReadKeyMap, WriteKeyMap, ParseKeyMap, KeyMapText;
      if !env.keyStored { return NotFound; }
      err := Carry(PutKeyset(node, APP_KEYSET), env, 0, node in net);
      if err != Ok { return; }
      err := ReadGroupKeyMap(node, env, 1);
      var entries := if err == Ok then groupKeyMap else [];
      var found := false;
      for i := 0 to |entries|
        invariant found <==> exists j :: 0 <= j < i && entries[j].group == g
      {
        if entries[i].group == g { found := true; }
      }
      assert found <==> Maps(entries, g);
      if !found { entries := entries + [KeyMapEntry(g, APP_KEYSET)]; }
      var json := BuildGroupKeyMapJson(entries);
      KeyMapTextReadsBack(entries);
      err := WriteKeyMapAttr(node, json, env, 2);
    }

    method AddGroupMember(node: U64, g: U16, replies: seq<Err>, handed: map<nat, Lists>) returns (err: Err)
      modifies `net, `begun, `done, `groupKeyMap, `aclEntries
      ensures var out := Calls.AddGroupMember(old(net), Env(replies, manager.devices, keyStored, handed), node, g);
        err == out.err && Did(old(net), out.steps)
    {
      hide ReadAcl, WriteAcl, AdmitList, InstallKey, Apply, ApplyAll;
      var env := Env(replies, manager.devices, keyStored, handed);
      Begin();
      err := InstallGroupKeyOnNode(node, g, env);
      if err != Ok { return; }
      InstallKeepsLists(begun, env, node, g);

      err := AdmitGroup(node, g, env);
      if err != Ok { return; }

      var onoff := manager.GetOnOffEndpoint(node);
      var endpoint := onoff.GetOr(1);
      err := Carry(JoinGroup(node, endpoint, g), env, 5, node in net);
    }

    /** Second part of add_group_member: the group becomes an Operate/Group subject. */
    method AdmitGroup(node: U64, g: U16, env: Env) returns (err: Err)
      requires Valid() && (node in net <==> node in begun)
      requires node in net ==> net[node].acl == begun[node].acl
      modifies `net, `done, `aclEntries
      ensures Valid() && (node in net <==> node in begun)
      ensures var read := ReadReply(env, 3, node in begun);
        err == if read != Ok then read else Reply(env, 4, node in begun)
      ensures err != Ok ==> done == old(done)
      ensures err == Ok ==>
        var admit := PutAcl(node, WriteAcl(AdmitList(ReadAcl(AclAt(begun, env, 3, node)), g)));
        done == old(done) + [admit]
    {
      hide ReadAcl, WriteAcl, ParseAcl, AclText, AdmitList, ApplyAll;
      err := ReadAclFull(node, env, 3);
      if err != Ok { return; }
      var entries := AdmitEntries(aclEntries, g);
      var json := BuildAclEntriesJson(entries);
      AclTextReadsBack(entries);
      err := WriteAclAttr(node, json, env, 4);
    }

    method RemoveGroupMember(node: U64, g: U16, replies: seq<Err>, handed: map<nat, Lists>) returns (err: Err)
      modifies `net, `begun, `done, `groupKeyMap, `aclEntries
      ensures var out := Calls.RemoveGroupMember(old(net), Env(replies, manager.devices, keyStored, handed), node, g);
        err == out.err && Did(old(net), out.steps)
    {
      hide LeaveStep, UnmapStep, ExpelStep, ApplyAll, Apply;
      var env := Env(replies, manager.devices, keyStored, handed);
      Begin();
      var onoff := manager.GetOnOffEndpoint(node);
      err := Carry(LeaveGroup(node, onoff.GetOr(1), g), env, 0, node in net);
      LeaveFirst(begun, env, node, g);
      assert done == LeaveStep(begun, env, node, g);
      UnmapGroup(node, g, env);
      ExpelGroup(node, g, env);
      err := Ok;
    }

    /** Second part: the key map, best effort. */
    method UnmapGroup(node: U64, g: U16, env: Env)
      requires Valid() && (node in net <==> node in begun)
      requires node in net ==> net[node].keyMap == begun[node].keyMap && net[node].acl == begun[node].acl
      modifies `net, `done, `groupKeyMap
      ensures Valid() && done == old(done) + UnmapStep(begun, env, node, g) && (node in net <==> node in begun)
      ensures node in net ==> net[node].acl == begun[node].acl
    {
      hide ReadKeyMap, WriteKeyMap, ParseKeyMap, KeyMapText, WithoutMapping;
      var err := ReadGroupKeyMap(node, env, 1);
      if err == Ok {
        var entries := StripMapping(groupKeyMap, g);
        var json := BuildGroupKeyMapJson(entries);
        KeyMapTextReadsBack(entries);
        err := WriteKeyMapAttr(node, json, env, 2);
      }
    }

    /** Third part: the ACL, best effort. */
    method ExpelGroup(node: U64, g: U16, env: Env)
      requires Valid() && (node in net <==> node in begun)
      requires node in net ==> net[node].acl == begun[node].acl
      modifies `net, `done, `aclEntries
      ensures Valid() && done == old(done) + ExpelStep(begun, env, node, g)
    {
      hide ReadAcl, WriteAcl, ParseAcl, AclText, ExpelList;
      var err := ReadAclFull(node, env, 3);
      if err == Ok {
        var entries := ExpelEntries(aclEntries, g);
        var json := BuildAclEntriesJson(entries);
        AclTextReadsBack(entries);
        err := WriteAclAttr(node, json, env, 4);
      }
    }

    method CreateGroupBinding(sw: U64, swEp: U16, g: U16, replies: seq<Err>, handed: map<nat, Lists>) returns (err: Err)
      modifies `net, `begun, `done, `groupKeyMap, `bindingEntries
      ensures var env := Env(replies, manager.devices, keyStored, handed);
        var out := Calls.CreateGroupBinding(old(net), env, sw, swEp, g);
        err == out.err && Did(old(net), out.steps)
    {
      hide ReadTargets, WriteTargets, WithGroupTarget, InstallKey, LocalGroup, Apply, ApplyAll;
      var env := Env(replies, manager.devices, keyStored, handed);
      Begin();
      var from := ResolveSwitch(sw, swEp);
      if from.None? { return NotFound; }
      err := InstallGroupKeyOnNode(sw, g, env);
      if err != Ok { return; }
      InstallKeepsLists(begun, env, sw, g);

      err := BindGroup(sw, from.value, g, env);
      if err != Ok { return; }
      ChangeLocalGroup(sw, g, true, env, 5);
      err := Ok;
    }

    /** The group becomes a target of the switch; a list that cannot be read counts as empty. */
    method BindGroup(sw: U64, ep: U16, g: U16, env: Env) returns (err: Err)
      requires Valid() && (sw in net <==> sw in begun)
      requires sw in net ==> net[sw].bindings == begun[sw].bindings
      modifies `net, `done, `bindingEntries
      ensures Valid() && err == Reply(env, 4, HasBindings(begun, sw, ep))
      ensures err != Ok ==> done == old(done)
      ensures err == Ok ==>
        var known := if Reply(env, 3, true) == Ok then ReadTargets(BindingsAt(begun, env, 3, sw, ep)) else [];
        done == old(done) + [PutBindings(sw, ep, WriteTargets(WithGroupTarget(known, g)))]
    {
      hide ReadTargets, WriteTargets, ParseBindings, BindingText, ApplyAll, WithGroupTarget;
      err := ReadBindings(sw, ep, env, 3);
      var targets := AddGroupTarget(if err == Ok then bindingEntries else [], g);
      var json := BuildBindingJson(targets);
      BindingTextReadsBack(targets);
      err := WriteBindingsAttr(sw, ep, json, env, 4);
    }

    /** The switch's own membership; a failure is only logged. */
    method ChangeLocalGroup(sw: U64, g: U16, join: bool, env: Env, k: nat)
      requires Valid() && env.table == manager.devices
      modifies `net, `done
      ensures Valid() && done == old(done) + LocalGroup(begun, env, k, sw, g, join)
    {
      var ep := manager.GetOnOffEndpoint(sw);
      if ep.Some? {
        var s := if join then JoinGroup(sw, ep.value, g) else LeaveGroup(sw, ep.value, g);
        var err := Carry(s, env, k, sw in net);
      }
    }

    method DeleteGroupBinding(sw: U64, swEp: U16, g: U16, replies: seq<Err>, handed: map<nat, Lists>) returns (err: Err)
      modifies `net, `begun, `done, `bindingEntries
      ensures var env := Env(replies, manager.devices, keyStored, handed);
        var out := Calls.DeleteGroupBinding(old(net), env, sw, swEp, g);
        err == out.err && Did(old(net), out.steps)
    {
      hide ReadTargets, WriteTargets, ParseBindings, BindingText, WithoutGroupTarget, LocalGroup, Apply, ApplyAll;
      var env := Env(replies, manager.devices, keyStored, handed);
      Begin();
      var from := ResolveSwitch(sw, swEp);
      if from.None? { return NotFound; }
      err := ReadBindings(sw, from.value, env, 0);
      if err == Ok {
        var targets := StripGroupTarget(bindingEntries, g);
        var json := BuildBindingJson(targets);
        BindingTextReadsBack(targets);
        err := WriteBindingsAttr(sw, from.value, json, env, 1);
      }
      ChangeLocalGroup(sw, g, false, env, 2);
      err := Ok;
    }

    // ---- Resets -------------------------------------------------------------------------------------------

    method ResetNodeGroups(node: U64, replies: seq<Err>, handed: map<nat, Lists>) returns (err: Err)
      modifies `net, `begun, `done
      ensures var out := Calls.ResetNodeGroups(old(net), Env(replies, manager.devices, keyStored, handed), node);
        err == out.err && Did(old(net), out.steps)
    {
      hide ParseKeyMap, KeyMapText, ApplyAll, Apply, DropKeysets;
      var env := Env(replies, manager.devices, keyStored, handed);
      Begin();
      var json := BuildGroupKeyMapJson([]);
      KeyMapTextReadsBack([]);
      err := WriteKeyMapAttr(node, json, env, 0);
      ghost var cleared := done;
      assert cleared == if Reply(env, 0, node in begun) == Ok then [PutKeyMap(node, [])] else [];
      DropNone(begun, env, node, cleared);
      var ks: U16 := 1;
      while ks <= MAX_KEYSET_SCAN
        invariant 1 <= ks <= MAX_KEYSET_SCAN + 1 && Valid() && begun == old(net)
        invariant done == cleared + DropKeysets(begun, env, node, ks - 1)
      {
        err := Carry(DropKeyset(node, ks), env, ks, node in net);
        DropNext(begun, env, node, ks, cleared);
        ks := ks + 1;
      }
      var onoff := manager.GetOnOffEndpoint(node);
      err := Carry(LeaveAllGroups(node, onoff.GetOr(1)), env, MAX_KEYSET_SCAN + 1, node in net);
      err := Ok;
    }

    method ResetAcl(node: U64, replies: seq<Err>, handed: map<nat, Lists>) returns (err: Err)
      modifies `net, `begun, `done
      ensures var out := Calls.ResetAcl(old(net), Env(replies, manager.devices, keyStored, handed), node);
        err == out.err && Did(old(net), out.steps)
    {
      hide ParseAcl, AclText, WriteAcl;
      var env := Env(replies, manager.devices, keyStored, handed);
      Begin();
      var json := BuildAclJson(CONTROLLER, []);
      AclTextReadsBack(GrantList([]));
      err := WriteAclAttr(node, json, env, 0);
    }

    method ResetBindings(node: U64, replies: seq<Err>, handed: map<nat, Lists>) returns (err: Err)
      modifies `net, `begun, `done
      ensures var out := Calls.ResetBindings(old(net), Env(replies, manager.devices, keyStored, handed), node);
        err == out.err && Did(old(net), out.steps)
    {
      hide ParseBindings, BindingText;
      var env := Env(replies, manager.devices, keyStored, handed);
      Begin();
      var ep := manager.GetSwitchEndpoint(node);
      if ep.None? { return Ok; }
      var json := BuildBindingJson([]);
      BindingTextReadsBack([]);
      err := WriteBindingsAttr(node, ep.value, json, env, 0);
    }
  }

  // ---- Loops over a snapshot ------------------------------------------------------------------------------

  method AddSubject(entries: seq<U64>, x: U64) returns (subjects: seq<U64>)
    ensures subjects == AddOnce(entries, x)
  {
    subjects := entries;
    if x !in subjects { subjects := subjects + [x]; }
  }

  method AddTarget(entries: seq<Target>, light: U64, ep: U16) returns (targets: seq<Target>)
    ensures targets == WithTarget(entries, light, ep)
  {
    targets := entries;
    var found := false;
    for i := 0 to |targets|
      invariant found <==> exists j :: 0 <= j < i && Aims(targets[j], light, ep)
    {
      if targets[i].node == light && targets[i].endpoint == ep && targets[i].cluster == ONOFF { found := true; }
    }
    if !found { targets := targets + [Target(light, ep, ONOFF, 0, false)]; }
  }

  method AddGroupTarget(entries: seq<Target>, g: U16) returns (targets: seq<Target>)
    ensures targets == WithGroupTarget(entries, g)
  {
    targets := entries;
    var found := false;
    for i := 0 to |targets|
      invariant found <==> exists j :: 0 <= j < i && AimsGroup(targets[j], g)
    {
      if targets[i].isGroup && targets[i].group == g && targets[i].cluster == ONOFF { found := true; }
    }
    if !found { targets := targets + [Target(0, 0, ONOFF, g, true)]; }
  }

  method StripTarget(entries: seq<Target>, light: U64, ep: U16) returns (targets: seq<Target>)
    ensures targets == WithoutTarget(entries, light, ep)
  {
    targets := [];
    for i := 0 to |entries|
      invariant targets == WithoutTarget(entries[..i], light, ep)
    {
      assert entries[..i + 1][..i] == entries[..i];
      var t := entries[i];
      var matching := t.node == light && t.cluster == ONOFF && (ep == 0 || t.endpoint == ep);
      if !matching { targets := targets + [t]; }
    }
    assert entries[..|entries|] == entries;
  }

  method StripMapping(entries: seq<KeyMapEntry>, g: U16) returns (kept: seq<KeyMapEntry>)
    ensures kept == WithoutMapping(entries, g)
  {
    kept := [];
    for i := 0 to |entries|
      invariant kept == WithoutMapping(entries[..i], g)
    {
      assert entries[..i + 1][..i] == entries[..i];
      if entries[i].group != g { kept := kept + [entries[i]]; }
    }
    assert entries[..|entries|] == entries;
  }

  method StripSubject(entries: seq<U64>, x: U64) returns (subjects: seq<U64>)
    ensures subjects == Drop(entries, x)
  {
    subjects := [];
    for i := 0 to |entries|
      invariant subjects == Drop(entries[..i], x)
    {
      assert entries[..i + 1][..i] == entries[..i];
      if entries[i] != x { subjects := subjects + [entries[i]]; }
    }
    assert entries[..|entries|] == entries;
  }

  method StripGroupTarget(entries: seq<Target>, g: U16) returns (targets: seq<Target>)
    ensures targets == WithoutGroupTarget(entries, g)
  {
    targets := [];
    for i := 0 to |entries|
      invariant targets == WithoutGroupTarget(entries[..i], g)
    {
      assert entries[..i + 1][..i] == entries[..i];
      var t := entries[i];
      if !(t.isGroup && t.group == g && t.cluster == ONOFF) { targets := targets + [t]; }
    }
    assert entries[..|entries|] == entries;
  }

  method AdmitEntries(aclEntries: seq<AclEntry>, g: U16) returns (entries: seq<AclEntry>)
    ensures entries == AdmitList(aclEntries, g)
  {
    entries := [ADMIN];
    var groupPresent := false;
    for i := 0 to |aclEntries|
      invariant entries == [ADMIN] + Admitted(aclEntries[..i], g)
      invariant groupPresent <==> exists j :: 0 <= j < i && IsGroupEntry(aclEntries[j])
    {
      assert aclEntries[..i + 1][..i] == aclEntries[..i];
      var e := aclEntries[i];
      if e.privilege == ADMINISTER && e.authMode == AUTH_CASE { continue; }
      if e.privilege == OPERATE && e.authMode == AUTH_GROUP {
        var subjects := e.subjects;
        if (g as U64) !in subjects { subjects := subjects + [g as U64]; }
        entries := entries + [e.(subjects := subjects)];
        groupPresent := true;
      } else {
        entries := entries + [e];
      }
    }
    assert aclEntries[..|aclEntries|] == aclEntries;
    if !groupPresent {
      entries := entries + [AclEntry(OPERATE, AUTH_GROUP, [g as U64])];
    } else {
      assert entries + [] == entries;
    }
  }

  method ExpelEntries(aclEntries: seq<AclEntry>, g: U16) returns (entries: seq<AclEntry>)
    ensures entries == ExpelList(aclEntries, g)
  {
    entries := [ADMIN];
    for i := 0 to |aclEntries|
      invariant entries == [ADMIN] + Expelled(aclEntries[..i], g)
    {
      assert aclEntries[..i + 1][..i] == aclEntries[..i];
      var e := aclEntries[i];
      if e.privilege == 0 || e.authMode == 0 { continue; }
      if e.privilege == ADMINISTER && e.authMode == AUTH_CASE { continue; }
      var out := e;
      if e.privilege == OPERATE && e.authMode == AUTH_GROUP {
        var subjects := StripSubject(e.subjects, g as U64);
        out := out.(subjects := subjects);
        if subjects == [] { continue; }
      }
      entries := entries + [out];
    }
    assert aclEntries[..|aclEntries|] == aclEntries;
  }

  // ---- What the first steps of a call leave alone ---------------------------------------------------------

  lemma LeaveFirst(net: Network, env: Env, node: U64, g: U16)
    ensures LeaveStep(net, env, node, g) ==
      if Reply(env, 0, node in net) == Ok then [LeaveGroup(node, AppEp(env, node), g)] else []
    ensures node in net ==>
      var d := Apply(net, LeaveGroup(node, AppEp(env, node), g))[node];
      d.keyMap == net[node].keyMap && d.acl == net[node].acl
  {
  }

  lemma DropNone(net: Network, env: Env, node: U64, before: seq<Step>)
    ensures before + DropKeysets(net, env, node, 0) == before
  {
  }

  lemma DropNext(net: Network, env: Env, node: U64, n: U16, before: seq<Step>)
    requires 1 <= n
    ensures before + DropKeysets(net, env, node, n) ==
      before + DropKeysets(net, env, node, n - 1)
      + if Reply(env, n, node in net) == Ok then [DropKeyset(node, n)] else []
  {
  }
}

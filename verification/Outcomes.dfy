/** What each call leaves on the devices, for every answer it can meet: the device lists field by field, in
    the numbers of the Matter clusters. */
module Outcomes {
  import opened CTypes
  import opened Fabric
  import opened Calls
  import opened Effects
  import opened DeviceLists
  import Authorisation
  import DeviceTable
  import Membership
  import opened Serialiser

  // ---- Steps that happen or not ------------------------------------------------------------------------------

  function Took(net: Network, part: seq<Step>): Network {
    if part == [] then net else Apply(net, part[0])
  }

  lemma FourParts(net: Network, a: seq<Step>, b: seq<Step>, c: seq<Step>, d: seq<Step>)
    requires |a| <= 1 && |b| <= 1 && |c| <= 1 && |d| <= 1
    ensures ApplyAll(net, a + b + c + d) == Took(Took(Took(Took(net, a), b), c), d)
  {
    hide ApplyAll, Apply;
    ThreeParts(net, a, b, c);
    ApplySplit(net, a + b + c, d);
    AtMostOne(ApplyAll(net, a + b + c), d);
  }

  /** Everything but the listed fields of one device is as it was. */
  ghost predicate OthersStay(net: Network, after: Network, node: U64) {
    after.Keys == net.Keys && forall n :: n in net && n != node ==> after[n] == net[n]
  }

  // ---- Groups ---------------------------------------------------------------------------------------------------

  /** Keyset 1 and the mapping of the group to it, as far as the answers let them through. */
  ghost predicate Installed(net: Network, env: Env, node: U64, g: U16, d: Device, after: Device) {
    && after.keysets == (if env.keyStored && Reply(env, 0, true) == Ok then d.keysets + {1} else d.keysets)
    && if env.keyStored && BothOk(env, 0, 2)
       then GainsMapping(if Reply(env, 1, true) == Ok then KeyMapAt(net, env, 1, node) else [], g, after.keyMap)
       else after.keyMap == d.keyMap
  }

  function InstallErr(env: Env, present: bool): Err {
    if !env.keyStored then NotFound
    else if Reply(env, 0, present) != Ok then Reply(env, 0, present)
    else Reply(env, 2, present)
  }

  /** install_group_key_on_node's two steps, each there or not. */
  lemma InstallParts(net: Network, env: Env, node: U64, g: U16) returns (key: seq<Step>, mapping: seq<Step>)
    ensures |key| <= 1 && |mapping| <= 1 && InstallKey(net, env, node, g).steps == key + mapping
    ensures InstallKey(net, env, node, g).err == InstallErr(env, node in net)
    ensures key == if env.keyStored && Reply(env, 0, node in net) == Ok then [PutKeyset(node, APP_KEYSET)] else []
    ensures mapping == if env.keyStored && Reply(env, 0, node in net) == Ok && Reply(env, 2, node in net) == Ok
      then [PutKeyMap(node, WriteKeyMap(WithMapping(KnownMap(net, env, node), g, APP_KEYSET)))] else []
  {
    hide ReadKeyMap, WriteKeyMap, WithMapping;
    key := if env.keyStored && Reply(env, 0, node in net) == Ok then [PutKeyset(node, APP_KEYSET)] else [];
    mapping := if key != [] && Reply(env, 2, node in net) == Ok
      then [PutKeyMap(node, WriteKeyMap(WithMapping(KnownMap(net, env, node), g, APP_KEYSET)))] else [];
  }

  lemma KnownMapGains(net: Network, env: Env, node: U64, g: U16)
    ensures GainsMapping(if Reply(env, 1, true) == Ok then KeyMapAt(net, env, 1, node) else [], g,
                         WriteKeyMap(WithMapping(KnownMap(net, env, node), g, APP_KEYSET)))
  {
    hide WriteKeyMap, WithMapping, GainsMapping, KeyMapAt;
    var rs := if Reply(env, 1, true) == Ok then KeyMapAt(net, env, 1, node) else [];
    assert ReadKeyMap([]) == [];
    MapGains(rs, g);
  }

  /** add_group_member, wherever it stops: key and mapping, then the grant, then the membership. */
  lemma AddOutcome(net: Network, env: Env, node: U64, g: U16)
    ensures var out := AddGroupMember(net, env, node, g);
      var after := ApplyAll(net, out.steps);
      var read := ReadReply(env, 3, node in net);
      && OthersStay(net, after, node)
      && out.err == (if InstallErr(env, node in net) != Ok then InstallErr(env, node in net)
                     else if read != Ok then read
                     else if Reply(env, 4, node in net) != Ok then Reply(env, 4, node in net)
                     else Reply(env, 5, node in net))
    ensures node in net ==>
      var d, after := net[node], ApplyAll(net, AddGroupMember(net, env, node, g).steps)[node];
      var reached := env.keyStored && BothOk(env, 0, 2) && BothOk(env, 3, 4);
      && Installed(net, env, node, g, d, after) && after.bindings == d.bindings
      && (if reached then GainsMember(AclAt(net, env, 3, node), g, after.acl) else after.acl == d.acl)
      && after.groups == if reached && Reply(env, 5, true) == Ok then d.groups + {(AppEp(env, node), g)} else d.groups
  {
    hide ReadKeyMap, WriteKeyMap, WithMapping, KnownMap, ReadAcl, WriteAcl, AdmitList, AppEp, AclAt, KeyMapAt;
    hide GainsMapping, GainsMember, ApplyAll, InstallKey, Apply;
    var out := AddGroupMember(net, env, node, g);
    var key, mapping := InstallParts(net, env, node, g);
    var reached := node in net && env.keyStored && BothOk(env, 0, 2) && BothOk(env, 3, 4);
    var admit := if reached then [PutAcl(node, WriteAcl(AdmitList(ReadAcl(AclAt(net, env, 3, node)), g)))] else [];
    var join := if reached && Reply(env, 5, true) == Ok then [JoinGroup(node, AppEp(env, node), g)] else [];
    assert out.steps == key + mapping + admit + join;
    FourParts(net, key, mapping, admit, join);
    KnownMapGains(net, env, node, g);
    AclGains(AclAt(net, env, 3, node), g);
    TookFour(net, node, key, mapping, admit, join);
  }

  /** The device after up to four steps of these kinds. */
  lemma TookFour(net: Network, node: U64, key: seq<Step>, mapping: seq<Step>, acl: seq<Step>, join: seq<Step>)
    requires |key| <= 1 && |mapping| <= 1 && |acl| <= 1 && |join| <= 1
    requires key != [] ==> key[0].PutKeyset? && key[0].node == node
    requires mapping != [] ==> mapping[0].PutKeyMap? && mapping[0].node == node
    requires acl != [] ==> acl[0].PutAcl? && acl[0].node == node
    requires join != [] ==> join[0].JoinGroup? && join[0].node == node
    ensures var after := Took(Took(Took(Took(net, key), mapping), acl), join);
      OthersStay(net, after, node)
      && (node in net ==> after[node] == net[node].(
            keysets := if key == [] then net[node].keysets else net[node].keysets + {key[0].keyset},
            keyMap := if mapping == [] then net[node].keyMap else mapping[0].keyMap,
            acl := if acl == [] then net[node].acl else acl[0].acl,
            groups := if join == [] then net[node].groups else net[node].groups + {(join[0].endpoint, join[0].group)}))
  {
  }

  /** remove_group_member, each of its three parts where its answers let it through. */
  lemma RemoveOutcome(net: Network, env: Env, node: U64, g: U16)
    ensures var out := RemoveGroupMember(net, env, node, g);
      OthersStay(net, ApplyAll(net, out.steps), node) && out.err == Ok
    ensures node in net ==>
      var d, after := net[node], ApplyAll(net, RemoveGroupMember(net, env, node, g).steps)[node];
      && after.groups == (if Reply(env, 0, true) == Ok then d.groups - {(AppEp(env, node), g)} else d.groups)
      && (if BothOk(env, 1, 2) then LosesMapping(KeyMapAt(net, env, 1, node), g, after.keyMap)
          else after.keyMap == d.keyMap)
      && (if BothOk(env, 3, 4) then LosesMember(AclAt(net, env, 3, node), g, after.acl) else after.acl == d.acl)
      && after.bindings == d.bindings && after.keysets == d.keysets
  {
    hide ReadKeyMap, WriteKeyMap, WithoutMapping, ReadAcl, WriteAcl, ExpelList, AppEp, AclAt, KeyMapAt;
    hide LosesMapping, LosesMember, ApplyAll;
    if node in net { RemoveEffect(net, env, node, g); }
    RemoveParts(net, env, node, g);
    ThreeParts(net, LeaveStep(net, env, node, g), UnmapStep(net, env, node, g), ExpelStep(net, env, node, g));
    MapLoses(KeyMapAt(net, env, 1, node), g);
    AclLoses(AclAt(net, env, 3, node), g);
  }

  // ---- Group bindings -----------------------------------------------------------------------------------------

  /** create_group_binding: the key and the mapping, then the group's target, then the switch's own
      membership, which need not succeed. */
  lemma CreateGroupOutcome(net: Network, env: Env, sw: U64, swEp: U16, g: U16)
    requires SwitchEp(env, sw, swEp).Some?
    ensures var out := CreateGroupBinding(net, env, sw, swEp, g);
      var there := HasBindings(net, sw, SwitchEp(env, sw, swEp).value);
      && OthersStay(net, ApplyAll(net, out.steps), sw)
      && out.err == if InstallErr(env, sw in net) != Ok then InstallErr(env, sw in net) else Reply(env, 4, there)
    ensures sw in net ==>
      var d, after := net[sw], ApplyAll(net, CreateGroupBinding(net, env, sw, swEp, g).steps)[sw];
      var from, own := SwitchEp(env, sw, swEp).value, DeviceTable.OnOffEndpoint(env.table, sw);
      var reached := env.keyStored && BothOk(env, 0, 2) && from in d.bindings && Reply(env, 4, true) == Ok;
      && Installed(net, env, sw, g, d, after) && after.acl == d.acl
      && after.bindings.Keys == d.bindings.Keys
      && (forall e :: e in d.bindings && !(reached && e == from) ==> after.bindings[e] == d.bindings[e])
      && (reached ==> GainsGroup(if Reply(env, 3, true) == Ok then BindingsAt(net, env, 3, sw, from) else [], g,
                                 after.bindings[from]))
      && after.groups ==
         if reached && own.Some? && Reply(env, 5, true) == Ok then d.groups + {(own.value, g)} else d.groups
  {
    hide ReadKeyMap, WriteKeyMap, WithMapping, KnownMap, KeyMapAt;
    hide ReadTargets, WriteTargets, WithGroupTarget, BindingsAt;
    hide GainsMapping, GainsGroup, ApplyAll, InstallKey, Apply, SwitchEp, DeviceTable.OnOffEndpoint;
    var out, from := CreateGroupBinding(net, env, sw, swEp, g), SwitchEp(env, sw, swEp).value;
    var key, mapping := InstallParts(net, env, sw, g);
    var reached := env.keyStored && BothOk(env, 0, 2) && HasBindings(net, sw, from) && Reply(env, 4, true) == Ok;
    var rs := if Reply(env, 3, true) == Ok then BindingsAt(net, env, 3, sw, from) else [];
    var list := WriteTargets(WithGroupTarget(ReadTargets(rs), g));
    assert ReadTargets([]) == [] by { NoReports(); }
    var bind := if reached then [PutBindings(sw, from, list)] else [];
    var join := if reached then LocalGroup(net, env, 5, sw, g, true) else [];
    assert out.steps == key + mapping + bind + join;
    LocalGroupShape(net, env, sw, g);
    FourParts(net, key, mapping, bind, join);
    KnownMapGains(net, env, sw, g);
    ListGainsGroup(rs, g);
    BindFour(net, sw, from, key, mapping, bind, join);
  }

  lemma NoReports()
    ensures ReadTargets([]) == []
  {
  }

  lemma BindFour(net: Network, node: U64, ep: U16, key: seq<Step>, mapping: seq<Step>, bind: seq<Step>, join: seq<Step>)
    requires |key| <= 1 && |mapping| <= 1 && |bind| <= 1 && |join| <= 1
    requires key != [] ==> key[0].PutKeyset? && key[0].node == node
    requires mapping != [] ==> mapping[0].PutKeyMap? && mapping[0].node == node
    requires bind != [] ==> bind[0].PutBindings? && bind[0].node == node && bind[0].endpoint == ep
    requires join != [] ==> join[0].JoinGroup? && join[0].node == node
    ensures var after := Took(Took(Took(Took(net, key), mapping), bind), join);
      OthersStay(net, after, node)
      && (node in net ==> after[node] == net[node].(
            keysets := if key == [] then net[node].keysets else net[node].keysets + {key[0].keyset},
            keyMap := if mapping == [] then net[node].keyMap else mapping[0].keyMap,
            bindings := if bind == [] then net[node].bindings else net[node].bindings[ep := bind[0].bindings],
            groups := if join == [] then net[node].groups else net[node].groups + {(join[0].endpoint, join[0].group)}))
  {
  }

  /** delete_group_binding: the group's OnOff targets go from the one list, and the switch's own membership. */
  lemma DeleteGroupOutcome(net: Network, env: Env, sw: U64, swEp: U16, g: U16)
    requires SwitchEp(env, sw, swEp).Some?
    ensures var out := DeleteGroupBinding(net, env, sw, swEp, g);
      OthersStay(net, ApplyAll(net, out.steps), sw) && out.err == Ok
    ensures sw in net ==>
      var d, after := net[sw], ApplyAll(net, DeleteGroupBinding(net, env, sw, swEp, g).steps)[sw];
      var from, own := SwitchEp(env, sw, swEp).value, DeviceTable.OnOffEndpoint(env.table, sw);
      var reached := from in d.bindings && BothOk(env, 0, 1);
      && after.bindings.Keys == d.bindings.Keys
      && (forall e :: e in d.bindings && !(reached && e == from) ==> after.bindings[e] == d.bindings[e])
      && (reached ==> LosesGroup(BindingsAt(net, env, 0, sw, from), g, after.bindings[from]))
      && after.groups == (if own.Some? && Reply(env, 2, true) == Ok then d.groups - {(own.value, g)} else d.groups)
      && after.acl == d.acl && after.keyMap == d.keyMap && after.keysets == d.keysets
  {
    hide DeleteGroupBinding, WriteTargets, WithoutGroupTarget, BindingsAt, LosesGroup, SwitchEp, ApplyAll, ReadTargets;
    var from := SwitchEp(env, sw, swEp).value;
    var bind, leave := DeleteGroupParts(net, env, sw, swEp, g);
    ThreeParts(net, bind, leave, []);
    assert bind + leave + [] == bind + leave;
    ListLosesGroup(BindingsAt(net, env, 0, sw, from), g);
    TookUnbind(net, sw, from, bind, leave);
  }

  lemma DeleteGroupParts(net: Network, env: Env, sw: U64, swEp: U16, g: U16) returns (bind: seq<Step>, leave: seq<Step>)
    requires SwitchEp(env, sw, swEp).Some?
    ensures DeleteGroupBinding(net, env, sw, swEp, g) == Out(bind + leave, Ok)
    ensures var from := SwitchEp(env, sw, swEp).value;
      bind == if HasBindings(net, sw, from) && BothOk(env, 0, 1)
              then var ts := WithoutGroupTarget(ReadTargets(BindingsAt(net, env, 0, sw, from)), g);
                [PutBindings(sw, from, WriteTargets(ts))]
              else []
    ensures var own := DeviceTable.OnOffEndpoint(env.table, sw);
      leave == if own.Some? && sw in net && Reply(env, 2, true) == Ok then [LeaveGroup(sw, own.value, g)] else []
  {
    hide ReadTargets, WriteTargets, WithoutGroupTarget, BindingsAt, SwitchEp, DeviceTable.OnOffEndpoint;
    var from := SwitchEp(env, sw, swEp).value;
    bind := if HasBindings(net, sw, from) && BothOk(env, 0, 1)
            then var ts := WithoutGroupTarget(ReadTargets(BindingsAt(net, env, 0, sw, from)), g);
              [PutBindings(sw, from, WriteTargets(ts))]
            else [];
    leave := LocalGroup(net, env, 2, sw, g, false);
  }

  lemma TookUnbind(net: Network, node: U64, ep: U16, bind: seq<Step>, leave: seq<Step>)
    requires |bind| <= 1 && |leave| <= 1
    requires bind != [] ==> bind[0].PutBindings? && bind[0].node == node && bind[0].endpoint == ep
    requires leave != [] ==> leave[0].LeaveGroup? && leave[0].node == node
    ensures var after := Took(Took(net, bind), leave);
      OthersStay(net, after, node)
      && (node in net ==> after[node] == net[node].(
            bindings := if bind == [] then net[node].bindings else net[node].bindings[ep := bind[0].bindings],
            groups := if leave == [] then net[node].groups
                      else net[node].groups - {(leave[0].endpoint, leave[0].group)}))
  {
  }

  // ---- Bindings ---------------------------------------------------------------------------------------------------

  /** create_binding: the grant, then the target; the first answer that is not OK is the result. */
  lemma CreateOutcome(net: Network, env: Env, sw: U64, swEp: U16, light: U64, lightEp: U16)
    ensures var out := CreateBinding(net, env, sw, swEp, light, lightEp);
      var from, to := SwitchEp(env, sw, swEp), OnOffEp(env, light, lightEp);
      var there := from.Some? && HasBindings(net, sw, from.value);
      out.err == if from.None? || to.None? then NotFound
                 else if ReadReply(env, 0, light in net) != Ok then ReadReply(env, 0, light in net)
                 else if Reply(env, 1, light in net) != Ok then Reply(env, 1, light in net)
                 else if ReadReply(env, 2, there) != Ok then ReadReply(env, 2, there)
                 else Reply(env, 3, there)
    ensures var after := ApplyAll(net, CreateBinding(net, env, sw, swEp, light, lightEp).steps);
      var from, to := SwitchEp(env, sw, swEp), OnOffEp(env, light, lightEp);
      var granted := from.Some? && to.Some? && light in net && BothOk(env, 0, 1);
      var bound := granted && HasBindings(net, sw, from.value) && BothOk(env, 2, 3);
      && after.Keys == net.Keys
      && (forall n :: n in net ==>
            && after[n].keyMap == net[n].keyMap && after[n].keysets == net[n].keysets
            && after[n].groups == net[n].groups
            && (!(granted && n == light) ==> after[n].acl == net[n].acl)
            && (!(bound && n == sw) ==> after[n].bindings == net[n].bindings))
      && (granted ==> exists subjects: seq<U64> ::
            && GrantsOnly(after[light].acl, subjects) && NoDuplicates(subjects)
            && forall x :: x in subjects <==> x == sw || Operates(AclAt(net, env, 0, light), x))
      && (bound ==>
            && after[sw].bindings.Keys == net[sw].bindings.Keys
            && (forall e :: e in net[sw].bindings && e != from.value ==> after[sw].bindings[e] == net[sw].bindings[e])
            && GainsLight(BindingsAt(net, env, 2, sw, from.value), light, to.value, after[sw].bindings[from.value]))
  {
    hide CreateBinding, ReadTargets, WriteTargets, WriteAcl, GrantList, OperateSubjects, WithTarget, SwitchEp, OnOffEp;
    hide AclAt, BindingsAt, Operates, GrantsOnly, GainsLight, ApplyAll;
    var from, to := SwitchEp(env, sw, swEp), OnOffEp(env, light, lightEp);
    var grant, bind := CreateParts(net, env, sw, swEp, light, lightEp);
    var subjects := AddOnce(OperateSubjects(AclAt(net, env, 0, light)), sw);
    ThreeParts(net, grant, bind, []);
    assert grant + bind + [] == grant + bind;
    GrantWritten(subjects);
    forall x ensures x in OperateSubjects(AclAt(net, env, 0, light)) <==> Operates(AclAt(net, env, 0, light), x) {
      OperatesIff(AclAt(net, env, 0, light), x);
    }
    ListGainsLight(BindingsAt(net, env, 2, sw, from.GetOr(0)), light, to.GetOr(0));
    TookCreate(net, light, sw, from.GetOr(0), grant, bind);
  }

  lemma CreateParts(net: Network, env: Env, sw: U64, swEp: U16, light: U64, lightEp: U16)
    returns (grant: seq<Step>, bind: seq<Step>)
    ensures CreateBinding(net, env, sw, swEp, light, lightEp).steps == grant + bind
    ensures var from, to := SwitchEp(env, sw, swEp), OnOffEp(env, light, lightEp);
      var subjects := AddOnce(OperateSubjects(AclAt(net, env, 0, light)), sw);
      grant == if from.Some? && to.Some? && light in net && BothOk(env, 0, 1)
               then [PutAcl(light, WriteAcl(GrantList(subjects)))] else []
    ensures var from, to := SwitchEp(env, sw, swEp), OnOffEp(env, light, lightEp);
      bind == if grant != [] && HasBindings(net, sw, from.value) && BothOk(env, 2, 3)
              then var ts := WithTarget(ReadTargets(BindingsAt(net, env, 2, sw, from.value)), light, to.value);
                [PutBindings(sw, from.value, WriteTargets(ts))]
              else []
    ensures var out := CreateBinding(net, env, sw, swEp, light, lightEp);
      var from, to := SwitchEp(env, sw, swEp), OnOffEp(env, light, lightEp);
      var there := from.Some? && HasBindings(net, sw, from.value);
      out.err == if from.None? || to.None? then NotFound
                 else if ReadReply(env, 0, light in net) != Ok then ReadReply(env, 0, light in net)
                 else if Reply(env, 1, light in net) != Ok then Reply(env, 1, light in net)
                 else if ReadReply(env, 2, there) != Ok then ReadReply(env, 2, there)
                 else Reply(env, 3, there)
  {
    hide ReadTargets, WriteTargets, WriteAcl, GrantList, OperateSubjects, WithTarget, AddOnce, SwitchEp, OnOffEp;
    hide AclAt, Apply, BindingsAt;
    var from, to := SwitchEp(env, sw, swEp), OnOffEp(env, light, lightEp);
    var acl := WriteAcl(GrantList(AddOnce(OperateSubjects(AclAt(net, env, 0, light)), sw)));
    var steps := CreateBinding(net, env, sw, swEp, light, lightEp).steps;
    if from.Some? { Authorisation.GrantKeepsBindings(net, env, 2, light, acl, sw, from.value); }
    grant, bind := steps[..if steps == [] then 0 else 1], steps[if steps == [] then 0 else 1..];
  }

  lemma TookCreate(net: Network, light: U64, sw: U64, ep: U16, grant: seq<Step>, bind: seq<Step>)
    requires |grant| <= 1 && |bind| <= 1
    requires grant != [] ==> grant[0].PutAcl? && grant[0].node == light && light in net
    requires bind != [] ==> bind[0].PutBindings? && bind[0].node == sw && bind[0].endpoint == ep
    requires bind != [] ==> HasBindings(net, sw, ep)
    ensures var after := Took(Took(net, grant), bind);
      && after.Keys == net.Keys
      && (forall n :: n in net ==>
            && after[n].keyMap == net[n].keyMap && after[n].keysets == net[n].keysets
            && after[n].groups == net[n].groups
            && after[n].acl == (if grant != [] && n == light then grant[0].acl else net[n].acl)
            && after[n].bindings ==
               if bind != [] && n == sw then net[n].bindings[ep := bind[0].bindings] else net[n].bindings)
  {
  }

  /** delete_binding: the targets go, then the grant; neither need succeed. */
  lemma DeleteOutcome(net: Network, env: Env, sw: U64, swEp: U16, light: U64, lightEp: U16)
    ensures var out := DeleteBinding(net, env, sw, swEp, light, lightEp);
      out.err == if SwitchEp(env, sw, swEp).None? then NotFound else Ok
    ensures var after := ApplyAll(net, DeleteBinding(net, env, sw, swEp, light, lightEp).steps);
      var from, to := SwitchEp(env, sw, swEp), OnOffEp(env, light, lightEp).GetOr(0);
      var unbound := from.Some? && HasBindings(net, sw, from.value) && BothOk(env, 0, 1);
      var revoked := from.Some? && light in net && BothOk(env, 2, 3);
      && after.Keys == net.Keys
      && (forall n :: n in net ==>
            && after[n].keyMap == net[n].keyMap && after[n].keysets == net[n].keysets
            && after[n].groups == net[n].groups
            && (!(revoked && n == light) ==> after[n].acl == net[n].acl)
            && (!(unbound && n == sw) ==> after[n].bindings == net[n].bindings))
      && (revoked ==> exists subjects: seq<U64> ::
            && GrantsOnly(after[light].acl, subjects)
            && forall x :: x in subjects <==> x != sw && Operates(AclAt(net, env, 2, light), x))
      && (unbound ==>
            && after[sw].bindings.Keys == net[sw].bindings.Keys
            && (forall e :: e in net[sw].bindings && e != from.value ==> after[sw].bindings[e] == net[sw].bindings[e])
            && LosesLight(BindingsAt(net, env, 0, sw, from.value), light, to, after[sw].bindings[from.value]))
  {
    hide ReadTargets, WriteTargets, WriteAcl, GrantList, OperateSubjects, WithoutTarget, Drop, SwitchEp, OnOffEp;
    hide AclAt, BindingsAt, Operates, GrantsOnly, LosesLight, ApplyAll;
    AtMostOne(net, []);
    if SwitchEp(env, sw, swEp).Some? {
      var from, to := SwitchEp(env, sw, swEp).value, OnOffEp(env, light, lightEp).GetOr(0);
      var unbind := Unbind(net, env, sw, from, light, to);
      var mid := ApplyAll(net, unbind);
      AtMostOne(net, unbind);
      AtMostOne(mid, Revoke(mid, env, sw, light));
      ApplySplit(net, unbind, Revoke(mid, env, sw, light));
      Authorisation.UnbindKeepsAcl(net, env, sw, from, light, to);
      GrantWritten(Drop(OperateSubjects(AclAt(net, env, 2, light)), sw));
      forall x ensures x in OperateSubjects(AclAt(net, env, 2, light)) <==> Operates(AclAt(net, env, 2, light), x) {
        OperatesIff(AclAt(net, env, 2, light), x);
      }
      ListLosesLight(BindingsAt(net, env, 0, sw, from), light, to);
    }
  }

  // ---- Resets -------------------------------------------------------------------------------------------------------

  lemma {:induction false} DropsOutcome(net: Network, env: Env, node: U64, n: U16)
    requires node in net
    ensures var d, after := net[node], ApplyAll(net, DropKeysets(net, env, node, n));
      && OthersStay(net, after, node)
      && after[node] == d.(keysets := after[node].keysets)
      && forall k :: k in after[node].keysets <==> k in d.keysets && !(1 <= k <= n && Reply(env, k, true) == Ok)
  {
    hide Reply, ApplyAll, OthersStay;
    if n > 0 {
      DropsOutcome(net, env, node, n - 1);
      Effects.SameReply(env, true);
      var before := DropKeysets(net, env, node, n - 1);
      if Reply(env, n, node in net) == Ok {
        ApplyNext(net, before, DropKeyset(node, n));
        OneDropped(net, ApplyAll(net, before), node, n);
      } else {
        assert before + [] == before;
      }
    } else {
      AtMostOne(net, []);
      assert OthersStay(net, net, node) by { NothingChanged(net, node); }
    }
  }

  lemma NothingChanged(net: Network, node: U64)
    ensures OthersStay(net, net, node)
  {
  }

  lemma OneDropped(net: Network, mid: Network, node: U64, n: U16)
    requires node in mid && OthersStay(net, mid, node)
    ensures var after := Apply(mid, DropKeyset(node, n));
      OthersStay(net, after, node) && after[node] == mid[node].(keysets := mid[node].keysets - {n})
  {
  }

  /** reset_node_groups: the key map is emptied, the keysets 1 to 32 are removed and the memberships of the
      application endpoint, each where its operation succeeds; keyset 0, those above 32 and the ACL stay. */
  lemma ResetGroupsOutcome(net: Network, env: Env, node: U64)
    ensures var out := ResetNodeGroups(net, env, node);
      OthersStay(net, ApplyAll(net, out.steps), node) && out.err == Ok
    ensures node in net ==>
      var d, after := net[node], ApplyAll(net, ResetNodeGroups(net, env, node).steps)[node];
      && after.keyMap == (if Reply(env, 0, true) == Ok then [] else d.keyMap)
      && (forall k :: k in after.keysets <==> k in d.keysets && !(1 <= k <= 32 && Reply(env, k, true) == Ok))
      && (forall m :: m in after.groups <==> m in d.groups && !(m.0 == AppEp(env, node) && Reply(env, 33, true) == Ok))
      && after.acl == d.acl && after.bindings == d.bindings
  {
    hide DropKeysets, AppEp, ApplyAll, Reply;
    Effects.SameReply(env, node in net);
    var clear := if Reply(env, 0, node in net) == Ok then [PutKeyMap(node, [])] else [];
    var drops := DropKeysets(net, env, node, MAX_KEYSET_SCAN);
    var leave := if Reply(env, 33, node in net) == Ok then [LeaveAllGroups(node, AppEp(env, node))] else [];
    if node in net {
      AtMostOne(net, clear);
      var mid := ApplyAll(net, clear);
      SameDrops(net, mid, env, node, MAX_KEYSET_SCAN);
      DropsOutcome(mid, env, node, MAX_KEYSET_SCAN);
      ApplySplit(net, clear, drops);
      AtMostOne(ApplyAll(net, clear + drops), leave);
      ApplySplit(net, clear + drops, leave);
    } else {
      NoDrops(net, env, node, MAX_KEYSET_SCAN);
      assert clear + drops + leave == [];
      AtMostOne(net, []);
    }
  }

  lemma {:induction false} SameDrops(net: Network, mid: Network, env: Env, node: U64, n: U16)
    requires node in net && node in mid
    ensures DropKeysets(net, env, node, n) == DropKeysets(mid, env, node, n)
  {
    if n > 0 { SameDrops(net, mid, env, node, n - 1); }
  }

  lemma {:induction false} NoDrops(net: Network, env: Env, node: U64, n: U16)
    requires node !in net
    ensures DropKeysets(net, env, node, n) == []
  {
    if n > 0 { NoDrops(net, env, node, n - 1); }
  }

  /** What that makes of a member of s: mapped to nothing and in no group of the cluster where the two
      operations succeed, but still granting the groups on its ACL, so in none only if it was in none. */
  lemma ResetGroupsKeepsGrants(net: Network, env: Env, node: U64, s: set<U16>)
    requires node in net && Membership.Members(net[node], AppEp(env, node), s)
    ensures var after := ApplyAll(net, ResetNodeGroups(net, env, node).steps)[node];
      && (Membership.MapSays(ReadKeyMap(after.keyMap), {}) <==> s == {} || Reply(env, 0, true) == Ok)
      && (Membership.ClusterSays(after.groups, AppEp(env, node), {}) <==> s == {} || Reply(env, 33, true) == Ok)
      && Membership.AclSays(ReadAcl(after.acl), s)
      && (Membership.Members(after, AppEp(env, node), {}) <==> s == {})
  {
    hide AppEp, ApplyAll, Reply, ResetNodeGroups, ReadAcl;
    ResetGroupsOutcome(net, env, node);
    var d, after := net[node], ApplyAll(net, ResetNodeGroups(net, env, node).steps)[node];
    var ep := AppEp(env, node);
    assert ReadKeyMap([]) == [];
    if s != {} {
      var g :| g in s;
      assert Maps(ReadKeyMap(d.keyMap), g) && (ep, g) in d.groups;
      assert Membership.Granted(ReadAcl(d.acl), g as U64);
    }
  }

  /** reset_acl leaves the controller's entry alone on the list. */
  lemma ResetAclOutcome(net: Network, env: Env, node: U64)
    ensures var out := ResetAcl(net, env, node);
      && out.err == Reply(env, 0, node in net)
      && ApplyAll(net, out.steps) == if out.err == Ok then net[node := net[node].(acl := [ADMIN_RAW])] else net
  {
    hide WriteAcl, GrantList, ApplyAll;
    GrantWritten([]);
    assert [ADMIN_RAW] + [] == [ADMIN_RAW];
    AtMostOne(net, ResetAcl(net, env, node).steps);
  }

  /** reset_bindings empties the list of the switch endpoint, if the device has one. */
  lemma ResetBindingsOutcome(net: Network, env: Env, node: U64)
    ensures var out := ResetBindings(net, env, node);
      var ep := DeviceTable.SwitchEndpoint(env.table, node);
      && out.err == (if ep.None? then Ok else Reply(env, 0, HasBindings(net, node, ep.value)))
      && ApplyAll(net, out.steps) ==
         if ep.Some? && out.err == Ok then net[node := net[node].(bindings := net[node].bindings[ep.value := []])]
         else net
  {
    hide ApplyAll;
    AtMostOne(net, ResetBindings(net, env, node).steps);
  }

  // ---- Endpoints a call acts on --------------------------------------------------------------------------------

  /** An endpoint given is taken as it is; 0 stands for the first switch endpoint, or the first OnOff endpoint,
      of the device table, and members join on the latter or on endpoint 1. */
  lemma EndpointsResolved(env: Env, node: U64, ep: U16)
    ensures ep != 0 ==> SwitchEp(env, node, ep) == Some(ep) && OnOffEp(env, node, ep) == Some(ep)
    ensures var eps := DeviceTable.EndpointsOf(env.table, node);
      && DeviceTable.IsFirstHost(eps, {0x0103, 0x0104, 0x0105, 0x000F}, SwitchEp(env, node, 0))
      && DeviceTable.IsFirstHost(eps, {0x0100, 0x0101, 0x010C, 0x010D, 0x010A}, OnOffEp(env, node, 0))
      && OnOffEp(env, node, 0) == DeviceTable.OnOffEndpoint(env.table, node)
      && AppEp(env, node) == if OnOffEp(env, node, 0).Some? then OnOffEp(env, node, 0).value else 1
  {
    DeviceTable.EndpointsAreFirst(env.table, node);
  }

  /** What reset_acl, reset_bindings and reset_node_groups send. */
  lemma ResetTexts()
    ensures AclText(GrantList([])) ==
      "{\"0:ARR-OBJ\":[" + "{\"1:U8\":5,\"2:U8\":2" + ",\"3:ARR-U64\":[\"112233\"" + "],\"4:NULL\":null}" + "]}"
    ensures BindingText([]) == KeyMapText([]) == "{\"0:ARR-OBJ\":[]}"
  {
    hide AclText, BindingText, KeyMapText;
    assert GrantList([]) == [AclEntry(ADMINISTER, AUTH_CASE, [CONTROLLER])];
    AdminText();
    EmptyTexts();
  }
}

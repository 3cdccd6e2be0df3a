/** What a whole call makes of the network, and which answers carry it through. */
module Effects {
  import opened CTypes
  import opened Fabric
  import opened Calls

  // ---- Members --------------------------------------------------------------------------------------

  /** install_group_key_on_node could read the key map. */
  predicate MapWasRead(env: Env) {
    Reply(env, 1, true) == Ok
  }

  /** The map it starts from: the one it was handed, and none when that could not be read. */
  function KnownMap(net: Network, env: Env, node: U64): seq<KeyMapEntry> {
    if MapWasRead(env) then ReadKeyMap(KeyMapAt(net, env, 1, node)) else []
  }

  predicate InstallAnswers(env: Env) {
    env.keyStored && Reply(env, 0, true) == Ok && Reply(env, 2, true) == Ok
  }

  lemma InstallSucceedsIff(net: Network, env: Env, node: U64, g: U16)
    ensures InstallKey(net, env, node, g).err == Ok <==> node in net && InstallAnswers(env)
  {
    hide WithMapping, WriteKeyMap, ReadKeyMap;
  }

  /** A successful install leaves the key and the map written, and everything else as it was. */
  lemma InstallEffect(net: Network, env: Env, node: U64, g: U16)
    requires InstallKey(net, env, node, g).err == Ok
    ensures node in net
    ensures var d := net[node];
      ApplyAll(net, InstallKey(net, env, node, g).steps) == net[node := d.(
        keysets := d.keysets + {APP_KEYSET},
        keyMap := WriteKeyMap(WithMapping(KnownMap(net, env, node), g, APP_KEYSET)))]
  {
    hide ReadKeyMap, WriteKeyMap, WithMapping, ApplyAll;
    var steps := InstallKey(net, env, node, g).steps;
    assert steps == [steps[0]] + [steps[1]];
    ApplyFirst(net, steps[0]);
    ApplyNext(net, [steps[0]], steps[1]);
  }

  lemma InstallKeepsLists(net: Network, env: Env, node: U64, g: U16)
    ensures node in net ==>
      ApplyAll(net, InstallKey(net, env, node, g).steps)[node].acl == net[node].acl
      && ApplyAll(net, InstallKey(net, env, node, g).steps)[node].bindings == net[node].bindings
  {
    hide ReadKeyMap, WriteKeyMap, WithMapping, Reply;
    var steps := InstallKey(net, env, node, g).steps;
    if |steps| == 2 {
      assert steps == [steps[0]] + [steps[1]];
      ApplyNext(net, [steps[0]], steps[1]);
    }
    if steps != [] {
      ApplyFirst(net, steps[0]);
      assert |steps| == 1 ==> steps == [steps[0]];
    }
  }

  /** A successful add ends like this, whether or not the key map could be read. */
  lemma AddEffect(net: Network, env: Env, node: U64, g: U16)
    requires AddGroupMember(net, env, node, g).err == Ok
    ensures node in net
    ensures var d := net[node];
      ApplyAll(net, AddGroupMember(net, env, node, g).steps) == net[node := d.(
        keysets := d.keysets + {APP_KEYSET},
        keyMap := WriteKeyMap(WithMapping(KnownMap(net, env, node), g, APP_KEYSET)),
        acl := WriteAcl(AdmitList(ReadAcl(AclAt(net, env, 3, node)), g)), groups := d.groups + {(AppEp(env, node), g)})]
  {
    hide KnownMap, WriteKeyMap, WithMapping, ReadAcl, WriteAcl, AdmitList, AppEp, ApplyAll, AddGroupMember;
    AddSteps(net, env, node, g);
    var steps := AddGroupMember(net, env, node, g).steps;
    FourSteps(net, steps[0], steps[1], steps[2], steps[3]);
  }

  /** The steps of an add that succeeds. */
  lemma AddSteps(net: Network, env: Env, node: U64, g: U16)
    requires AddGroupMember(net, env, node, g).err == Ok
    ensures node in net
    ensures AddGroupMember(net, env, node, g).steps == [
        PutKeyset(node, APP_KEYSET), PutKeyMap(node, WriteKeyMap(WithMapping(KnownMap(net, env, node), g, APP_KEYSET))),
        PutAcl(node, WriteAcl(AdmitList(ReadAcl(AclAt(net, env, 3, node)), g))), JoinGroup(node, AppEp(env, node), g)]
  {
    hide ReadKeyMap, WriteKeyMap, WithMapping, ReadAcl, WriteAcl, AdmitList, AppEp;
  }

  lemma FourSteps(net: Network, a: Step, b: Step, c: Step, d: Step)
    ensures ApplyAll(net, [a, b, c, d]) == Apply(Apply(Apply(Apply(net, a), b), c), d)
  {
    hide Apply, ApplyAll;
    ApplyFirst(net, a);
    ApplyNext(net, [a], b);
    ApplyNext(net, [a] + [b], c);
    ApplyNext(net, [a] + [b] + [c], d);
    assert [a, b, c, d] == [a] + [b] + [c] + [d];
  }

  lemma RemoveEffect(net: Network, env: Env, node: U64, g: U16)
    requires node in net
    ensures var d := net[node];
      var leave, unmap := LeaveStep(net, env, node, g), UnmapStep(net, env, node, g);
      var expel := ExpelStep(net, env, node, g);
      ApplyAll(net, RemoveGroupMember(net, env, node, g).steps)[node] == d.(
        groups := if leave == [] then d.groups else d.groups - {(AppEp(env, node), g)},
        keyMap := if unmap == [] then d.keyMap
                  else WriteKeyMap(WithoutMapping(ReadKeyMap(KeyMapAt(net, env, 1, node)), g)),
        acl := if expel == [] then d.acl else WriteAcl(ExpelList(ReadAcl(AclAt(net, env, 3, node)), g)))
  {
    hide ReadKeyMap, WriteKeyMap, WithoutMapping, ReadAcl, WriteAcl, ExpelList, AppEp, Reply;
    var leave, unmap, expel := LeaveStep(net, env, node, g), UnmapStep(net, env, node, g), ExpelStep(net, env, node, g);
    ThreeParts(net, leave, unmap, expel);
  }

  lemma ThreeParts(net: Network, a: seq<Step>, b: seq<Step>, c: seq<Step>)
    requires |a| <= 1 && |b| <= 1 && |c| <= 1
    ensures var n1 := if a == [] then net else Apply(net, a[0]);
      var n2 := if b == [] then n1 else Apply(n1, b[0]);
      ApplyAll(net, a + b + c) == if c == [] then n2 else Apply(n2, c[0])
  {
    hide ApplyAll, Apply;
    AtMostOne(net, a);
    AtMostOne(ApplyAll(net, a), b);
    AtMostOne(ApplyAll(net, a + b), c);
    ApplySplit(net, a, b);
    ApplySplit(net, a + b, c);
  }

  lemma AtMostOne(net: Network, steps: seq<Step>)
    requires |steps| <= 1
    ensures ApplyAll(net, steps) == if steps == [] then net else Apply(net, steps[0])
  {
    if steps != [] {
      assert steps == [steps[0]];
      ApplyFirst(net, steps[0]);
    }
  }

  lemma RemoveParts(net: Network, env: Env, node: U64, g: U16)
    ensures |LeaveStep(net, env, node, g)| <= 1 && |UnmapStep(net, env, node, g)| <= 1
    ensures |ExpelStep(net, env, node, g)| <= 1
  {
  }

  /** The answers an add needs; whether the key map could be read is not among them. */
  predicate AddAnswers(env: Env) {
    env.keyStored && forall k :: 0 <= k < 6 && k != 1 ==> Reply(env, k, true) == Ok
  }

  lemma AddSucceedsIff(net: Network, env: Env, node: U64, g: U16)
    ensures AddGroupMember(net, env, node, g).err == Ok <==> node in net && AddAnswers(env)
  {
    hide WithMapping, WriteKeyMap, ReadKeyMap, AdmitList, WriteAcl, ReadAcl, AppEp, Reply;
    SameReply(env, node in net);
  }

  lemma SameReply(env: Env, present: bool)
    ensures forall k: nat :: Reply(env, k, present) == Ok <==> present && Reply(env, k, true) == Ok
  {
  }

  lemma AddGoesThroughIff(net: Network, env: Env, node: U64, g: U16)
    ensures AddGroupMember(net, env, node, g).err == Ok && MapWasRead(env) <==>
      node in net && env.keyStored && AllOk(env, 6)
  {
    hide WithMapping, WriteKeyMap, ReadKeyMap, AdmitList, WriteAcl, ReadAcl, AppEp;
  }

  lemma RemoveGoesThroughIff(net: Network, env: Env, node: U64, g: U16)
    ensures |RemoveGroupMember(net, env, node, g).steps| == 3 <==> node in net && AllOk(env, 5)
  {
    hide WithoutMapping, WriteKeyMap, ReadKeyMap, ExpelList, WriteAcl, ReadAcl, AppEp;
    RemoveParts(net, env, node, g);
  }

  // ---- Bindings -------------------------------------------------------------------------------------

  lemma AclWriteKeepsBindings(net: Network, light: U64, acl: seq<AclRaw>, sw: U64)
    ensures var after := Apply(net, PutAcl(light, acl));
      (sw in after <==> sw in net) && (sw in net ==> after[sw].bindings == net[sw].bindings)
  {
  }

  lemma CreateGoesThroughIff(net: Network, env: Env, sw: U64, swEp: U16, light: U64, lightEp: U16)
    ensures CreateBinding(net, env, sw, swEp, light, lightEp).err == Ok <==>
      SwitchEp(env, sw, swEp).Some? && OnOffEp(env, light, lightEp).Some? && light in net
      && HasBindings(net, sw, SwitchEp(env, sw, swEp).value) && AllOk(env, 4)
  {
    hide WithTarget, ReadTargets, WriteTargets, GrantList, AddOnce, OperateSubjects, WriteAcl, SwitchEp, OnOffEp, Apply;
    if light in net {
      var subjects := AddOnce(OperateSubjects(AclAt(net, env, 0, light)), sw);
      AclWriteKeepsBindings(net, light, WriteAcl(GrantList(subjects)), sw);
    }
  }

  lemma DeleteGoesThroughIff(net: Network, env: Env, sw: U64, swEp: U16, light: U64, lightEp: U16)
    ensures |DeleteBinding(net, env, sw, swEp, light, lightEp).steps| == 2 <==>
      SwitchEp(env, sw, swEp).Some? && light in net
      && HasBindings(net, sw, SwitchEp(env, sw, swEp).value) && AllOk(env, 4)
  {
    hide WithoutTarget, ReadTargets, WriteTargets, GrantList, Drop;
    hide OperateSubjects, WriteAcl, SwitchEp, OnOffEp, ApplyAll;
  }

  /** The light's ACL after create_binding, whatever became of its second half. */
  lemma CreateOnLight(net: Network, env: Env, sw: U64, swEp: U16, light: U64, lightEp: U16)
    requires light in net
    ensures var d, after := net[light], ApplyAll(net, CreateBinding(net, env, sw, swEp, light, lightEp).steps)[light];
      after.keyMap == d.keyMap && after.groups == d.groups
      && after.acl == if SwitchEp(env, sw, swEp).Some? && OnOffEp(env, light, lightEp).Some?
                         && Reply(env, 0, true) == Ok && Reply(env, 1, true) == Ok
                      then WriteAcl(GrantList(AddOnce(OperateSubjects(AclAt(net, env, 0, light)), sw))) else d.acl
  {
    hide WriteAcl, GrantList, OperateSubjects, AddOnce, SwitchEp, OnOffEp, Reply, CreateBinding, ApplyAll;
    var steps := CreateBinding(net, env, sw, swEp, light, lightEp).steps;
    CreateShape(net, env, sw, swEp, light, lightEp);
    if |steps| <= 1 {
      AtMostOne(net, steps);
    } else {
      ApplyFirst(net, steps[0]);
      ApplyNext(net, [steps[0]], steps[1]);
      assert steps == [steps[0]] + [steps[1]];
    }
  }

  /** Nothing, the grant, or the grant and a Binding list. */
  lemma CreateShape(net: Network, env: Env, sw: U64, swEp: U16, light: U64, lightEp: U16)
    requires light in net
    ensures var steps := CreateBinding(net, env, sw, swEp, light, lightEp).steps;
      var grant := PutAcl(light, WriteAcl(GrantList(AddOnce(OperateSubjects(AclAt(net, env, 0, light)), sw))));
      |steps| <= 2 && (|steps| == 2 ==> steps[1].PutBindings?)
      && (steps != [] ==> steps[0] == grant)
      && (steps != [] <==> SwitchEp(env, sw, swEp).Some? && OnOffEp(env, light, lightEp).Some?
                           && Reply(env, 0, true) == Ok && Reply(env, 1, true) == Ok)
  {
    hide ReadTargets, WriteTargets, WriteAcl, GrantList, OperateSubjects, WithTarget, AddOnce, SwitchEp, OnOffEp, Apply;
  }

  /** The light's ACL after delete_binding, whatever became of its first half. */
  lemma DeleteOnLight(net: Network, env: Env, sw: U64, swEp: U16, light: U64, lightEp: U16)
    requires light in net
    ensures var d, after := net[light], ApplyAll(net, DeleteBinding(net, env, sw, swEp, light, lightEp).steps)[light];
      after.keyMap == d.keyMap && after.groups == d.groups
      && after.acl == if SwitchEp(env, sw, swEp).Some? && Reply(env, 2, true) == Ok && Reply(env, 3, true) == Ok
                      then WriteAcl(GrantList(Drop(OperateSubjects(AclAt(net, env, 2, light)), sw))) else d.acl
  {
    hide ReadTargets, WriteTargets, WriteAcl, GrantList, OperateSubjects;
    hide WithoutTarget, Drop, SwitchEp, OnOffEp, ApplyAll;
    if SwitchEp(env, sw, swEp).Some? {
      var unbind := Unbind(net, env, sw, SwitchEp(env, sw, swEp).value, light, OnOffEp(env, light, lightEp).GetOr(0));
      var mid := ApplyAll(net, unbind);
      AtMostOne(net, unbind);
      AtMostOne(mid, Revoke(mid, env, sw, light));
      ApplySplit(net, unbind, Revoke(mid, env, sw, light));
    } else {
      AtMostOne(net, []);
    }
  }

  /** The two steps of a create_binding that succeeds. */
  lemma CreateSteps(net: Network, env: Env, sw: U64, swEp: U16, light: U64, lightEp: U16)
    requires CreateBinding(net, env, sw, swEp, light, lightEp).err == Ok
    ensures SwitchEp(env, sw, swEp).Some? && OnOffEp(env, light, lightEp).Some? && light in net
    ensures var from, to := SwitchEp(env, sw, swEp).value, OnOffEp(env, light, lightEp).value;
      var grant := PutAcl(light, WriteAcl(GrantList(AddOnce(OperateSubjects(AclAt(net, env, 0, light)), sw))));
      var mid := Apply(net, grant);
      HasBindings(mid, sw, from) && CreateBinding(net, env, sw, swEp, light, lightEp).steps ==
        var ts := WithTarget(ReadTargets(BindingsAt(mid, env, 2, sw, from)), light, to);
        [grant, PutBindings(sw, from, WriteTargets(ts))]
  {
    hide ReadTargets, WriteTargets, WriteAcl, GrantList, OperateSubjects, WithTarget, AddOnce, SwitchEp, OnOffEp, Apply;
  }

  lemma CreateEffect(net: Network, env: Env, sw: U64, swEp: U16, light: U64, lightEp: U16)
    requires CreateBinding(net, env, sw, swEp, light, lightEp).err == Ok
    ensures SwitchEp(env, sw, swEp).Some? && OnOffEp(env, light, lightEp).Some?
    ensures light in net && HasBindings(net, sw, SwitchEp(env, sw, swEp).value)
    ensures var from, to := SwitchEp(env, sw, swEp).value, OnOffEp(env, light, lightEp).value;
      var given := WriteAcl(GrantList(AddOnce(OperateSubjects(AclAt(net, env, 0, light)), sw)));
      var list := WriteTargets(WithTarget(ReadTargets(BindingsAt(net, env, 2, sw, from)), light, to));
      ApplyAll(net, CreateBinding(net, env, sw, swEp, light, lightEp).steps)
      == Apply(Apply(net, PutAcl(light, given)), PutBindings(sw, from, list))
  {
    hide ReadTargets, WriteTargets, WriteAcl, GrantList, OperateSubjects, WithTarget, AddOnce, SwitchEp, OnOffEp, Reply;
    hide ApplyAll, Apply, CreateBinding;
    CreateSteps(net, env, sw, swEp, light, lightEp);
    var steps := CreateBinding(net, env, sw, swEp, light, lightEp).steps;
    AclWriteKeepsBindings(net, light, steps[0].acl, sw);
    ApplyFirst(net, steps[0]);
    ApplyNext(net, [steps[0]], steps[1]);
    assert steps == [steps[0]] + [steps[1]];
  }

  lemma DeleteEffect(net: Network, env: Env, sw: U64, swEp: U16, light: U64, lightEp: U16)
    requires SwitchEp(env, sw, swEp).Some? && |DeleteBinding(net, env, sw, swEp, light, lightEp).steps| == 2
    ensures light in net && HasBindings(net, sw, SwitchEp(env, sw, swEp).value)
    ensures var from, to := SwitchEp(env, sw, swEp).value, OnOffEp(env, light, lightEp).GetOr(0);
      var list := WriteTargets(WithoutTarget(ReadTargets(BindingsAt(net, env, 0, sw, from)), light, to));
      var taken := WriteAcl(GrantList(Drop(OperateSubjects(AclAt(net, env, 2, light)), sw)));
      ApplyAll(net, DeleteBinding(net, env, sw, swEp, light, lightEp).steps)
      == Apply(Apply(net, PutBindings(sw, from, list)), PutAcl(light, taken))
  {
    hide ReadTargets, WriteTargets, WriteAcl, GrantList, OperateSubjects;
    hide WithoutTarget, Drop, SwitchEp, OnOffEp, Reply, ApplyAll;
    var steps := DeleteBinding(net, env, sw, swEp, light, lightEp).steps;
    assert steps == [steps[0]] + [steps[1]];
    ApplyFirst(net, steps[0]);
    ApplyNext(net, [steps[0]], steps[1]);
  }

  // ---- Group bindings -------------------------------------------------------------------------------

  lemma GroupBindingEffect(net: Network, env: Env, sw: U64, swEp: U16, g: U16)
    requires CreateGroupBinding(net, env, sw, swEp, g).err == Ok
    ensures SwitchEp(env, sw, swEp).Some? && HasBindings(net, sw, SwitchEp(env, sw, swEp).value)
    ensures var ep := SwitchEp(env, sw, swEp).value;
      var known := if Reply(env, 3, true) == Ok then ReadTargets(BindingsAt(net, env, 3, sw, ep)) else [];
      ApplyAll(net, CreateGroupBinding(net, env, sw, swEp, g).steps)[sw].bindings
      == net[sw].bindings[ep := WriteTargets(WithGroupTarget(known, g))]
  {
    hide ReadTargets, WriteTargets, WithGroupTarget, SwitchEp, Reply, ApplyAll, InstallKey, LocalGroup, Apply;
    var steps := CreateGroupBinding(net, env, sw, swEp, g).steps;
    var install, join := InstallKey(net, env, sw, g).steps, LocalGroup(net, env, 5, sw, g, true);
    var ep := SwitchEp(env, sw, swEp).value;
    assert HasBindings(net, sw, ep);
    assert ReadReply(env, 3, HasBindings(net, sw, ep)) == Ok <==> Reply(env, 3, true) == Ok;
    var known := if Reply(env, 3, true) == Ok then ReadTargets(BindingsAt(net, env, 3, sw, ep)) else [];
    var bind := PutBindings(sw, ep, WriteTargets(WithGroupTarget(known, g)));
    assert steps == install + [bind] + join;
    InstallKeepsLists(net, env, sw, g);
    ApplyNext(net, install, bind);
    ApplySplit(net, install + [bind], join);
    LocalGroupShape(net, env, sw, g);
    BindThenJoin(ApplyAll(net, install), bind, join);
  }

  lemma BindThenJoin(net: Network, bind: Step, join: seq<Step>)
    requires bind.PutBindings? && bind.node in net && |join| <= 1 && forall s :: s in join ==> s.JoinGroup?
    ensures ApplyAll(Apply(net, bind), join)[bind.node].bindings
            == net[bind.node].bindings[bind.endpoint := bind.bindings]
  {
    AtMostOne(Apply(net, bind), join);
    if join != [] { assert join[0] in join; }
  }

  lemma LocalGroupShape(net: Network, env: Env, sw: U64, g: U16)
    ensures var join := LocalGroup(net, env, 5, sw, g, true);
      |join| <= 1 && forall s :: s in join ==> s.JoinGroup?
  {
  }
}

/** Group membership as the device's own lists show it, against a plain set of group ids. */
module Membership {
  import opened CTypes
  import opened Fabric
  import opened Calls
  import opened Effects

  /** x is a subject of some Operate/Group entry. */
  ghost predicate Granted(es: seq<AclEntry>, x: U64) {
    exists i :: 0 <= i < |es| && IsGroupEntry(es[i]) && x in es[i].subjects
  }

  /** The key map has exactly the groups in s, each under the shared keyset. */
  ghost predicate MapSays(es: seq<KeyMapEntry>, s: set<U16>) {
    (forall g: U16 :: Maps(es, g) <==> g in s) && forall e :: e in es ==> e.keyset == APP_KEYSET
  }

  /** The Operate/Group subjects of the ACL are exactly s. */
  ghost predicate AclSays(es: seq<AclEntry>, s: set<U16>) {
    forall x: U64 :: Granted(es, x) <==> x in s
  }

  /** The endpoint's groups in the Groups cluster are exactly s. */
  ghost predicate ClusterSays(groups: set<(U16, U16)>, ep: U16, s: set<U16>) {
    forall g: U16 :: (ep, g) in groups <==> g in s
  }

  /** The device's three records all say that its groups are s. */
  ghost predicate Members(d: Device, ep: U16, s: set<U16>) {
    MapSays(ReadKeyMap(d.keyMap), s) && AclSays(ReadAcl(d.acl), s) && ClusterSays(d.groups, ep, s)
  }

  // ---- The lists -----------------------------------------------------------------------------------

  lemma MapsByEntry(es: seq<KeyMapEntry>, g: U16)
    ensures Maps(es, g) <==> exists e :: e in es && e.group == g
  {
    if Maps(es, g) {
      var i :| 0 <= i < |es| && es[i].group == g;
      assert es[i] in es;
    }
  }

  lemma MappingChanges(es: seq<KeyMapEntry>, g: U16, k: U16, h: U16)
    ensures Maps(WithMapping(es, g, k), h) <==> Maps(es, h) || h == g
    ensures Maps(WithoutMapping(es, g), h) <==> Maps(es, h) && h != g
  {
    hide Maps;
    MapsByEntry(es, h);
    MapsByEntry(es, g);
    MapsByEntry(WithMapping(es, g, k), h);
    MapsByEntry(WithoutMapping(es, g), h);
    if !Maps(es, g) { assert (es + [KeyMapEntry(g, k)])[|es|] == KeyMapEntry(g, k); }
  }

  lemma GrantedSplit(a: seq<AclEntry>, b: seq<AclEntry>, x: U64)
    ensures Granted(a + b, x) <==> Granted(a, x) || Granted(b, x)
  {
    var c := a + b;
    if i :| 0 <= i < |a| && IsGroupEntry(a[i]) && x in a[i].subjects { assert c[i] == a[i]; }
    if i :| 0 <= i < |b| && IsGroupEntry(b[i]) && x in b[i].subjects { assert c[|a| + i] == b[i]; }
  }

  lemma GrantedOne(e: AclEntry, x: U64)
    ensures Granted([e], x) <==> IsGroupEntry(e) && x in e.subjects
    ensures !Granted([], x)
  {
    if IsGroupEntry(e) && x in e.subjects { assert [e][0] == e; }
  }

  lemma {:induction false} AdmittedGrants(es: seq<AclEntry>, g: U16, x: U64)
    ensures Granted(Admitted(es, g), x) <==> Granted(es, x) || (x == g && HasGroupEntry(es))
  {
    if es != [] {
      hide Granted;
      var n := |es| - 1;
      assert es == es[..n] + [es[n]];
      AdmittedGrants(es[..n], g, x);
      GrantedSplit(es[..n], [es[n]], x);
      GrantedOne(es[n], x);
      var changed := es[n].(subjects := AddOnce(es[n].subjects, g as U64));
      GrantedSplit(Admitted(es[..n], g), [es[n]], x);
      GrantedSplit(Admitted(es[..n], g), [changed], x);
      GrantedOne(changed, x);
      assert IsAdmin(es[n]) ==> Admitted(es, g) == Admitted(es[..n], g);
      assert HasGroupEntry(es) <==> HasGroupEntry(es[..n]) || IsGroupEntry(es[n]);
    }
  }

  lemma {:induction false} ExpelledGrants(es: seq<AclEntry>, g: U16, x: U64)
    ensures Granted(Expelled(es, g), x) <==> Granted(es, x) && x != g
  {
    if es != [] {
      hide Granted;
      var n := |es| - 1;
      assert es == es[..n] + [es[n]];
      ExpelledGrants(es[..n], g, x);
      GrantedSplit(es[..n], [es[n]], x);
      GrantedOne(es[n], x);
      var left := Drop(es[n].subjects, g as U64);
      var changed := es[n].(subjects := left);
      GrantedSplit(Expelled(es[..n], g), [es[n]], x);
      GrantedSplit(Expelled(es[..n], g), [changed], x);
      GrantedOne(changed, x);
      assert x in left ==> left != [];
      assert Expelled(es[..n], g) + [] == Expelled(es[..n], g);
    }
  }

  lemma ListGrants(es: seq<AclEntry>, g: U16, x: U64)
    ensures Granted(AdmitList(es, g), x) <==> Granted(es, x) || x == g
    ensures Granted(ExpelList(es, g), x) <==> Granted(es, x) && x != g
  {
    hide Granted;
    var extra := AclEntry(OPERATE, AUTH_GROUP, [g as U64]);
    AdmittedGrants(es, g, x);
    ExpelledGrants(es, g, x);
    GrantedOne(ADMIN, x);
    GrantedOne(extra, x);
    GrantedSplit([ADMIN], Admitted(es, g), x);
    GrantedSplit([ADMIN] + Admitted(es, g), [extra], x);
    GrantedSplit([ADMIN], Expelled(es, g), x);
    assert [ADMIN] + Admitted(es, g) + [] == [ADMIN] + Admitted(es, g);
  }

  // ---- The calls -------------------------------------------------------------------------------------

  lemma MapAfterAdd(es: seq<KeyMapEntry>, g: U16, s: set<U16>)
    requires MapSays(es, s)
    ensures MapSays(WithMapping(es, g, APP_KEYSET), s + {g})
    ensures forall t: set<U16> :: MapSays(WithMapping(es, g, APP_KEYSET), t) ==> t == s + {g}
  {
    hide Maps, WithMapping;
    forall h: U16 ensures Maps(WithMapping(es, g, APP_KEYSET), h) <==> h in s + {g} {
      MappingChanges(es, g, APP_KEYSET, h);
    }
    MappingKeyset(es, g);
    forall t: set<U16> | MapSays(WithMapping(es, g, APP_KEYSET), t) ensures t == s + {g} {
      assert forall h: U16 :: h in t <==> Maps(WithMapping(es, g, APP_KEYSET), h);
    }
  }

  lemma MapAfterRemove(es: seq<KeyMapEntry>, g: U16, s: set<U16>)
    requires MapSays(es, s)
    ensures MapSays(WithoutMapping(es, g), s - {g})
    ensures MapSays(es, s - {g}) <==> g !in s
  {
    hide Maps;
    forall h: U16 ensures Maps(WithoutMapping(es, g), h) <==> h in s - {g} { MappingChanges(es, g, 0, h); }
    if g !in s { assert s - {g} == s; }
  }

  lemma AclAfter(es: seq<AclEntry>, g: U16, s: set<U16>)
    requires AclSays(es, s)
    ensures AclSays(AdmitList(es, g), s + {g}) && AclSays(ExpelList(es, g), s - {g})
    ensures AclSays(es, s - {g}) <==> g !in s
  {
    hide Granted, AdmitList, ExpelList;
    forall x: U64 ensures Granted(AdmitList(es, g), x) <==> x in s + {g} { ListGrants(es, g, x); }
    forall x: U64 ensures Granted(ExpelList(es, g), x) <==> x in s - {g} { ListGrants(es, g, x); }
    assert Granted(es, g) <==> g in s;
    if g !in s { assert s - {g} == s; }
  }

  lemma ClusterAfter(groups: set<(U16, U16)>, ep: U16, g: U16, s: set<U16>)
    requires ClusterSays(groups, ep, s)
    ensures ClusterSays(groups + {(ep, g)}, ep, s + {g}) && ClusterSays(groups - {(ep, g)}, ep, s - {g})
    ensures ClusterSays(groups, ep, s - {g}) <==> g !in s
  {
    if g in s { assert (ep, g) in groups; }
  }

  /** A successful add turns members s into s + {g}, exactly when the key map could be read or held
      nothing else to lose. */
  lemma AddRefinesIff(net: Network, env: Env, node: U64, g: U16, s: set<U16>)
    requires node in net && AddAnswers(env) && OwnLists(env) && Members(net[node], AppEp(env, node), s)
    ensures Members(ApplyAll(net, AddGroupMember(net, env, node, g).steps)[node], AppEp(env, node), s + {g})
            <==> MapWasRead(env) || s <= {g}
  {
    hide ReadKeyMap, WriteKeyMap, WithMapping, ReadAcl, WriteAcl, AdmitList, AppEp, MapSays, AclSays, ClusterSays;
    hide AddGroupMember, ApplyAll, MapWasRead, AddAnswers;
    var d, ep := net[node], AppEp(env, node);
    var known := KnownMap(net, env, node);
    AddSucceedsIff(net, env, node, g);
    AddEffect(net, env, node, g);
    KeyMapReadsBack(WithMapping(known, g, APP_KEYSET));
    AclReadsBack(AdmitList(ReadAcl(d.acl), g));
    AclAfter(ReadAcl(d.acl), g, s);
    ClusterAfter(d.groups, ep, g, s);
    if MapWasRead(env) {
      MapAfterAdd(known, g, s);
    } else {
      NothingMapped();
      MapAfterAdd([], g, {});
      assert s <= {g} <==> s + {g} == {} + {g};
    }
  }

  lemma NothingMapped()
    ensures MapSays([], {})
  {
  }

  lemma MappingKeyset(es: seq<KeyMapEntry>, g: U16)
    ensures (forall e :: e in WithMapping(es, g, APP_KEYSET) ==> e.keyset == APP_KEYSET)
            <==> forall e :: e in es ==> e.keyset == APP_KEYSET
  {
    hide Maps;
    var more := es + [KeyMapEntry(g, APP_KEYSET)];
    assert forall e :: e in more <==> e in es || e == KeyMapEntry(g, APP_KEYSET);
  }

  /** remove_group_member always reports success; it turns members s into s - {g} exactly when all
      five operations succeed, or g was no member to begin with. */
  lemma RemoveRefinesIff(net: Network, env: Env, node: U64, g: U16, s: set<U16>)
    requires node in net && OwnLists(env) && Members(net[node], AppEp(env, node), s)
    ensures Members(ApplyAll(net, RemoveGroupMember(net, env, node, g).steps)[node], AppEp(env, node), s - {g})
            <==> g !in s || AllOk(env, 5)
  {
    hide ReadKeyMap, WriteKeyMap, WithoutMapping, ReadAcl, WriteAcl, ExpelList, AppEp, MapSays, AclSays, ClusterSays;
    hide LeaveStep, UnmapStep, ExpelStep, ApplyAll;
    var d, ep := net[node], AppEp(env, node);
    RemoveEffect(net, env, node, g);
    RemoveParts(net, env, node, g);
    RemoveGoesThroughIff(net, env, node, g);
    KeyMapReadsBack(WithoutMapping(ReadKeyMap(d.keyMap), g));
    AclReadsBack(ExpelList(ReadAcl(d.acl), g));
    MapAfterRemove(ReadKeyMap(d.keyMap), g, s);
    AclAfter(ReadAcl(d.acl), g, s);
    ClusterAfter(d.groups, ep, g, s);
  }

  // ---- Runs ----------------------------------------------------------------------------------------

  datatype MemberCall = Add(group: U16, env: Env) | Remove(group: U16, env: Env)

  function StepsOf(net: Network, node: U64, c: MemberCall): seq<Step> {
    match c
    case Add(g, env) => AddGroupMember(net, env, node, g).steps
    case Remove(g, env) => RemoveGroupMember(net, env, node, g).steps
  }

  function After(net: Network, node: U64, run: seq<MemberCall>): (r: Network)
    ensures r.Keys == net.Keys
  {
    if run == [] then net else
    var before := After(net, node, run[..|run| - 1]);
    ApplyAll(before, StepsOf(before, node, run[|run| - 1]))
  }

  /** The calls report success and meet the device's own lists and one application endpoint. */
  ghost predicate AllSucceed(node: U64, ep: U16, run: seq<MemberCall>) {
    forall k :: 0 <= k < |run| ==> Succeeds(node, ep, run[k])
  }

  predicate Succeeds(node: U64, ep: U16, c: MemberCall) {
    AppEp(c.env, node) == ep && OwnLists(c.env) && (c.Add? ==> AddAnswers(c.env))
  }

  /** With members s the call loses nothing: an add that reads the key map or finds no other group in it, a
      remove whose operations all succeed or whose group is no member. */
  predicate LosesNothing(c: MemberCall, s: set<U16>) {
    match c
    case Add(g, env) => MapWasRead(env) || s <= {g}
    case Remove(g, env) => g !in s || AllOk(env, 5)
  }

  /** The last call for g was an add. */
  function LastWasAdd(run: seq<MemberCall>, g: U16): bool {
    if run == [] then false
    else if run[|run| - 1].group == g then run[|run| - 1].Add?
    else LastWasAdd(run[..|run| - 1], g)
  }

  function Added(run: seq<MemberCall>): (s: set<U16>)
    ensures forall g :: g in s <==> LastWasAdd(run, g)
  {
    if run == [] then {} else
    var before, last := Added(run[..|run| - 1]), run[|run| - 1];
    if last.Add? then before + {last.group} else before - {last.group}
  }

  /** The key map, the ACL and the Groups cluster each hold exactly the groups whose last call was an add. */
  ghost predicate HoldsAdded(net: Network, node: U64, ep: U16, run: seq<MemberCall>)
    requires node in net
  {
    Members(After(net, node, run)[node], ep, Added(run))
  }

  /** They do at every point of the run. */
  ghost predicate IsASet(net: Network, node: U64, ep: U16, run: seq<MemberCall>)
    requires node in net
  {
    forall k :: 0 <= k <= |run| ==> HoldsAdded(net, node, ep, run[..k])
  }

  ghost predicate NothingIsLost(run: seq<MemberCall>) {
    forall k :: 0 <= k < |run| ==> LosesNothing(run[k], Added(run[..k]))
  }

  /** From a device in no group this is so exactly when no call loses anything to a failed operation. */
  lemma {:induction false} MembershipIsASetIff(net: Network, node: U64, ep: U16, run: seq<MemberCall>)
    requires node in net && Members(net[node], ep, {}) && AllSucceed(node, ep, run)
    ensures IsASet(net, node, ep, run) <==> NothingIsLost(run)
  {
    hide Members, ApplyAll, Succeeds, LosesNothing;
    if run == [] {
      assert run[..0] == [];
    } else {
      var n := |run| - 1;
      MembershipIsASetIff(net, node, ep, run[..n]);
      SetSplit(net, node, ep, run);
      LossSplit(run);
      if IsASet(net, node, ep, run[..n]) {
        assert run[..n][..n] == run[..n];
        OneMore(After(net, node, run[..n]), node, ep, run[n], Added(run[..n]));
      }
    }
  }

  lemma SetSplit(net: Network, node: U64, ep: U16, run: seq<MemberCall>)
    requires node in net && run != []
    ensures var n := |run| - 1;
      IsASet(net, node, ep, run) <==> IsASet(net, node, ep, run[..n]) && HoldsAdded(net, node, ep, run)
  {
    hide HoldsAdded;
    var n := |run| - 1;
    assert run[..n + 1] == run;
    assert forall k :: 0 <= k <= n ==> run[..n][..k] == run[..k];
  }

  lemma LossSplit(run: seq<MemberCall>)
    requires run != []
    ensures var n := |run| - 1;
      NothingIsLost(run) <==> NothingIsLost(run[..n]) && LosesNothing(run[n], Added(run[..n]))
  {
    hide Added, LosesNothing;
    var n := |run| - 1;
    assert forall k :: 0 <= k < n ==> run[..n][..k] == run[..k] && run[..n][k] == run[k];
  }

  lemma OneMore(net: Network, node: U64, ep: U16, c: MemberCall, s: set<U16>)
    requires node in net && Members(net[node], ep, s) && Succeeds(node, ep, c)
    ensures Members(ApplyAll(net, StepsOf(net, node, c))[node], ep, if c.Add? then s + {c.group} else s - {c.group})
            <==> LosesNothing(c, s)
  {
    hide Members, ApplyAll, AddGroupMember, RemoveGroupMember, AppEp, MapWasRead, AddAnswers, OwnLists;
    match c
    case Add(g, env) => AddRefinesIff(net, env, node, g, s);
    case Remove(g, env) => RemoveRefinesIff(net, env, node, g, s);
  }

  // ---- What other calls do to it ----------------------------------------------------------------------

  /** build_acl_json names no group, so a list it has built says that the device is in none. */
  lemma GrantsNoGroup(d: Device, ep: U16, s: set<U16>, subjects: seq<U64>)
    requires Members(d, ep, s)
    ensures Members(d.(acl := WriteAcl(GrantList(subjects))), ep, s) <==> s == {}
  {
    hide ReadKeyMap, ReadAcl, WriteAcl, Maps, MapSays, ClusterSays;
    var es := GrantList(subjects);
    AclReadsBack(es);
    assert forall x: U64 :: !Granted(es, x);
    if s != {} {
      var g :| g in s;
      assert !Granted(es, g) && !AclSays(es, s);
    }
  }

  lemma SameMembers(d: Device, e: Device, ep: U16, s: set<U16>)
    requires d.acl == e.acl && d.keyMap == e.keyMap && d.groups == e.groups
    ensures Members(d, ep, s) <==> Members(e, ep, s)
  {
  }

  /** create_binding leaves the light in its groups exactly when it was in none or its ACL was not
      rewritten. */
  lemma CreateBindingKeepsMembersIff(net: Network, env: Env, sw: U64, swEp: U16, light: U64, lightEp: U16,
                                     ep: U16, s: set<U16>)
    requires light in net && Members(net[light], ep, s)
    ensures Members(ApplyAll(net, CreateBinding(net, env, sw, swEp, light, lightEp).steps)[light], ep, s) <==>
      s == {} || SwitchEp(env, sw, swEp).None? || OnOffEp(env, light, lightEp).None?
      || Reply(env, 0, true) != Ok || Reply(env, 1, true) != Ok
  {
    hide Members, WriteAcl, GrantList, AddOnce, OperateSubjects, SwitchEp, OnOffEp, CreateBinding, ApplyAll, Reply;
    var d, subjects := net[light], AddOnce(OperateSubjects(AclAt(net, env, 0, light)), sw);
    var after := ApplyAll(net, CreateBinding(net, env, sw, swEp, light, lightEp).steps)[light];
    CreateOnLight(net, env, sw, swEp, light, lightEp);
    GrantsNoGroup(d, ep, s, subjects);
    SameMembers(after, d.(acl := after.acl), ep, s);
  }

  /** The same for delete_binding. */
  lemma DeleteBindingKeepsMembersIff(net: Network, env: Env, sw: U64, swEp: U16, light: U64, lightEp: U16,
                                     ep: U16, s: set<U16>)
    requires light in net && Members(net[light], ep, s)
    ensures Members(ApplyAll(net, DeleteBinding(net, env, sw, swEp, light, lightEp).steps)[light], ep, s) <==>
      s == {} || SwitchEp(env, sw, swEp).None? || Reply(env, 2, true) != Ok || Reply(env, 3, true) != Ok
  {
    hide Members, WriteAcl, GrantList, Drop, OperateSubjects, SwitchEp, DeleteBinding, ApplyAll, Reply;
    var d, subjects := net[light], Drop(OperateSubjects(AclAt(net, env, 2, light)), sw);
    var after := ApplyAll(net, DeleteBinding(net, env, sw, swEp, light, lightEp).steps)[light];
    DeleteOnLight(net, env, sw, swEp, light, lightEp);
    GrantsNoGroup(d, ep, s, subjects);
    SameMembers(after, d.(acl := after.acl), ep, s);
  }

  /** A successful install keeps every mapping the device had exactly when the map could be read or held
      nothing but the group under the shared keyset. */
  lemma InstallKeepsMappingsIff(net: Network, env: Env, node: U64, g: U16)
    requires node in net && InstallAnswers(env) && OwnLists(env)
    ensures var had := ReadKeyMap(net[node].keyMap);
      var has := ReadKeyMap(ApplyAll(net, InstallKey(net, env, node, g).steps)[node].keyMap);
      (forall e :: e in had ==> e in has)
      <==> MapWasRead(env) || forall e :: e in had ==> e == KeyMapEntry(g, APP_KEYSET)
  {
    hide ReadKeyMap, WriteKeyMap, InstallKey, ApplyAll, MapWasRead, InstallAnswers;
    var known := KnownMap(net, env, node);
    InstallSucceedsIff(net, env, node, g);
    InstallEffect(net, env, node, g);
    KeyMapReadsBack(WithMapping(known, g, APP_KEYSET));
    assert known == [] ==> WithMapping(known, g, APP_KEYSET) == [KeyMapEntry(g, APP_KEYSET)];
  }

  /** After it the group is mapped, and to the shared keyset alone exactly when the map could not be read
      or no entry that was there maps the group to another. */
  lemma InstallMapsToSharedKeyIff(net: Network, env: Env, node: U64, g: U16)
    requires node in net && InstallAnswers(env) && OwnLists(env)
    ensures var had := ReadKeyMap(net[node].keyMap);
      var has := ReadKeyMap(ApplyAll(net, InstallKey(net, env, node, g).steps)[node].keyMap);
      Maps(has, g)
      && ((forall e :: e in has && e.group == g ==> e.keyset == APP_KEYSET) <==>
          !MapWasRead(env) || forall e :: e in had && e.group == g ==> e.keyset == APP_KEYSET)
  {
    hide ReadKeyMap, WriteKeyMap, InstallKey, ApplyAll, MapWasRead, InstallAnswers, WithMapping;
    var known := KnownMap(net, env, node);
    InstallSucceedsIff(net, env, node, g);
    InstallEffect(net, env, node, g);
    KeyMapReadsBack(WithMapping(known, g, APP_KEYSET));
    SharedKeyIff(known, g);
  }

  lemma SharedKeyIff(es: seq<KeyMapEntry>, g: U16)
    ensures Maps(WithMapping(es, g, APP_KEYSET), g)
    ensures (forall e :: e in WithMapping(es, g, APP_KEYSET) && e.group == g ==> e.keyset == APP_KEYSET)
            <==> forall e :: e in es && e.group == g ==> e.keyset == APP_KEYSET
  {
    MappingChanges(es, g, APP_KEYSET, g);
    MapsByEntry(es, g);
    var more := es + [KeyMapEntry(g, APP_KEYSET)];
    assert forall e :: e in more <==> e in es || e == KeyMapEntry(g, APP_KEYSET);
  }

  /** A successful create_group_binding keeps every target the switch had exactly when the list could
      be read or held nothing but that group's target. */
  lemma GroupBindingKeepsTargetsIff(net: Network, env: Env, sw: U64, swEp: U16, g: U16)
    requires CreateGroupBinding(net, env, sw, swEp, g).err == Ok && OwnLists(env)
    requires SwitchEp(env, sw, swEp).Some? && HasBindings(net, sw, SwitchEp(env, sw, swEp).value)
    ensures var ep := SwitchEp(env, sw, swEp).value;
      var ts := ReadTargets(net[sw].bindings[ep]);
      var after := ApplyAll(net, CreateGroupBinding(net, env, sw, swEp, g).steps)[sw].bindings;
      ep in after
      && ((forall t :: t in ts ==> Normal(t) in ReadTargets(after[ep]))
          <==> Reply(env, 3, true) == Ok || forall t :: t in ts ==> Normal(t) == Target(0, 0, ONOFF, g, true))
  {
    hide ReadTargets, WriteTargets, SwitchEp, CreateGroupBinding, ApplyAll, Reply, WithGroupTarget;
    GroupBindingEffect(net, env, sw, swEp, g);
    var ts := ReadTargets(net[sw].bindings[SwitchEp(env, sw, swEp).value]);
    var known := if Reply(env, 3, true) == Ok then ts else [];
    WithGroupTargetAdds(known, g);
    var list := WithGroupTarget(known, g);
    forall t | t in ts
      ensures Normal(t) in ReadTargets(WriteTargets(list)) <==> exists u :: u in list && Normal(t) == Normal(u)
    {
      WrittenTargets(list, Normal(t));
    }
    assert forall t :: t in ts && t in list ==> exists u :: u in list && Normal(t) == Normal(u);
    assert Normal(Target(0, 0, ONOFF, g, true)) == Target(0, 0, ONOFF, g, true);
  }

  lemma WithGroupTargetAdds(ts: seq<Target>, g: U16)
    ensures forall t :: t in ts ==> t in WithGroupTarget(ts, g)
    ensures ts == [] ==> WithGroupTarget(ts, g) == [Target(0, 0, ONOFF, g, true)]
  {
  }

  // ---- Inputs on which the calls lose something -------------------------------------------------------

  /** A light in group 5 and nothing else. */
  function InGroup5(): Device {
    Device([AclRaw(Some(ADMINISTER), Some(AUTH_CASE), Some([CONTROLLER])),
            AclRaw(Some(OPERATE), Some(AUTH_GROUP), Some([5]))],
           map[], [KeyMapRaw(Some(5), Some(APP_KEYSET))], {APP_KEYSET}, {(1, 5)})
  }

  lemma InGroup5Members()
    ensures Members(InGroup5(), 1, {5})
  {
    var d := InGroup5();
    var entry := KeyMapEntry(5, APP_KEYSET);
    assert ReadKeyMap(d.keyMap) == [entry] by { KeyMapReadsBack([entry]); }
    assert [entry][0].group == 5;
    var es := ReadAcl(d.acl);
    assert es[1] == AclEntry(OPERATE, AUTH_GROUP, [5]);
    assert 5 in es[1].subjects;
  }

  /** Added to group 6 while its key map cannot be read, it is no longer mapped to group 5. */
  lemma AddCanUnmap(net: Network, env: Env)
    requires net == map[7 := InGroup5()]
    requires env == Env([Ok, Timeout, Ok, Ok, Ok, Ok], [], true, map[])
    ensures Members(net[7], AppEp(env, 7), {5}) && AddGroupMember(net, env, 7, 6).err == Ok
    ensures ReadKeyMap(ApplyAll(net, AddGroupMember(net, env, 7, 6).steps)[7].keyMap) == [KeyMapEntry(6, APP_KEYSET)]
  {
    hide ReadKeyMap, WriteKeyMap, ReadAcl, WriteAcl, AdmitList, AddGroupMember, ApplyAll, Members;
    InGroup5Members();
    assert AddAnswers(env);
    AddSucceedsIff(net, env, 7, 6);
    AddEffect(net, env, 7, 6);
    assert WithMapping([], 6, APP_KEYSET) == [KeyMapEntry(6, APP_KEYSET)];
    KeyMapReadsBack([KeyMapEntry(6, APP_KEYSET)]);
  }

  /** Bound to a switch, it grants group 5 no more. */
  lemma CreateBindingCanDropGroup(net: Network, env: Env)
    requires net == map[1 := Device([], map[1 := []], [], {}, {}), 7 := InGroup5()]
    requires env == Env([Ok, Ok, Ok, Ok], [], true, map[])
    ensures Members(net[7], 1, {5}) && CreateBinding(net, env, 1, 1, 7, 1).err == Ok
    ensures !Members(ApplyAll(net, CreateBinding(net, env, 1, 1, 7, 1).steps)[7], 1, {5})
  {
    hide OperateSubjects, GrantList, WriteAcl, ReadTargets, WriteTargets, ApplyAll, Members;
    InGroup5Members();
    CreateGoesThroughIff(net, env, 1, 1, 7, 1);
    CreateBindingKeepsMembersIff(net, env, 1, 1, 7, 1, 1, {5});
  }

  /** Unbound from it, likewise. */
  lemma DeleteBindingCanDropGroup(net: Network, env: Env)
    requires net == map[1 := Device([], map[1 := []], [], {}, {}), 7 := InGroup5()]
    requires env == Env([Ok, Ok, Ok, Ok], [], true, map[])
    ensures Members(net[7], 1, {5}) && DeleteBinding(net, env, 1, 1, 7, 1).err == Ok
    ensures !Members(ApplyAll(net, DeleteBinding(net, env, 1, 1, 7, 1).steps)[7], 1, {5})
  {
    hide OperateSubjects, GrantList, WriteAcl, ReadTargets, WriteTargets, ApplyAll, Members;
    InGroup5Members();
    DeleteBindingKeepsMembersIff(net, env, 1, 1, 7, 1, 1, {5});
  }

  /** A mapping of the group to keyset 9 is left in place. */
  lemma InstallCanLeaveOtherKeyset(net: Network, env: Env)
    requires net == map[7 := Device([], map[], [KeyMapRaw(Some(5), Some(9))], {}, {})]
    requires env == Env([Ok, Ok, Ok], [], true, map[])
    ensures InstallKey(net, env, 7, 5).err == Ok
    ensures ReadKeyMap(ApplyAll(net, InstallKey(net, env, 7, 5).steps)[7].keyMap) == [KeyMapEntry(5, 9)]
  {
    hide InstallKey, ApplyAll;
    var entry := KeyMapEntry(5, 9);
    KeyMapReadsBack([entry]);
    assert WriteKeyMap([entry]) == net[7].keyMap;
    assert [entry][0].group == 5;
    assert InstallAnswers(env);
    InstallSucceedsIff(net, env, 7, 5);
    InstallEffect(net, env, 7, 5);
  }

  /** A switch bound to light 2 loses that target when its list cannot be read. */
  lemma GroupBindingCanUnbind(net: Network, env: Env)
    requires net == map[1 := Device([], map[1 := [BindingRaw(Some(2), None, Some(1), Some(ONOFF))]], [], {}, {})]
    requires env == Env([Ok, Ok, Ok, Timeout, Ok], [], true, map[])
    ensures CreateGroupBinding(net, env, 1, 1, 5).err == Ok
    ensures ReadTargets(net[1].bindings[1]) == [Target(2, 1, ONOFF, 0, false)]
    ensures var after := ApplyAll(net, CreateGroupBinding(net, env, 1, 1, 5).steps)[1].bindings;
      1 in after && Target(2, 1, ONOFF, 0, false) !in ReadTargets(after[1])
  {
    hide ReadKeyMap, WriteKeyMap, WithMapping, ApplyAll, LocalGroup;
    assert net[1].bindings[1][..0] == [];
    assert ReadTargets(net[1].bindings[1]) == [Target(2, 1, ONOFF, 0, false)];
    assert CreateGroupBinding(net, env, 1, 1, 5).err == Ok;
    hide ReadTargets, WriteTargets, CreateGroupBinding;
    GroupBindingEffect(net, env, 1, 1, 5);
    WithGroupTargetAdds([], 5);
    WrittenTargets([Target(0, 0, ONOFF, 5, true)], Target(2, 1, ONOFF, 0, false));
  }
}

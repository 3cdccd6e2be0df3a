/** Authorised before bound: a switch is never left with an OnOff target on a light that would refuse
    it, and the two calls for which this needs a condition get the exact one. */
module Authorisation {
  import opened CTypes
  import opened Fabric
  import opened Calls

  /** Switch endpoint ep of sw has t among its unicast OnOff targets. */
  predicate Bound(net: Network, sw: U64, ep: U16, t: Target) {
    HasBindings(net, sw, ep) && t in ReadTargets(net[sw].bindings[ep]) && !t.isGroup && t.cluster == ONOFF
  }

  predicate Grants(net: Network, light: U64, sw: U64) {
    light in net && sw in OperateSubjects(net[light].acl)
  }

  /** Every unicast OnOff target of any switch names a light that grants that switch Operate. */
  ghost predicate Authorised(net: Network) {
    forall sw: U64, ep: U16, t: Target :: Bound(net, sw, ep, t) ==> Grants(net, t.node, sw)
  }

  /** The property holds before, between and after the steps. */
  ghost predicate Throughout(net: Network, steps: seq<Step>) {
    forall i :: 0 <= i <= |steps| ==> Authorised(ApplyAll(net, steps[..i]))
  }

  // ---- One step ------------------------------------------------------------------------------------

  /** What a step must not do: take a grant away from a switch still bound, or bind without a grant. */
  ghost predicate Careful(net: Network, s: Step) {
    match s
    case PutAcl(n, acl) => n in net ==>
      forall sw: U64, ep: U16, t: Target :: Bound(net, sw, ep, t) && t.node == n ==> sw in OperateSubjects(acl)
    case PutBindings(n, ep, bindings) => n in net ==>
      forall t: Target :: t in ReadTargets(bindings) && !t.isGroup && t.cluster == ONOFF ==> Grants(net, t.node, n)
    case _ => true
  }

  lemma StepIsCareful(net: Network, s: Step)
    requires Authorised(net)
    ensures Careful(net, s) <==> Authorised(Apply(net, s))
  {
    hide OperateSubjects, ReadTargets;
    var after := Apply(net, s);
    if Careful(net, s) {
      forall sw: U64, ep: U16, t: Target | Bound(after, sw, ep, t) ensures Grants(after, t.node, sw) {
        if s.PutBindings? && s.node == sw && s.endpoint == ep && sw in net {
        } else {
          assert Bound(net, sw, ep, t);
        }
      }
    } else {
      if s.PutAcl? {
        var sw: U64, ep: U16, t: Target :| Bound(net, sw, ep, t) && t.node == s.node && sw !in OperateSubjects(s.acl);
        assert Bound(after, sw, ep, t) && !Grants(after, t.node, sw);
      } else {
        var t: Target :|
          t in ReadTargets(s.bindings) && !t.isGroup && t.cluster == ONOFF && !Grants(net, t.node, s.node);
        assert Bound(after, s.node, s.endpoint, t) && !Grants(after, t.node, s.node);
      }
    }
  }

  lemma NoSteps(net: Network)
    requires Authorised(net)
    ensures Throughout(net, []) && ApplyAll(net, []) == net
  {
  }

  lemma OneStep(net: Network, s: Step)
    requires Authorised(net)
    ensures Throughout(net, [s]) <==> Careful(net, s)
    ensures ApplyAll(net, [s]) == Apply(net, s)
  {
    hide Authorised, Careful;
    StepIsCareful(net, s);
    assert [s][..0] == [] && [s][..1] == [s];
    assert ApplyAll(net, [s]) == Apply(ApplyAll(net, []), s);
  }

  lemma Chain(net: Network, a: seq<Step>, b: seq<Step>)
    requires Throughout(net, a)
    ensures Throughout(net, a + b) <==> Throughout(ApplyAll(net, a), b)
    ensures Authorised(ApplyAll(net, a))
  {
    hide Authorised, ApplyAll;
    var all := a + b;
    assert a[..|a|] == a;
    forall i | |a| <= i <= |all| ensures ApplyAll(net, all[..i]) == ApplyAll(ApplyAll(net, a), b[..i - |a|]) {
      ApplySplit(net, a, b[..i - |a|]);
      assert all[..i] == a + b[..i - |a|];
    }
    assert forall i :: 0 <= i <= |a| ==> all[..i] == a[..i];
    if Throughout(net, all) {
      forall i | 0 <= i <= |b| ensures Authorised(ApplyAll(ApplyAll(net, a), b[..i])) {
        assert Authorised(ApplyAll(net, all[..|a| + i]));
      }
    }
  }

  // ---- What each list operation keeps ------------------------------------------------------------

  lemma WrittenSubjects(es: seq<AclEntry>, x: U64)
    ensures x in OperateSubjects(WriteAcl(es)) <==> exists i :: 0 <= i < |es| && IsOperate(es[i]) && x in es[i].subjects
  {
    var rs := WriteAcl(es);
    assert forall i :: 0 <= i < |es| ==> ReadEntry(rs[i]) == es[i];
  }

  lemma GrantedSubjects(subjects: seq<U64>, x: U64)
    ensures x in OperateSubjects(WriteAcl(GrantList(subjects))) <==> x in subjects
  {
    WrittenSubjects(GrantList(subjects), x);
    if subjects != [] { assert GrantList(subjects)[1] == AclEntry(OPERATE, AUTH_CASE, subjects); }
  }

  lemma {:induction false} AdmittedOperate(es: seq<AclEntry>, g: U16, e: AclEntry)
    requires IsOperate(e)
    ensures e in Admitted(es, g) <==> e in es
  {
    if es != [] {
      var n := |es| - 1;
      AdmittedOperate(es[..n], g, e);
      assert es == es[..n] + [es[n]];
    }
  }

  lemma {:induction false} ExpelledOperate(es: seq<AclEntry>, g: U16, e: AclEntry)
    requires IsOperate(e)
    ensures e in Expelled(es, g) <==> e in es
  {
    if es != [] {
      var n := |es| - 1;
      ExpelledOperate(es[..n], g, e);
      assert es == es[..n] + [es[n]];
    }
  }

  /** Both group calls leave the Operate/CASE subjects as they are. */
  lemma GroupListsKeepSubjects(rs: seq<AclRaw>, g: U16, x: U64)
    ensures x in OperateSubjects(WriteAcl(AdmitList(ReadAcl(rs), g))) <==> x in OperateSubjects(rs)
    ensures x in OperateSubjects(WriteAcl(ExpelList(ReadAcl(rs), g))) <==> x in OperateSubjects(rs)
  {
    hide OperateSubjects, Admitted, Expelled, HasGroupEntry;
    var es := ReadAcl(rs);
    SubjectsByEntry(rs, x);
    var a, b := AdmitList(es, g), ExpelList(es, g);
    WrittenSubjects(a, x);
    WrittenSubjects(b, x);
    forall e | IsOperate(e) ensures (e in a <==> e in es) && (e in b <==> e in es) {
      AdmittedOperate(es, g, e);
      ExpelledOperate(es, g, e);
    }
    assert x in OperateSubjects(WriteAcl(a)) <==> exists e :: e in a && IsOperate(e) && x in e.subjects;
    assert x in OperateSubjects(WriteAcl(b)) <==> exists e :: e in b && IsOperate(e) && x in e.subjects;
  }

  lemma SubjectsByEntry(rs: seq<AclRaw>, x: U64)
    ensures x in OperateSubjects(rs) <==> exists e :: e in ReadAcl(rs) && IsOperate(e) && x in e.subjects
  {
    var es := ReadAcl(rs);
    if x in OperateSubjects(rs) {
      var i :| 0 <= i < |rs| && IsOperate(ReadEntry(rs[i])) && x in ReadEntry(rs[i]).subjects;
      assert es[i] in es;
    }
  }

  /** Every switch with an OnOff target on the light is among the subjects. */
  ghost predicate AllAmong(net: Network, light: U64, subjects: seq<U64>) {
    forall sw: U64, ep: U16, t: Target :: Bound(net, sw, ep, t) && t.node == light ==> sw in subjects
  }

  /** Every unicast OnOff target in the list names a light that grants the switch. */
  ghost predicate AllGranted(net: Network, sw: U64, ts: seq<Target>) {
    forall t: Target :: t in ts && !t.isGroup && t.cluster == ONOFF ==> Grants(net, t.node, sw)
  }

  /** Rewriting an ACL, whatever it is made from. */
  lemma PutAclIff(net: Network, light: U64, acl: seq<AclRaw>, subjects: seq<U64>)
    requires light in net && forall x :: x in OperateSubjects(acl) <==> x in subjects
    ensures Careful(net, PutAcl(light, acl)) <==> AllAmong(net, light, subjects)
  {
    hide OperateSubjects, ReadTargets, Bound;
  }

  /** Written back, the unicast OnOff targets are those of the list. */
  lemma WrittenUnicast(ts: seq<Target>, t: Target)
    requires t in ReadTargets(WriteTargets(ts)) && !t.isGroup
    ensures exists u :: u in ts && !u.isGroup && u.node == t.node && u.cluster == t.cluster
  {
    WrittenTargets(ts, t);
  }

  /** Rewriting a Binding list, whatever it is made from. */
  lemma PutBindingsIff(net: Network, n: U64, ep: U16, ts: seq<Target>)
    requires n in net
    ensures Careful(net, PutBindings(n, ep, WriteTargets(ts))) <==> AllGranted(net, n, ts)
  {
    hide OperateSubjects, ReadTargets, WriteTargets, Grants;
    var written := ReadTargets(WriteTargets(ts));
    if AllGranted(net, n, ts) {
      forall t: Target | t in written && !t.isGroup && t.cluster == ONOFF ensures Grants(net, t.node, n) {
        WrittenUnicast(ts, t);
      }
    }
    if Careful(net, PutBindings(n, ep, WriteTargets(ts))) {
      forall t: Target | t in ts && !t.isGroup && t.cluster == ONOFF ensures Grants(net, t.node, n) {
        WrittenTargets(ts, Normal(t));
      }
    }
  }

  // ---- Steps around the one that counts --------------------------------------------------------------

  lemma FrontThroughout(net: Network, a: seq<Step>, b: seq<Step>)
    requires Throughout(net, a + b)
    ensures Throughout(net, a)
  {
    hide Authorised, ApplyAll;
    forall i | 0 <= i <= |a| ensures Authorised(ApplyAll(net, a[..i])) {
      assert (a + b)[..i] == a[..i];
    }
  }

  /** The steps that touch neither ACLs nor bindings. */
  predicate Harmless(s: Step) {
    !s.PutAcl? && !s.PutBindings?
  }

  ghost predicate AllHarmless(steps: seq<Step>) {
    forall i :: 0 <= i < |steps| ==> Harmless(steps[i])
  }

  lemma {:induction false} HarmlessSteps(net: Network, steps: seq<Step>)
    requires Authorised(net) && AllHarmless(steps)
    ensures Throughout(net, steps)
  {
    hide Authorised;
    if steps == [] {
      NoSteps(net);
    } else {
      var n := |steps| - 1;
      assert steps == steps[..n] + [steps[n]];
      HarmlessSteps(net, steps[..n]);
      Chain(net, steps[..n], [steps[n]]);
      OneStep(ApplyAll(net, steps[..n]), steps[n]);
    }
  }

  lemma {:induction false} HarmlessKeepsLists(net: Network, steps: seq<Step>, n: U64)
    requires n in net && AllHarmless(steps)
    ensures ApplyAll(net, steps)[n].acl == net[n].acl && ApplyAll(net, steps)[n].bindings == net[n].bindings
  {
    if steps != [] { HarmlessKeepsLists(net, steps[..|steps| - 1], n); }
  }

  /** They change neither who is bound nor who is granted. */
  lemma HarmlessChangesNothing(net: Network, steps: seq<Step>)
    requires AllHarmless(steps)
    ensures var after := ApplyAll(net, steps);
      && (forall light: U64, subjects: seq<U64> :: AllAmong(after, light, subjects) <==> AllAmong(net, light, subjects))
      && (forall sw: U64, ts: seq<Target> :: AllGranted(after, sw, ts) <==> AllGranted(net, sw, ts))
  {
    hide OperateSubjects, ReadTargets, ApplyAll;
    var after := ApplyAll(net, steps);
    forall n | n in net ensures after[n].acl == net[n].acl && after[n].bindings == net[n].bindings {
      HarmlessKeepsLists(net, steps, n);
    }
    forall sw: U64, ep: U16, t: Target ensures Bound(after, sw, ep, t) <==> Bound(net, sw, ep, t) { }
    forall light: U64, sw: U64 ensures Grants(after, light, sw) <==> Grants(net, light, sw) { }
    hide Bound, Grants;
  }

  /** Harmless steps, then one step, then harmless steps again: the one step decides. */
  lemma Sandwich(net: Network, a: seq<Step>, s: Step, b: seq<Step>)
    requires Authorised(net) && AllHarmless(a) && AllHarmless(b)
    ensures Throughout(net, a + [s] + b) <==> Careful(ApplyAll(net, a), s)
  {
    hide Authorised, Throughout, Careful, ApplyAll, AllHarmless;
    HarmlessSteps(net, a);
    Chain(net, a, []);
    Chain(net, a, [s]);
    OneStep(ApplyAll(net, a), s);
    if Careful(ApplyAll(net, a), s) {
      Chain(net, a + [s], []);
      Chain(net, a + [s], b);
      HarmlessSteps(ApplyAll(net, a + [s]), b);
    } else if Throughout(net, a + [s] + b) {
      FrontThroughout(net, a + [s], b);
    }
  }

  // ---- The calls ---------------------------------------------------------------------------------------

  /** create_binding must be handed an ACL that names every switch bound to the light, but perhaps its own
      switch, and a Binding list of lights that grant its switch, but perhaps this one. */
  ghost predicate CreateIsSafe(net: Network, env: Env, sw: U64, from: U16, light: U64) {
    light in net && BothOk(env, 0, 1) ==>
      && AllAmong(net, light, AddOnce(OperateSubjects(AclAt(net, env, 0, light)), sw))
      && (HasBindings(net, sw, from) && BothOk(env, 2, 3) ==>
            var ts := ReadTargets(BindingsAt(net, env, 2, sw, from));
            forall t: Target :: t in ts && !t.isGroup && t.cluster == ONOFF ==>
              t.node == light || Grants(net, t.node, sw))
  }

  lemma CreateBindingKeepsIff(net: Network, env: Env, sw: U64, swEp: U16, light: U64, lightEp: U16)
    requires Authorised(net) && SwitchEp(env, sw, swEp).Some? && OnOffEp(env, light, lightEp).Some?
    ensures Throughout(net, CreateBinding(net, env, sw, swEp, light, lightEp).steps) <==>
      CreateIsSafe(net, env, sw, SwitchEp(env, sw, swEp).value, light)
  {
    hide Authorised, Throughout, Careful, AllAmong, AllGranted, AddOnce, OperateSubjects, ReadTargets, WriteTargets;
    hide GrantList, WriteAcl, WithTarget, SwitchEp, OnOffEp, Apply, AclAt, BindingsAt;
    var steps := CreateBinding(net, env, sw, swEp, light, lightEp).steps;
    NoSteps(net);
    if steps != [] {
      var from, to := SwitchEp(env, sw, swEp).value, OnOffEp(env, light, lightEp).value;
      var subjects := AddOnce(OperateSubjects(AclAt(net, env, 0, light)), sw);
      var grant := steps[0];
      GrantIff(net, light, subjects);
      OneStep(net, grant);
      var mid := Apply(net, grant);
      GrantKeepsBindings(net, env, 2, light, grant.acl, sw, from);
      if |steps| == 2 {
        var ts := ReadTargets(BindingsAt(net, env, 2, sw, from));
        assert steps == [grant] + [steps[1]];
        if AllAmong(net, light, subjects) {
          Chain(net, [grant], [steps[1]]);
          PutBindingsIff(mid, sw, from, WithTarget(ts, light, to));
          OneStep(mid, steps[1]);
          BindIff(net, light, subjects, sw, ts, to);
        } else if Throughout(net, steps) {
          FrontThroughout(net, [grant], [steps[1]]);
        }
      } else {
        assert steps == [grant];
      }
    }
  }

  lemma GrantIff(net: Network, light: U64, subjects: seq<U64>)
    requires light in net
    ensures Careful(net, PutAcl(light, WriteAcl(GrantList(subjects)))) <==> AllAmong(net, light, subjects)
  {
    hide Careful, AllAmong, OperateSubjects, GrantList, WriteAcl;
    forall x ensures x in OperateSubjects(WriteAcl(GrantList(subjects))) <==> x in subjects {
      GrantedSubjects(subjects, x);
    }
    PutAclIff(net, light, WriteAcl(GrantList(subjects)), subjects);
  }

  lemma GrantKeepsBindings(net: Network, env: Env, k: nat, light: U64, acl: seq<AclRaw>, sw: U64, ep: U16)
    ensures var mid := Apply(net, PutAcl(light, acl));
      && (HasBindings(mid, sw, ep) <==> HasBindings(net, sw, ep))
      && BindingsAt(mid, env, k, sw, ep) == BindingsAt(net, env, k, sw, ep)
  {
  }

  lemma BindIff(net: Network, light: U64, subjects: seq<U64>, sw: U64, ts: seq<Target>, to: U16)
    requires light in net && sw in subjects
    ensures AllGranted(Apply(net, PutAcl(light, WriteAcl(GrantList(subjects)))), sw, WithTarget(ts, light, to)) <==>
      forall t: Target :: t in ts && !t.isGroup && t.cluster == ONOFF ==> t.node == light || Grants(net, t.node, sw)
  {
    hide OperateSubjects, GrantList, WriteAcl;
    var mid := Apply(net, PutAcl(light, WriteAcl(GrantList(subjects))));
    GrantedSubjects(subjects, sw);
    assert forall n: U64 :: Grants(mid, n, sw) <==> n == light || Grants(net, n, sw);
    hide Grants;
    var added := Target(light, to, ONOFF, 0, false);
    assert forall t :: t in WithTarget(ts, light, to) ==> t in ts || t == added;
    assert forall t :: t in ts ==> t in WithTarget(ts, light, to);
  }

  /** Whatever add_group_member is handed for the ACL must name every switch bound to the node. */
  ghost predicate AddIsSafe(net: Network, env: Env, node: U64) {
    node in net && env.keyStored && BothOk(env, 0, 2) && BothOk(env, 3, 4) ==>
      AllAmong(net, node, OperateSubjects(AclAt(net, env, 3, node)))
  }

  lemma AddGroupMemberKeepsIff(net: Network, env: Env, node: U64, g: U16)
    requires Authorised(net)
    ensures Throughout(net, AddGroupMember(net, env, node, g).steps) <==> AddIsSafe(net, env, node)
  {
    hide Authorised, Throughout, Careful, AllAmong, OperateSubjects, AdmitList, WriteAcl, ReadAcl, ApplyAll, AclAt;
    hide ReadKeyMap, WriteKeyMap, WithMapping, KeyMapAt, AppEp;
    var steps := AddGroupMember(net, env, node, g).steps;
    var install := InstallKey(net, env, node, g).steps;
    if |steps| <= |install| {
      HarmlessSteps(net, steps);
    } else {
      var raw := AclAt(net, env, 3, node);
      var admit, join := steps[|install|], steps[|install| + 1..];
      forall x ensures x in OperateSubjects(admit.acl) <==> x in OperateSubjects(raw) {
        GroupListsKeepSubjects(raw, g, x);
      }
      HarmlessChangesNothing(net, install);
      PutAclIff(ApplyAll(net, install), node, admit.acl, OperateSubjects(raw));
      Sandwich(net, install, admit, join);
      assert steps == install + [admit] + join;
    }
  }

  /** The same for remove_group_member. */
  ghost predicate RemoveIsSafe(net: Network, env: Env, node: U64) {
    node in net && BothOk(env, 3, 4) ==> AllAmong(net, node, OperateSubjects(AclAt(net, env, 3, node)))
  }

  lemma RemoveGroupMemberKeepsIff(net: Network, env: Env, node: U64, g: U16)
    requires Authorised(net)
    ensures Throughout(net, RemoveGroupMember(net, env, node, g).steps) <==> RemoveIsSafe(net, env, node)
  {
    hide Authorised, Throughout, Careful, AllAmong, OperateSubjects, ExpelList, WriteAcl, ReadAcl, ApplyAll, AclAt;
    hide ReadKeyMap, WriteKeyMap, WithoutMapping, KeyMapAt, AppEp;
    var first := LeaveStep(net, env, node, g) + UnmapStep(net, env, node, g);
    var expel := ExpelStep(net, env, node, g);
    if expel == [] {
      HarmlessSteps(net, first);
      assert first + expel == first;
    } else {
      var raw := AclAt(net, env, 3, node);
      forall x ensures x in OperateSubjects(expel[0].acl) <==> x in OperateSubjects(raw) {
        GroupListsKeepSubjects(raw, g, x);
      }
      HarmlessChangesNothing(net, first);
      PutAclIff(ApplyAll(net, first), node, expel[0].acl, OperateSubjects(raw));
      Sandwich(net, first, expel[0], []);
      assert first + expel == first + [expel[0]] + [];
    }
  }

  /** Group targets need no grant. */
  lemma GroupTargetsAreNeutral(net: Network, sw: U64, ts: seq<Target>, g: U16)
    ensures AllGranted(net, sw, WithGroupTarget(ts, g)) <==> AllGranted(net, sw, ts)
    ensures AllGranted(net, sw, WithoutGroupTarget(ts, g)) <==> AllGranted(net, sw, ts)
  {
    hide Grants;
    assert forall t :: t in ts ==> t in WithGroupTarget(ts, g);
    assert forall t :: t in WithGroupTarget(ts, g) ==> t in ts || t.isGroup;
  }

  /** The list create_group_binding is handed must name lights that grant the switch. */
  ghost predicate CreateGroupIsSafe(net: Network, env: Env, sw: U64, from: U16) {
    HasBindings(net, sw, from) && env.keyStored && BothOk(env, 0, 2) && BothOk(env, 3, 4) ==>
      AllGranted(net, sw, ReadTargets(BindingsAt(net, env, 3, sw, from)))
  }

  lemma CreateGroupBindingKeepsIff(net: Network, env: Env, sw: U64, swEp: U16, g: U16)
    requires Authorised(net) && SwitchEp(env, sw, swEp).Some?
    ensures Throughout(net, CreateGroupBinding(net, env, sw, swEp, g).steps) <==>
      CreateGroupIsSafe(net, env, sw, SwitchEp(env, sw, swEp).value)
  {
    hide Authorised, Throughout, Careful, AllGranted, ReadTargets, WriteTargets, WithGroupTarget, SwitchEp, ApplyAll;
    hide ReadKeyMap, WriteKeyMap, WithMapping, KeyMapAt, BindingsAt;
    var from := SwitchEp(env, sw, swEp).value;
    var steps := CreateGroupBinding(net, env, sw, swEp, g).steps;
    var install := InstallKey(net, env, sw, g).steps;
    if |steps| <= |install| {
      HarmlessSteps(net, steps);
    } else {
      var bind := steps[|install|];
      var known := if Reply(env, 3, true) == Ok then ReadTargets(BindingsAt(net, env, 3, sw, from)) else [];
      assert bind == PutBindings(sw, from, WriteTargets(WithGroupTarget(known, g)));
      assert AllGranted(net, sw, []) by { NoTargets(net, sw); }
      HarmlessChangesNothing(net, install);
      PutBindingsIff(ApplyAll(net, install), sw, from, WithGroupTarget(known, g));
      GroupTargetsAreNeutral(net, sw, known, g);
      Sandwich(net, install, bind, LocalGroup(net, env, 5, sw, g, true));
    }
  }

  lemma NoTargets(net: Network, sw: U64)
    ensures AllGranted(net, sw, [])
  {
  }

  /** The same for delete_group_binding. */
  ghost predicate DeleteGroupIsSafe(net: Network, env: Env, sw: U64, from: U16) {
    HasBindings(net, sw, from) && BothOk(env, 0, 1) ==>
      AllGranted(net, sw, ReadTargets(BindingsAt(net, env, 0, sw, from)))
  }

  lemma DeleteGroupBindingKeepsIff(net: Network, env: Env, sw: U64, swEp: U16, g: U16)
    requires Authorised(net) && SwitchEp(env, sw, swEp).Some?
    ensures Throughout(net, DeleteGroupBinding(net, env, sw, swEp, g).steps) <==>
      DeleteGroupIsSafe(net, env, sw, SwitchEp(env, sw, swEp).value)
  {
    hide Authorised, Throughout, Careful, AllGranted;
    hide ReadTargets, WriteTargets, WithoutGroupTarget, SwitchEp, BindingsAt;
    var from := SwitchEp(env, sw, swEp).value;
    var steps, leave := DeleteGroupBinding(net, env, sw, swEp, g).steps, LocalGroup(net, env, 2, sw, g, false);
    if steps == leave {
      HarmlessSteps(net, steps);
    } else {
      var ts := ReadTargets(BindingsAt(net, env, 0, sw, from));
      PutBindingsIff(net, sw, from, WithoutGroupTarget(ts, g));
      GroupTargetsAreNeutral(net, sw, ts, g);
      Sandwich(net, [], steps[0], leave);
      assert steps == [] + [steps[0]] + leave;
    }
  }

  lemma {:induction false} DropKeysetsHarmless(net: Network, env: Env, node: U64, n: U16)
    ensures AllHarmless(DropKeysets(net, env, node, n))
  {
    if n > 0 { DropKeysetsHarmless(net, env, node, n - 1); }
  }

  lemma ResetNodeGroupsKeeps(net: Network, env: Env, node: U64)
    requires Authorised(net)
    ensures Throughout(net, ResetNodeGroups(net, env, node).steps)
  {
    hide Authorised, Throughout, DropKeysets, Reply;
    DropKeysetsHarmless(net, env, node, MAX_KEYSET_SCAN);
    HarmlessSteps(net, ResetNodeGroups(net, env, node).steps);
  }

  lemma ResetBindingsKeeps(net: Network, env: Env, node: U64)
    requires Authorised(net)
    ensures Throughout(net, ResetBindings(net, env, node).steps)
  {
    NoSteps(net);
    var out := ResetBindings(net, env, node);
    if out.steps != [] { OneStep(net, out.steps[0]); }
  }

  // ---- The two calls that need a condition -----------------------------------------------------------

  /** Nobody has an OnOff target on the node. */
  ghost predicate NobodyAims(net: Network, node: U64) {
    forall sw: U64, ep: U16, t: Target :: Bound(net, sw, ep, t) ==> t.node != node
  }

  /** reset_acl is safe exactly when its write fails or nobody is bound to the node. */
  lemma ResetAclKeepsIff(net: Network, env: Env, node: U64)
    requires Authorised(net)
    ensures Throughout(net, ResetAcl(net, env, node).steps) <==>
      Reply(env, 0, node in net) != Ok || NobodyAims(net, node)
  {
    hide OperateSubjects, ReadTargets;
    NoSteps(net);
    var out := ResetAcl(net, env, node);
    if out.err == Ok {
      var s := out.steps[0];
      OneStep(net, s);
      forall x ensures x !in OperateSubjects(s.acl) { GrantedSubjects([], x); }
    }
  }

  /** The switch has an OnOff target on the light. */
  ghost predicate AimsAt(net: Network, sw: U64, light: U64) {
    exists ep: U16, t: Target :: Bound(net, sw, ep, t) && t.node == light
  }

  /** Every OnOff target the switch has on the light is one that delete_binding takes away: it sits
      on the endpoint in question, matches, and that list could be read and written. */
  ghost predicate AllTaken(net: Network, env: Env, sw: U64, ep: U16, light: U64, lightEp: U16) {
    forall e: U16, t: Target :: Bound(net, sw, e, t) && t.node == light ==>
      e == ep && Matches(t, light, lightEp) && BothOk(env, 0, 1)
  }

  /** What delete_binding leaves of the Binding list it is handed. */
  function LeftOf(net: Network, env: Env, sw: U64, ep: U16, light: U64, lightEp: U16): seq<Target> {
    WithoutTarget(ReadTargets(BindingsAt(net, env, 0, sw, ep)), light, lightEp)
  }

  predicate Unbinds(net: Network, env: Env, sw: U64, ep: U16) {
    HasBindings(net, sw, ep) && BothOk(env, 0, 1)
  }

  /** The list delete_binding is handed, but for what matches, must name lights that grant the switch;
      and the ACL it is handed must name every other switch bound to the light, while this switch must
      be left without a target on it. */
  ghost predicate DeleteIsSafe(net: Network, env: Env, sw: U64, ep: U16, light: U64, lightEp: U16) {
    && (Unbinds(net, env, sw, ep) ==> AllGranted(net, sw, LeftOf(net, env, sw, ep, light, lightEp)))
    && (light in net && BothOk(env, 2, 3) ==>
          && (forall s: U64, e: U16, t: Target :: Bound(net, s, e, t) && t.node == light ==>
                if s == sw then e == ep && Unbinds(net, env, sw, ep)
                else s in OperateSubjects(AclAt(net, env, 2, light)))
          && (Unbinds(net, env, sw, ep) ==>
                var left := LeftOf(net, env, sw, ep, light, lightEp);
                forall t: Target :: t in left && !t.isGroup && t.cluster == ONOFF ==> t.node != light))
  }

  lemma UnbindIff(net: Network, env: Env, sw: U64, ep: U16, light: U64, lightEp: U16)
    requires Authorised(net)
    ensures Throughout(net, Unbind(net, env, sw, ep, light, lightEp)) <==>
      (Unbinds(net, env, sw, ep) ==> AllGranted(net, sw, LeftOf(net, env, sw, ep, light, lightEp)))
    ensures Unbind(net, env, sw, ep, light, lightEp) == if !Unbinds(net, env, sw, ep) then [] else
      [PutBindings(sw, ep, WriteTargets(LeftOf(net, env, sw, ep, light, lightEp)))]
  {
    hide Authorised, Throughout, Careful, AllGranted, ReadTargets, WriteTargets, WithoutTarget, BindingsAt;
    NoSteps(net);
    if Unbinds(net, env, sw, ep) {
      var left := LeftOf(net, env, sw, ep, light, lightEp);
      PutBindingsIff(net, sw, ep, left);
      OneStep(net, PutBindings(sw, ep, WriteTargets(left)));
    }
  }

  /** Who is bound to the light once the first half is over, and has to be among the subjects. */
  lemma AmongAfterIff(net: Network, sw: U64, ep: U16, left: seq<Target>, light: U64, subjects: seq<U64>)
    requires HasBindings(net, sw, ep) && sw !in subjects
    ensures AllAmong(Apply(net, PutBindings(sw, ep, WriteTargets(left))), light, subjects) <==>
      && (forall s: U64, e: U16, t: Target :: Bound(net, s, e, t) && t.node == light ==>
            if s == sw then e == ep else s in subjects)
      && (forall t: Target :: t in left && !t.isGroup && t.cluster == ONOFF ==> t.node != light)
  {
    hide ReadTargets, WriteTargets;
    var mid := Apply(net, PutBindings(sw, ep, WriteTargets(left)));
    assert mid[sw].bindings[ep] == WriteTargets(left);
    forall s: U64, e: U16, t: Target | s != sw || e != ep ensures Bound(mid, s, e, t) <==> Bound(net, s, e, t) { }
    forall t: Target | Bound(mid, sw, ep, t)
      ensures exists u :: u in left && !u.isGroup && u.node == t.node && u.cluster == ONOFF
    {
      WrittenUnicast(left, t);
    }
    forall t: Target | t in left && !t.isGroup && t.cluster == ONOFF ensures Bound(mid, sw, ep, Normal(t)) {
      WrittenTargets(left, Normal(t));
    }
    hide Bound, HasBindings;
    AmongSplit(net, mid, sw, ep, left, light, subjects);
  }

  lemma AmongSplit(net: Network, mid: Network, sw: U64, ep: U16, left: seq<Target>, light: U64, subjects: seq<U64>)
    requires sw !in subjects
    requires forall s: U64, e: U16, t: Target :: s != sw || e != ep ==> (Bound(mid, s, e, t) <==> Bound(net, s, e, t))
    requires forall t: Target :: Bound(mid, sw, ep, t) ==>
      exists u :: u in left && !u.isGroup && u.node == t.node && u.cluster == ONOFF
    requires forall t: Target :: t in left && !t.isGroup && t.cluster == ONOFF ==> Bound(mid, sw, ep, Normal(t))
    ensures AllAmong(mid, light, subjects) <==>
      && (forall s: U64, e: U16, t: Target :: Bound(net, s, e, t) && t.node == light ==>
            if s == sw then e == ep else s in subjects)
      && (forall t: Target :: t in left && !t.isGroup && t.cluster == ONOFF ==> t.node != light)
  {
    hide Bound;
    if AllAmong(mid, light, subjects) {
      forall t: Target | t in left && !t.isGroup && t.cluster == ONOFF ensures t.node != light {
        assert Bound(mid, sw, ep, Normal(t));
      }
    }
  }

  /** delete_binding, handed whatever lists: the exact condition. */
  lemma DeleteBindingKeepsIff(net: Network, env: Env, sw: U64, swEp: U16, light: U64, lightEp: U16)
    requires Authorised(net) && SwitchEp(env, sw, swEp).Some?
    ensures Throughout(net, DeleteBinding(net, env, sw, swEp, light, lightEp).steps) <==>
      DeleteIsSafe(net, env, sw, SwitchEp(env, sw, swEp).value, light, OnOffEp(env, light, lightEp).GetOr(0))
  {
    hide Authorised, Throughout, Careful, ApplyAll, Unbind;
    hide AllGranted, AllAmong, OperateSubjects, GrantList, SwitchEp, OnOffEp;
    hide DeleteIsSafe, WriteAcl, Drop, LeftOf, WriteTargets;
    var ep, to := SwitchEp(env, sw, swEp).value, OnOffEp(env, light, lightEp).GetOr(0);
    var unbind := Unbind(net, env, sw, ep, light, to);
    var mid := ApplyAll(net, unbind);
    var revoke := Revoke(mid, env, sw, light);
    UnbindIff(net, env, sw, ep, light, to);
    UnbindKeepsAcl(net, env, sw, ep, light, to);
    RevokeNeeds(net, env, sw, ep, light, to);
    if Throughout(net, unbind) {
      Chain(net, unbind, revoke);
      Chain(net, unbind, []);
      if revoke == [] {
        NoSteps(mid);
      } else {
        GrantIff(mid, light, Drop(OperateSubjects(AclAt(net, env, 2, light)), sw));
        OneStep(mid, revoke[0]);
        assert revoke == [revoke[0]];
      }
    } else if Throughout(net, unbind + revoke) {
      FrontThroughout(net, unbind, revoke);
    }
  }

  lemma UnbindKeepsAcl(net: Network, env: Env, sw: U64, ep: U16, light: U64, lightEp: U16)
    ensures var mid := ApplyAll(net, Unbind(net, env, sw, ep, light, lightEp));
      mid.Keys == net.Keys && AclAt(mid, env, 2, light) == AclAt(net, env, 2, light)
  {
    hide ReadTargets, WriteTargets, WithoutTarget, BindingsAt;
    var steps := Unbind(net, env, sw, ep, light, lightEp);
    if steps != [] { ApplyFirst(net, steps[0]); }
  }

  /** The condition in terms of the state between the two halves. */
  lemma RevokeNeeds(net: Network, env: Env, sw: U64, ep: U16, light: U64, lightEp: U16)
    requires Authorised(net)
    ensures var mid := ApplyAll(net, Unbind(net, env, sw, ep, light, lightEp));
      DeleteIsSafe(net, env, sw, ep, light, lightEp) <==>
        && (Unbinds(net, env, sw, ep) ==> AllGranted(net, sw, LeftOf(net, env, sw, ep, light, lightEp)))
        && (light in net && BothOk(env, 2, 3) ==>
              AllAmong(mid, light, Drop(OperateSubjects(AclAt(net, env, 2, light)), sw)))
  {
    hide Authorised, ApplyAll, OperateSubjects, AllGranted, LeftOf, Unbind, AclAt, WriteTargets, ReadTargets, BothOk;
    var left := LeftOf(net, env, sw, ep, light, lightEp);
    var subjects := Drop(OperateSubjects(AclAt(net, env, 2, light)), sw);
    UnbindIff(net, env, sw, ep, light, lightEp);
    if Unbinds(net, env, sw, ep) {
      ApplyFirst(net, PutBindings(sw, ep, WriteTargets(left)));
      AmongAfterIff(net, sw, ep, left, light, subjects);
    } else {
      NoSteps(net);
    }
    hide Bound, Unbinds;
  }

  /** Handed the device's own lists, delete_binding keeps the property at every point exactly when the
      light's ACL is not rewritten or every OnOff target of the switch on it has been taken away first. */
  lemma OwnDeleteIsSafeIff(net: Network, env: Env, sw: U64, ep: U16, light: U64, lightEp: U16)
    requires Authorised(net) && OwnLists(env)
    ensures DeleteIsSafe(net, env, sw, ep, light, lightEp) <==>
      !(light in net && BothOk(env, 2, 3)) || AllTaken(net, env, sw, ep, light, lightEp)
  {
    hide OperateSubjects, ReadTargets, Reply;
    var left := LeftOf(net, env, sw, ep, light, lightEp);
    if Unbinds(net, env, sw, ep) {
      forall t: Target | t in left && !t.isGroup && t.cluster == ONOFF ensures Grants(net, t.node, sw) {
        assert Bound(net, sw, ep, t);
      }
    }
    forall s: U64, e: U16, t: Target | Bound(net, s, e, t) && t.node == light
      ensures s in OperateSubjects(AclAt(net, env, 2, light))
    {
      assert Grants(net, t.node, s);
    }
    if light in net && BothOk(env, 2, 3) {
      if DeleteIsSafe(net, env, sw, ep, light, lightEp) {
        forall e: U16, t: Target | Bound(net, sw, e, t) && t.node == light
          ensures e == ep && Matches(t, light, lightEp) && BothOk(env, 0, 1)
        {
          assert Unbinds(net, env, sw, ep) ==> Matches(t, light, lightEp) || t in left;
        }
      } else {
        assert !AllTaken(net, env, sw, ep, light, lightEp) by {
          if AllTaken(net, env, sw, ep, light, lightEp) {
            forall t: Target | Unbinds(net, env, sw, ep) && t in left && !t.isGroup && t.cluster == ONOFF
              ensures t.node != light
            {
              assert Bound(net, sw, ep, t);
            }
          }
        }
      }
    }
  }

  /** Two targets on one light, endpoints 1 and 2; deleting the first revokes the grant both need. */
  lemma DeleteBindingCanStrand(net: Network, env: Env)
    requires net == map[
      1 := Device([], map[1 := [BindingRaw(Some(2), None, Some(1), Some(ONOFF)),
                                BindingRaw(Some(2), None, Some(2), Some(ONOFF))]], [], {}, {}),
      2 := Device([AclRaw(Some(OPERATE), Some(AUTH_CASE), Some([1]))], map[], [], {}, {})]
    requires env.replies == [Ok, Ok, Ok, Ok] && OwnLists(env)
    ensures Authorised(net) && !Throughout(net, DeleteBinding(net, env, 1, 1, 2, 1).steps)
  {
    hide ReadTargets, Throughout;
    var list := net[1].bindings[1];
    forall sw: U64, ep: U16, t: Target | Bound(net, sw, ep, t) ensures Grants(net, t.node, sw) {
      var i :| 0 <= i < |list| && ReadTarget(list[i]) == Some(t);
      assert ReadEntry(net[2].acl[0]) == AclEntry(OPERATE, AUTH_CASE, [1]);
      assert 1 in ReadEntry(net[2].acl[0]).subjects;
    }
    var kept := Target(2, 2, ONOFF, 0, false);
    assert ReadTarget(list[1]) == Some(kept);
    assert Bound(net, 1, 1, kept) && !Matches(kept, 2, 1);
    DeleteBindingKeepsIff(net, env, 1, 1, 2, 1);
    OwnDeleteIsSafeIff(net, env, 1, 1, 2, 1);
  }

  /** A switch bound to a light that grants it; resetting the light's ACL revokes the grant. */
  lemma ResetAclCanStrand(net: Network, env: Env)
    requires net == map[
      1 := Device([], map[1 := [BindingRaw(Some(2), None, Some(1), Some(ONOFF))]], [], {}, {}),
      2 := Device([AclRaw(Some(OPERATE), Some(AUTH_CASE), Some([1]))], map[], [], {}, {})]
    requires env.replies == [Ok]
    ensures Authorised(net) && !Throughout(net, ResetAcl(net, env, 2).steps)
  {
    hide ReadTargets, Throughout, ResetAcl;
    var list, target := net[1].bindings[1], Target(2, 1, ONOFF, 0, false);
    forall sw: U64, ep: U16, t: Target | Bound(net, sw, ep, t) ensures Grants(net, t.node, sw) {
      var i :| 0 <= i < |list| && ReadTarget(list[i]) == Some(t);
      assert ReadEntry(net[2].acl[0]) == AclEntry(OPERATE, AUTH_CASE, [1]);
      assert 1 in ReadEntry(net[2].acl[0]).subjects;
    }
    assert ReadTarget(list[0]) == Some(target);
    assert Bound(net, 1, 1, target);
    ResetAclKeepsIff(net, env, 2);
  }

  // ---- Runs --------------------------------------------------------------------------------------

  /** What has to hold where a call starts, whatever lists its reads are handed. */
  ghost predicate Safe(net: Network, e: Event) {
    match e.call
    case CallCreateBinding(sw, swEp, light, lightEp) =>
      SwitchEp(e.env, sw, swEp).None? || OnOffEp(e.env, light, lightEp).None?
      || CreateIsSafe(net, e.env, sw, SwitchEp(e.env, sw, swEp).value, light)
    case CallDeleteBinding(sw, swEp, light, lightEp) =>
      SwitchEp(e.env, sw, swEp).None?
      || DeleteIsSafe(net, e.env, sw, SwitchEp(e.env, sw, swEp).value, light, OnOffEp(e.env, light, lightEp).GetOr(0))
    case CallAddGroupMember(node, _) => AddIsSafe(net, e.env, node)
    case CallRemoveGroupMember(node, _) => RemoveIsSafe(net, e.env, node)
    case CallCreateGroupBinding(sw, swEp, _) =>
      SwitchEp(e.env, sw, swEp).None? || CreateGroupIsSafe(net, e.env, sw, SwitchEp(e.env, sw, swEp).value)
    case CallDeleteGroupBinding(sw, swEp, _) =>
      SwitchEp(e.env, sw, swEp).None? || DeleteGroupIsSafe(net, e.env, sw, SwitchEp(e.env, sw, swEp).value)
    case CallResetAcl(node) => Reply(e.env, 0, node in net) != Ok || NobodyAims(net, node)
    case _ => true
  }

  /** What is left of that when every read is handed the device's own list: two calls to check. */
  ghost predicate OwnSafe(net: Network, e: Event) {
    match e.call
    case CallDeleteBinding(sw, swEp, light, lightEp) =>
      SwitchEp(e.env, sw, swEp).None?
      || !(light in net && BothOk(e.env, 2, 3))
      || AllTaken(net, e.env, sw, SwitchEp(e.env, sw, swEp).value, light, OnOffEp(e.env, light, lightEp).GetOr(0))
    case CallResetAcl(node) => Reply(e.env, 0, node in net) != Ok || NobodyAims(net, node)
    case _ => true
  }

  /** One call keeps the property, at every point, exactly when it is safe. */
  lemma CallKeepsIff(net: Network, e: Event)
    requires Authorised(net)
    ensures Throughout(net, Perform(net, e.env, e.call).steps) <==> Safe(net, e)
  {
    hide Authorised, Throughout, NobodyAims, SwitchEp, OnOffEp, Reply;
    hide CreateIsSafe, DeleteIsSafe, AddIsSafe, RemoveIsSafe, CreateGroupIsSafe, DeleteGroupIsSafe;
    hide AddGroupMember, RemoveGroupMember, ResetNodeGroups, ResetBindings, InstallKey, Unbind, Revoke;
    NoSteps(net);
    match e.call
    case CallCreateBinding(sw, swEp, light, lightEp) =>
      if SwitchEp(e.env, sw, swEp).Some? && OnOffEp(e.env, light, lightEp).Some? {
        CreateBindingKeepsIff(net, e.env, sw, swEp, light, lightEp);
      }
    case CallDeleteBinding(sw, swEp, light, lightEp) =>
      if SwitchEp(e.env, sw, swEp).Some? { DeleteBindingKeepsIff(net, e.env, sw, swEp, light, lightEp); }
    case CallAddGroupMember(node, g) => AddGroupMemberKeepsIff(net, e.env, node, g);
    case CallRemoveGroupMember(node, g) => RemoveGroupMemberKeepsIff(net, e.env, node, g);
    case CallCreateGroupBinding(sw, swEp, g) =>
      if SwitchEp(e.env, sw, swEp).Some? { CreateGroupBindingKeepsIff(net, e.env, sw, swEp, g); }
    case CallDeleteGroupBinding(sw, swEp, g) =>
      if SwitchEp(e.env, sw, swEp).Some? { DeleteGroupBindingKeepsIff(net, e.env, sw, swEp, g); }
    case CallResetNodeGroups(node) => ResetNodeGroupsKeeps(net, e.env, node);
    case CallResetAcl(node) => ResetAclKeepsIff(net, e.env, node);
    case CallResetBindings(node) => ResetBindingsKeeps(net, e.env, node);
  }

  /** In an authorised network a device's own lists meet every condition on lists. */
  lemma OwnListsAreSafe(net: Network, env: Env, node: U64, sw: U64, from: U16)
    requires Authorised(net) && OwnLists(env)
    ensures AddIsSafe(net, env, node) && RemoveIsSafe(net, env, node)
    ensures CreateIsSafe(net, env, sw, from, node)
    ensures CreateGroupIsSafe(net, env, sw, from) && DeleteGroupIsSafe(net, env, sw, from)
  {
    hide OperateSubjects, ReadTargets, Reply;
    forall s: U64, e: U16, t: Target | Bound(net, s, e, t) && t.node == node && node in net
      ensures s in OperateSubjects(net[node].acl)
    {
      assert Grants(net, t.node, s);
    }
    forall t: Target
      | HasBindings(net, sw, from) && t in ReadTargets(net[sw].bindings[from]) && !t.isGroup && t.cluster == ONOFF
      ensures Grants(net, t.node, sw)
    {
      assert Bound(net, sw, from, t);
    }
    hide Bound, Grants;
  }

  /** So with own lists a call is safe exactly when its guards say so. */
  lemma OwnSafeIff(net: Network, e: Event)
    requires Authorised(net) && OwnLists(e.env)
    ensures Safe(net, e) <==> OwnSafe(net, e)
  {
    hide Authorised, NobodyAims, SwitchEp, OnOffEp, Reply, AllTaken;
    hide CreateIsSafe, DeleteIsSafe, AddIsSafe, RemoveIsSafe, CreateGroupIsSafe, DeleteGroupIsSafe;
    match e.call
    case CallCreateBinding(sw, swEp, light, _) =>
      OwnListsAreSafe(net, e.env, light, sw, SwitchEp(e.env, sw, swEp).GetOr(0));
    case CallDeleteBinding(sw, swEp, light, lightEp) =>
      var to := OnOffEp(e.env, light, lightEp).GetOr(0);
      OwnDeleteIsSafeIff(net, e.env, sw, SwitchEp(e.env, sw, swEp).GetOr(0), light, to);
    case CallAddGroupMember(node, _) => OwnListsAreSafe(net, e.env, node, 0, 0);
    case CallRemoveGroupMember(node, _) => OwnListsAreSafe(net, e.env, node, 0, 0);
    case CallCreateGroupBinding(sw, swEp, _) => OwnListsAreSafe(net, e.env, 0, sw, SwitchEp(e.env, sw, swEp).GetOr(0));
    case CallDeleteGroupBinding(sw, swEp, _) => OwnListsAreSafe(net, e.env, 0, sw, SwitchEp(e.env, sw, swEp).GetOr(0));
    case _ =>
  }

  /** Each call of the run is safe in the state it starts from. */
  ghost predicate SafeRun(net: Network, run: seq<Event>) {
    forall k :: 0 <= k < |run| ==> Safe(ApplyAll(net, RunSteps(net, run[..k])), run[k])
  }

  /** Over any run of any calls, with any answers and any lists handed to the reads, every state is
      authorised exactly when each call is safe where it starts. */
  lemma {:induction false} RunsAreAuthorisedIff(net: Network, run: seq<Event>)
    requires Authorised(net)
    ensures Throughout(net, RunSteps(net, run)) <==> SafeRun(net, run)
  {
    hide Authorised, Throughout, Perform, ApplyAll, Safe;
    if run == [] {
      NoSteps(net);
    } else {
      var n := |run| - 1;
      var early := run[..n];
      RunsAreAuthorisedIff(net, early);
      SafeRunStep(net, run);
      if SafeRun(net, early) {
        var steps := RunSteps(net, early);
        Chain(net, steps, []);
        var mid := ApplyAll(net, steps);
        var more := Perform(mid, run[n].env, run[n].call).steps;
        CallKeepsIff(mid, run[n]);
        Chain(net, steps, more);
      } else if Throughout(net, RunSteps(net, run)) {
        var steps := RunSteps(net, early);
        var mid := ApplyAll(net, steps);
        FrontThroughout(net, steps, Perform(mid, run[n].env, run[n].call).steps);
      }
    }
  }

  lemma SafeRunStep(net: Network, run: seq<Event>)
    requires run != []
    ensures var n := |run| - 1;
      SafeRun(net, run) <==> SafeRun(net, run[..n]) && Safe(ApplyAll(net, RunSteps(net, run[..n])), run[n])
  {
    hide Safe, ApplyAll, RunSteps;
    var n := |run| - 1;
    assert forall k :: 0 <= k < n ==> run[..n][..k] == run[..k] && run[..n][k] == run[k];
  }

  ghost predicate OwnSafeRun(net: Network, run: seq<Event>) {
    forall k :: 0 <= k < |run| ==> OwnSafe(ApplyAll(net, RunSteps(net, run[..k])), run[k])
  }

  ghost predicate OwnRun(run: seq<Event>) {
    forall k :: 0 <= k < |run| ==> OwnLists(run[k].env)
  }

  /** Where the reads are handed the devices' own lists, this is a condition on each delete and each ACL
      reset alone. */
  lemma {:induction false} OwnRunsAreAuthorisedIff(net: Network, run: seq<Event>)
    requires Authorised(net) && OwnRun(run)
    ensures Throughout(net, RunSteps(net, run)) <==> OwnSafeRun(net, run)
  {
    hide Authorised, Throughout, ApplyAll, Safe, OwnSafe, RunSteps, OwnLists;
    RunsAreAuthorisedIff(net, run);
    if run != [] {
      var n := |run| - 1;
      OwnRunsAreAuthorisedIff(net, run[..n]);
      RunsAreAuthorisedIff(net, run[..n]);
      SafeRunStep(net, run);
      OwnSafeRunStep(net, run);
      if Throughout(net, RunSteps(net, run[..n])) {
        Chain(net, RunSteps(net, run[..n]), []);
        OwnSafeIff(ApplyAll(net, RunSteps(net, run[..n])), run[n]);
      }
    }
  }

  lemma OwnSafeRunStep(net: Network, run: seq<Event>)
    requires run != []
    ensures var n := |run| - 1;
      OwnSafeRun(net, run) <==> OwnSafeRun(net, run[..n]) && OwnSafe(ApplyAll(net, RunSteps(net, run[..n])), run[n])
  {
    hide OwnSafe, ApplyAll, RunSteps;
    var n := |run| - 1;
    assert forall k :: 0 <= k < n ==> run[..n][..k] == run[..k] && run[..n][k] == run[k];
  }
}

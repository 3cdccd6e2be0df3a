/** No call, and no failure of one, can cost the controller its Administer grant on a device. */
module Lockout {
  import opened CTypes
  import opened Fabric
  import opened Calls

  /** The list opens with an Administer/CASE entry naming the controller. */
  predicate OpensWithGrant(acl: seq<AclRaw>) {
    acl != [] && IsAdmin(ReadEntry(acl[0])) && CONTROLLER in ReadEntry(acl[0]).subjects
  }

  /** The controller's own entry comes first and is the only Administer/CASE entry. */
  ghost predicate Canonical(acl: seq<AclRaw>) {
    acl != [] && ReadEntry(acl[0]) == ADMIN && forall i :: 0 < i < |acl| ==> !IsAdmin(ReadEntry(acl[i]))
  }

  ghost predicate CanonicalStep(s: Step) {
    s.PutAcl? ==> Canonical(s.acl)
  }

  lemma {:induction false} NoAdminLeft(es: seq<AclEntry>, g: U16)
    ensures forall i :: 0 <= i < |Admitted(es, g)| ==> !IsAdmin(Admitted(es, g)[i])
    ensures forall i :: 0 <= i < |Expelled(es, g)| ==> !IsAdmin(Expelled(es, g)[i])
  {
    if es != [] { NoAdminLeft(es[..|es| - 1], g); }
  }

  lemma ListsAreCanonical(subjects: seq<U64>, es: seq<AclEntry>, g: U16)
    ensures Canonical(WriteAcl(GrantList(subjects)))
    ensures Canonical(WriteAcl(AdmitList(es, g))) && Canonical(WriteAcl(ExpelList(es, g)))
  {
    hide Admitted, Expelled, HasGroupEntry, Canonical;
    NoAdminLeft(es, g);
    HeadedByAdmin(GrantList(subjects));
    HeadedByAdmin(AdmitList(es, g));
    HeadedByAdmin(ExpelList(es, g));
  }

  lemma {:induction false} HeadedByAdmin(es: seq<AclEntry>)
    requires es != [] && es[0] == ADMIN && forall i :: 0 < i < |es| ==> !IsAdmin(es[i])
    ensures Canonical(WriteAcl(es))
  {
    var rs := WriteAcl(es);
    assert forall i :: 0 <= i < |es| ==> ReadEntry(rs[i]) == es[i];
  }

  lemma {:induction false} DroppedKeysetsHold(net: Network, env: Env, node: U64, n: U16)
    ensures forall s :: s in DropKeysets(net, env, node, n) ==> s.DropKeyset?
  {
    if n > 0 { DroppedKeysetsHold(net, env, node, n - 1); }
  }

  ghost predicate CanonicalSteps(steps: seq<Step>) {
    forall s :: s in steps ==> CanonicalStep(s)
  }

  lemma BindingCallsAreCanonical(net: Network, env: Env, sw: U64, swEp: U16, light: U64, lightEp: U16)
    ensures CanonicalSteps(CreateBinding(net, env, sw, swEp, light, lightEp).steps)
    ensures CanonicalSteps(DeleteBinding(net, env, sw, swEp, light, lightEp).steps)
  {
    hide Canonical, GrantList, WriteAcl, OperateSubjects, Reply;
    hide ReadTargets, WriteTargets, SwitchEp, OnOffEp, AddOnce, Drop;
    ListsAreCanonical(AddOnce(OperateSubjects(AclAt(net, env, 0, light)), sw), [], 0);
    if SwitchEp(env, sw, swEp).Some? {
      var to := OnOffEp(env, light, lightEp).GetOr(0);
      var mid := ApplyAll(net, Unbind(net, env, sw, SwitchEp(env, sw, swEp).value, light, to));
      ListsAreCanonical(Drop(OperateSubjects(AclAt(mid, env, 2, light)), sw), [], 0);
    }
  }

  lemma GroupCallsAreCanonical(net: Network, env: Env, node: U64, g: U16)
    ensures CanonicalSteps(AddGroupMember(net, env, node, g).steps)
    ensures CanonicalSteps(RemoveGroupMember(net, env, node, g).steps)
  {
    hide Canonical, AdmitList, ExpelList, WriteAcl, ReadAcl, Reply, ReadKeyMap, WriteKeyMap;
    ListsAreCanonical([], ReadAcl(AclAt(net, env, 3, node)), g);
  }

  lemma GroupBindingCallsWriteNoAcl(net: Network, env: Env, sw: U64, swEp: U16, g: U16)
    ensures CanonicalSteps(CreateGroupBinding(net, env, sw, swEp, g).steps)
    ensures CanonicalSteps(DeleteGroupBinding(net, env, sw, swEp, g).steps)
  {
    hide Canonical, Reply, ReadKeyMap, WriteKeyMap, WithMapping, ReadTargets, WriteTargets, SwitchEp;
    hide WithGroupTarget, WithoutGroupTarget;
  }

  lemma ResetsAreCanonical(net: Network, env: Env, node: U64)
    ensures CanonicalSteps(ResetNodeGroups(net, env, node).steps)
    ensures CanonicalSteps(ResetAcl(net, env, node).steps)
    ensures CanonicalSteps(ResetBindings(net, env, node).steps)
  {
    hide Canonical, Reply, DropKeysets, GrantList, WriteAcl;
    DroppedKeysetsHold(net, env, node, MAX_KEYSET_SCAN);
    ListsAreCanonical([], [], 0);
  }

  /** Every ACL any call writes is canonical. */
  lemma CallsWriteCanonically(net: Network, env: Env, c: Call)
    ensures CanonicalSteps(Perform(net, env, c).steps)
  {
    hide CanonicalSteps, CreateBinding, DeleteBinding, AddGroupMember, RemoveGroupMember;
    hide CreateGroupBinding, DeleteGroupBinding, ResetNodeGroups, ResetAcl, ResetBindings;
    match c
    case CallCreateBinding(sw, swEp, light, lightEp) => BindingCallsAreCanonical(net, env, sw, swEp, light, lightEp);
    case CallDeleteBinding(sw, swEp, light, lightEp) => BindingCallsAreCanonical(net, env, sw, swEp, light, lightEp);
    case CallAddGroupMember(node, g) => GroupCallsAreCanonical(net, env, node, g);
    case CallRemoveGroupMember(node, g) => GroupCallsAreCanonical(net, env, node, g);
    case CallCreateGroupBinding(sw, swEp, g) => GroupBindingCallsWriteNoAcl(net, env, sw, swEp, g);
    case CallDeleteGroupBinding(sw, swEp, g) => GroupBindingCallsWriteNoAcl(net, env, sw, swEp, g);
    case CallResetNodeGroups(node) => ResetsAreCanonical(net, env, node);
    case CallResetAcl(node) => ResetsAreCanonical(net, env, node);
    case CallResetBindings(node) => ResetsAreCanonical(net, env, node);
  }

  /** Over a run, a device that opens with the grant opens with it in every state, and once its ACL
      has been written the list is canonical. */
  ghost predicate Kept(net: Network, steps: seq<Step>, node: U64) {
    node in net ==>
      (OpensWithGrant(net[node].acl) ==> OpensWithGrant(ApplyAll(net, steps)[node].acl))
      && ((exists s :: s in steps && s.PutAcl? && s.node == node) ==> Canonical(ApplyAll(net, steps)[node].acl))
  }

  lemma {:induction false} CanonicalStepsKeep(net: Network, steps: seq<Step>, node: U64)
    requires CanonicalSteps(steps)
    ensures Kept(net, steps, node)
  {
    if steps != [] && node in net {
      hide Canonical, OpensWithGrant;
      var n := |steps| - 1;
      assert forall s :: s in steps <==> s in steps[..n] || s == steps[n];
      CanonicalStepsKeep(net, steps[..n], node);
      if steps[n].PutAcl? && steps[n].node == node {
        assert CanonicalStep(steps[n]);
        CanonicalOpens(steps[n].acl);
      }
    }
  }

  lemma CanonicalOpens(acl: seq<AclRaw>)
    requires Canonical(acl)
    ensures OpensWithGrant(acl)
  {
    assert ADMIN.subjects[0] == CONTROLLER;
  }

  lemma {:induction false} RunStepsAreCanonical(net: Network, run: seq<Event>)
    ensures CanonicalSteps(RunSteps(net, run))
  {
    hide Perform, ApplyAll, CanonicalStep;
    if run != [] {
      var n := |run| - 1;
      RunStepsAreCanonical(net, run[..n]);
      CallsWriteCanonically(ApplyAll(net, RunSteps(net, run[..n])), run[n].env, run[n].call);
    }
  }

  /** Whatever calls are made and wherever they fail, at every point of the run the controller keeps
      its grant, and every list it has rewritten is canonical. */
  lemma NeverLockedOut(net: Network, run: seq<Event>, i: nat, node: U64)
    requires i <= |RunSteps(net, run)|
    ensures Kept(net, RunSteps(net, run)[..i], node)
  {
    hide CanonicalStep, Kept;
    RunStepsAreCanonical(net, run);
    CanonicalStepsKeep(net, RunSteps(net, run)[..i], node);
  }
}

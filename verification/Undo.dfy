/** Which calls are undone by their opposite, and which repeat without effect. */
module Undo {
  import opened CTypes
  import opened Fabric
  import opened Calls
  import opened Effects
  import opened Membership
  import Authorisation

  // ---- Groups ----------------------------------------------------------------------------------------

  /** An entry that remove_group_member passes on as it is. */
  predicate Kept(e: AclEntry, g: U16) {
    e.privilege != 0 && e.authMode != 0 && !IsAdmin(e)
    && (IsGroupEntry(e) ==> e.subjects != [] && (g as U64) !in e.subjects)
  }

  /** The controller's own entry first, then entries that no group call would alter or drop. */
  ghost predicate NormalAcl(es: seq<AclEntry>, g: U16) {
    es != [] && es[0] == ADMIN && forall i :: 1 <= i < |es| ==> Kept(es[i], g)
  }

  lemma {:induction false} DropAdded(s: seq<U64>, x: U64)
    ensures Drop(s + [x], x) == Drop(s, x)
  {
    assert (s + [x])[..|s|] == s;
  }

  lemma {:induction false} ExpelAdmitted(es: seq<AclEntry>, g: U16)
    ensures Expelled(Admitted(es, g), g) == Expelled(es, g)
  {
    if es != [] {
      var n := |es| - 1;
      var before := Admitted(es[..n], g);
      ExpelAdmitted(es[..n], g);
      if !IsAdmin(es[n]) {
        var last := if IsGroupEntry(es[n]) then es[n].(subjects := AddOnce(es[n].subjects, g as U64)) else es[n];
        DropAdded(es[n].subjects, g as U64);
        assert (before + [last])[..|before|] == before;
      } else {
        assert before + [] == before;
      }
    }
  }

  lemma ExpelledSnoc(es: seq<AclEntry>, e: AclEntry, g: U16)
    ensures Expelled(es + [e], g) == Expelled(es, g) + Expelled([e], g)
  {
    assert (es + [e])[..|es|] == es && [e][..0] == [];
    assert Expelled([], g) + Expelled([e], g) == Expelled([e], g);
  }

  lemma {:induction false} ExpelledCons(e: AclEntry, es: seq<AclEntry>, g: U16)
    ensures Expelled([e] + es, g) == Expelled([e], g) + Expelled(es, g)
  {
    if es == [] {
      assert [e] + es == [e];
    } else {
      var n := |es| - 1;
      ExpelledCons(e, es[..n], g);
      assert ([e] + es)[..n + 1] == [e] + es[..n];
      ExpelledSnoc([e] + es[..n], es[n], g);
      ExpelledSnoc(es[..n], es[n], g);
      assert [e] + es == [e] + es[..n] + [es[n]] && es == es[..n] + [es[n]];
    }
  }

  /** Adding and then removing the group gives what removing alone would. */
  lemma RemoveAfterAdd(es: seq<AclEntry>, g: U16)
    ensures ExpelList(AdmitList(es, g), g) == ExpelList(es, g)
  {
    hide Admitted, Expelled;
    var a, extra := Admitted(es, g), AclEntry(OPERATE, AUTH_GROUP, [g as U64]);
    ExpelledCons(ADMIN, a, g);
    ExpelAdmitted(es, g);
    OneEntry(ADMIN, g);
    OneEntry(extra, g);
    DropAdded([], g as U64);
    if HasGroupEntry(es) {
      assert AdmitList(es, g) == [ADMIN] + a;
    } else {
      ExpelledSnoc([ADMIN] + a, extra, g);
    }
  }

  lemma OneEntry(e: AclEntry, g: U16)
    ensures Expelled([e], g) == [] <==>
      e.privilege == 0 || e.authMode == 0 || IsAdmin(e) || (IsGroupEntry(e) && Drop(e.subjects, g as U64) == [])
    ensures Kept(e, g) <==> Expelled([e], g) == [e]
  {
    assert [e][..0] == [];
    assert Expelled([e], g) == [] || |Expelled([e], g)| == 1;
  }

  lemma {:induction false} ExpelledKeeps(es: seq<AclEntry>, g: U16)
    ensures Expelled(es, g) == es <==> forall i :: 0 <= i < |es| ==> Kept(es[i], g)
    ensures |Expelled(es, g)| <= |es| && forall i :: 0 <= i < |Expelled(es, g)| ==> Kept(Expelled(es, g)[i], g)
  {
    if es != [] {
      hide Kept;
      var n := |es| - 1;
      ExpelledKeeps(es[..n], g);
      assert es == es[..n] + [es[n]];
      ExpelledSnoc(es[..n], es[n], g);
      OneEntry(es[n], g);
      LastKept(es[n], g);
    }
  }

  lemma LastKept(e: AclEntry, g: U16)
    ensures |Expelled([e], g)| <= 1 && forall i :: 0 <= i < |Expelled([e], g)| ==> Kept(Expelled([e], g)[i], g)
  {
    assert [e][..0] == [];
  }

  /** The ACL comes back, order and all, exactly when it is printed as the controller prints it, is
      in normal form, and does not grant the group. */
  lemma AclRestoredIff(acl: seq<AclRaw>, g: U16)
    ensures acl == WriteAcl(ExpelList(AdmitList(ReadAcl(acl), g), g))
            <==> acl == WriteAcl(ReadAcl(acl)) && NormalAcl(ReadAcl(acl), g)
  {
    hide AdmitList, ExpelList, NormalAcl;
    var es := ReadAcl(acl);
    RemoveAfterAdd(es, g);
    AclReadsBack(ExpelList(es, g));
    ExpelListKeepsIff(es, g);
  }

  lemma ExpelListKeepsIff(es: seq<AclEntry>, g: U16)
    ensures ExpelList(es, g) == es <==> NormalAcl(es, g)
  {
    hide Expelled, Kept;
    if es != [] && es[0] == ADMIN {
      assert es == [ADMIN] + es[1..];
      ExpelledCons(ADMIN, es[1..], g);
      OneEntry(ADMIN, g);
      ExpelledKeeps(es[1..], g);
      assert ([ADMIN] + Expelled(es[1..], g))[1..] == Expelled(es[1..], g);
      assert forall i :: 0 <= i < |es| - 1 ==> es[1..][i] == es[i + 1];
      if NormalAcl(es, g) {
        forall i | 0 <= i < |es[1..]| ensures Kept(es[1..][i], g) { assert Kept(es[i + 1], g); }
      }
    }
  }

  lemma MapRestoredIff(keyMap: seq<KeyMapRaw>, g: U16)
    ensures keyMap == WriteKeyMap(WithoutMapping(WithMapping(ReadKeyMap(keyMap), g, APP_KEYSET), g))
            <==> keyMap == WriteKeyMap(ReadKeyMap(keyMap)) && !Maps(ReadKeyMap(keyMap), g)
  {
    hide Maps, ReadKeyMap, WriteKeyMap;
    var ks := ReadKeyMap(keyMap);
    UnmapMapped(ks, g);
    KeyMapReadsBack(WithoutMapping(ks, g));
    MappingChanges(ks, g, APP_KEYSET, g);
  }

  lemma UnmapMapped(ks: seq<KeyMapEntry>, g: U16)
    ensures WithoutMapping(WithMapping(ks, g, APP_KEYSET), g) == WithoutMapping(ks, g)
  {
    assert (ks + [KeyMapEntry(g, APP_KEYSET)])[..|ks|] == ks;
  }

  /** An add that succeeds followed by a remove all of whose operations succeed restores both lists
      exactly when both are in the controller's own form, neither mentions the group, and the add could
      read the key map or there was nothing in it. */
  lemma RemoveUndoesAddIff(net: Network, env: Env, back: Env, node: U64, g: U16)
    requires node in net && AddAnswers(env) && AllOk(back, 5) && OwnLists(env) && OwnLists(back)
    ensures var d := net[node];
      var mid := ApplyAll(net, AddGroupMember(net, env, node, g).steps);
      var after := ApplyAll(mid, RemoveGroupMember(mid, back, node, g).steps)[node];
      after.acl == d.acl && after.keyMap == d.keyMap <==>
        && d.acl == WriteAcl(ReadAcl(d.acl)) && NormalAcl(ReadAcl(d.acl), g)
        && d.keyMap == WriteKeyMap(ReadKeyMap(d.keyMap)) && !Maps(ReadKeyMap(d.keyMap), g)
        && (MapWasRead(env) || d.keyMap == [])
  {
    hide *;
    var d := net[node];
    UndoneLists(net, env, back, node, g);
    AclRestoredIff(d.acl, g);
    MapRestoredIff(d.keyMap, g);
    UnreadMap(net, env, node, g);
  }

  /** Where the key map could not be read, what comes back is the empty one. */
  lemma UnreadMap(net: Network, env: Env, node: U64, g: U16)
    requires node in net && OwnLists(env)
    ensures KnownMap(net, env, node) == if MapWasRead(env) then ReadKeyMap(net[node].keyMap) else []
    ensures WriteKeyMap(WithoutMapping(WithMapping([], g, APP_KEYSET), g)) == []
    ensures WriteKeyMap(ReadKeyMap([])) == [] && !Maps(ReadKeyMap([]), g)
  {
    UnmapMapped([], g);
  }

  lemma UndoneLists(net: Network, env: Env, back: Env, node: U64, g: U16)
    requires node in net && AddAnswers(env) && AllOk(back, 5) && OwnLists(env) && OwnLists(back)
    ensures var d := net[node];
      var mid := ApplyAll(net, AddGroupMember(net, env, node, g).steps);
      var after := ApplyAll(mid, RemoveGroupMember(mid, back, node, g).steps)[node];
      after.acl == WriteAcl(ExpelList(AdmitList(ReadAcl(d.acl), g), g))
      && after.keyMap == WriteKeyMap(WithoutMapping(WithMapping(KnownMap(net, env, node), g, APP_KEYSET), g))
  {
    hide ReadKeyMap, WriteKeyMap, WithMapping, WithoutMapping, ReadAcl, WriteAcl, AdmitList, ExpelList, AppEp;
    hide AddGroupMember, ApplyAll, LeaveStep, UnmapStep, ExpelStep, AddAnswers, KnownMap;
    var mid := ApplyAll(net, AddGroupMember(net, env, node, g).steps);
    AddSucceedsIff(net, env, node, g);
    RemoveGoesThroughIff(mid, back, node, g);
    AddEffect(net, env, node, g);
    RemoveEffect(mid, back, node, g);
    RemoveParts(mid, back, node, g);
    AclReadsBack(AdmitList(ReadAcl(net[node].acl), g));
    KeyMapReadsBack(WithMapping(KnownMap(net, env, node), g, APP_KEYSET));
  }

  /** A light in group 5, added to group 6 while its key map cannot be read: the remove does not bring the
      mapping of group 5 back, although both lists are in the controller's form. */
  lemma RemoveCanFailToUndo(net: Network, env: Env, back: Env)
    requires net == map[7 := InGroup5()]
    requires env == Env([Ok, Timeout, Ok, Ok, Ok, Ok], [], true, map[])
    requires back == Env([Ok, Ok, Ok, Ok, Ok], [], true, map[])
    ensures var d := net[7];
      d.acl == WriteAcl(ReadAcl(d.acl)) && NormalAcl(ReadAcl(d.acl), 6)
      && d.keyMap == WriteKeyMap(ReadKeyMap(d.keyMap)) && !Maps(ReadKeyMap(d.keyMap), 6)
    ensures var mid := ApplyAll(net, AddGroupMember(net, env, 7, 6).steps);
      AddGroupMember(net, env, 7, 6).err == Ok
      && |RemoveGroupMember(mid, back, 7, 6).steps| == 3
      && ApplyAll(mid, RemoveGroupMember(mid, back, 7, 6).steps)[7].keyMap == []
  {
    hide *;
    InGroup5Form();
    TimeoutAnswers(env, back);
    var mid := ApplyAll(net, AddGroupMember(net, env, 7, 6).steps);
    AddSucceedsIff(net, env, 7, 6);
    AddEffect(net, env, 7, 6);
    RemoveGoesThroughIff(mid, back, 7, 6);
    UndoneLists(net, env, back, 7, 6);
    UnreadMap(net, env, 7, 6);
  }

  lemma TimeoutAnswers(env: Env, back: Env)
    requires env == Env([Ok, Timeout, Ok, Ok, Ok, Ok], [], true, map[])
    requires back == Env([Ok, Ok, Ok, Ok, Ok], [], true, map[])
    ensures AddAnswers(env) && !MapWasRead(env) && AllOk(back, 5) && OwnLists(env) && OwnLists(back)
  {
  }

  lemma InGroup5Form()
    ensures var d := InGroup5();
      d.acl == WriteAcl(ReadAcl(d.acl)) && NormalAcl(ReadAcl(d.acl), 6)
      && d.keyMap == WriteKeyMap(ReadKeyMap(d.keyMap)) && !Maps(ReadKeyMap(d.keyMap), 6)
  {
    hide Maps, NormalAcl, ReadKeyMap, ReadAcl;
    var d, entry, es := InGroup5(), KeyMapEntry(5, APP_KEYSET), [ADMIN, AclEntry(OPERATE, AUTH_GROUP, [5])];
    assert WriteKeyMap([entry]) == d.keyMap && WriteAcl(es) == d.acl;
    hide WriteKeyMap, WriteAcl, InGroup5;
    KeyMapReadsBack([entry]);
    AclReadsBack(es);
    OtherGroup(es);
  }

  lemma OtherGroup(es: seq<AclEntry>)
    requires es == [ADMIN, AclEntry(OPERATE, AUTH_GROUP, [5])]
    ensures NormalAcl(es, 6) && !Maps([KeyMapEntry(5, APP_KEYSET)], 6)
  {
    assert (6 as U64) !in [5 as U64];
  }

  // ---- Adding twice ----------------------------------------------------------------------------------

  lemma AdmittedSnoc(es: seq<AclEntry>, e: AclEntry, g: U16)
    ensures Admitted(es + [e], g) == Admitted(es, g) + Admitted([e], g)
  {
    assert (es + [e])[..|es|] == es && [e][..0] == [];
    assert Admitted([], g) + Admitted([e], g) == Admitted([e], g);
  }

  lemma AdmittedAlone(e: AclEntry, g: U16)
    ensures Admitted([e], g) ==
      if IsAdmin(e) then [] else if IsGroupEntry(e) then [e.(subjects := AddOnce(e.subjects, g as U64))] else [e]
  {
    assert [e][..0] == [];
  }

  lemma {:induction false} AdmittedCons(e: AclEntry, es: seq<AclEntry>, g: U16)
    ensures Admitted([e] + es, g) == Admitted([e], g) + Admitted(es, g)
  {
    if es == [] {
      assert [e] + es == [e];
    } else {
      var n := |es| - 1;
      AdmittedCons(e, es[..n], g);
      AdmittedSnoc([e] + es[..n], es[n], g);
      AdmittedSnoc(es[..n], es[n], g);
      assert [e] + es == [e] + es[..n] + [es[n]] && es == es[..n] + [es[n]];
    }
  }

  lemma {:induction false} AdmittedTwice(es: seq<AclEntry>, g: U16)
    ensures Admitted(Admitted(es, g), g) == Admitted(es, g)
    ensures HasGroupEntry(Admitted(es, g)) <==> HasGroupEntry(es)
  {
    if es != [] {
      var n := |es| - 1;
      hide Admitted;
      AdmittedTwice(es[..n], g);
      assert es == es[..n] + [es[n]];
      AdmittedSnoc(es[..n], es[n], g);
      AdmittedAlone(es[n], g);
      var last := Admitted([es[n]], g);
      if last == [] {
        assert Admitted(es[..n], g) + last == Admitted(es[..n], g);
      } else {
        AdmittedSnoc(Admitted(es[..n], g), last[0], g);
        AdmittedAlone(last[0], g);
        assert last == [last[0]];
      }
      GroupEntrySplit(es[..n], es[n]);
      if last != [] { GroupEntrySplit(Admitted(es[..n], g), last[0]); }
    }
  }

  lemma GroupEntrySplit(es: seq<AclEntry>, e: AclEntry)
    ensures HasGroupEntry(es + [e]) <==> HasGroupEntry(es) || IsGroupEntry(e)
  {
    var all := es + [e];
    assert all[|es|] == e;
    assert forall i :: 0 <= i < |es| ==> all[i] == es[i];
  }

  lemma ListsTwice(es: seq<AclEntry>, ks: seq<KeyMapEntry>, g: U16)
    ensures AdmitList(AdmitList(es, g), g) == AdmitList(es, g)
    ensures WithMapping(WithMapping(ks, g, APP_KEYSET), g, APP_KEYSET) == WithMapping(ks, g, APP_KEYSET)
  {
    MappingChanges(ks, g, APP_KEYSET, g);
    hide Admitted, HasGroupEntry, Maps;
    var a, extra := Admitted(es, g), AclEntry(OPERATE, AUTH_GROUP, [g as U64]);
    AdmittedTwice(es, g);
    AdmittedAlone(ADMIN, g);
    AdmittedAlone(extra, g);
    if HasGroupEntry(es) {
      assert AdmitList(es, g) == [ADMIN] + a;
      AdmittedCons(ADMIN, a, g);
      HasGroupCons(ADMIN, a);
      assert [ADMIN] + a + [] == [ADMIN] + a;
    } else {
      AdmittedCons(ADMIN, a, g);
      AdmittedSnoc([ADMIN] + a, extra, g);
      GroupEntrySplit([ADMIN] + a, extra);
      assert [ADMIN] + (a + [extra]) + [] == [ADMIN] + a + [extra];
    }
  }

  /** Of two adds that succeed the second changes nothing, exactly when it could read the key map (or
      that map holds this group alone, under the shared keyset) and meets the endpoint where the group
      already is. */
  lemma AddTwiceIff(net: Network, env: Env, again: Env, node: U64, g: U16)
    requires node in net && AddAnswers(env) && AddAnswers(again) && OwnLists(env) && OwnLists(again)
    ensures var once := ApplyAll(net, AddGroupMember(net, env, node, g).steps);
      node in once
      && (ApplyAll(once, AddGroupMember(once, again, node, g).steps) == once <==>
          (MapWasRead(again) || ReadKeyMap(once[node].keyMap) == [KeyMapEntry(g, APP_KEYSET)])
          && (AppEp(again, node), g) in once[node].groups)
  {
    hide ReadKeyMap, WriteKeyMap, WithMapping, ReadAcl, WriteAcl, AdmitList, AppEp, ApplyAll, AddGroupMember;
    hide MapWasRead, AddAnswers;
    var d := net[node];
    var once := ApplyAll(net, AddGroupMember(net, env, node, g).steps);
    AddSucceedsIff(net, env, node, g);
    AddEffect(net, env, node, g);
    AddSucceedsIff(once, again, node, g);
    AddEffect(once, again, node, g);
    var es, ks := ReadAcl(d.acl), WithMapping(KnownMap(net, env, node), g, APP_KEYSET);
    ListsTwice(es, KnownMap(net, env, node), g);
    AclReadsBack(AdmitList(es, g));
    KeyMapReadsBack(ks);
    KeyMapReadsBack([KeyMapEntry(g, APP_KEYSET)]);
    MappedAlone(g);
    var twice := ApplyAll(once, AddGroupMember(once, again, node, g).steps);
    assert twice == once[node := twice[node]];
    assert twice == once <==> twice[node] == once[node];
  }

  lemma MappedAlone(g: U16)
    ensures WithMapping([], g, APP_KEYSET) == [KeyMapEntry(g, APP_KEYSET)]
  {
  }

  lemma HasGroupCons(e: AclEntry, es: seq<AclEntry>)
    requires HasGroupEntry(es)
    ensures HasGroupEntry([e] + es)
  {
    var i :| 0 <= i < |es| && IsGroupEntry(es[i]);
    assert ([e] + es)[i + 1] == es[i];
  }

  // ---- Bindings -------------------------------------------------------------------------------------

  lemma {:induction false} AddDistinct(s: seq<U64>)
    requires NoDuplicates(s)
    ensures AddAllOnce([], s) == s
  {
    if s != [] {
      var n := |s| - 1;
      AddDistinct(s[..n]);
      assert s == s[..n] + [s[n]];
    }
  }

  /** A granted list reads back as its subjects, in order. */
  lemma GrantReadsBack(subjects: seq<U64>)
    requires NoDuplicates(subjects)
    ensures OperateSubjects(WriteAcl(GrantList(subjects))) == subjects
  {
    hide AddAllOnce;
    var rs := WriteAcl(GrantList(subjects));
    AddDistinct(subjects);
    OperateOfOne(rs[..1]);
    if subjects == [] {
      assert rs == rs[..1];
    } else {
      assert ReadEntry(rs[1]) == AclEntry(OPERATE, AUTH_CASE, subjects);
    }
  }

  lemma OperateOfOne(rs: seq<AclRaw>)
    requires |rs| == 1 && !IsOperate(ReadEntry(rs[0]))
    ensures OperateSubjects(rs) == []
  {
    assert rs[..0] == [];
  }

  lemma {:induction false} DropKeepsDistinct(s: seq<U64>, x: U64)
    requires NoDuplicates(s)
    ensures NoDuplicates(Drop(s, x))
  {
    if s != [] {
      var n := |s| - 1;
      DropKeepsDistinct(s[..n], x);
      assert s[n] !in s[..n];
      assert s[n] !in Drop(s[..n], x);
    }
  }

  lemma DropGranted(s: seq<U64>, x: U64)
    ensures Drop(AddOnce(s, x), x) == Drop(s, x)
  {
    DropAdded(s, x);
  }

  /** The light's list is the Administer entry and at most one Operate entry, non-empty and free of
      repetitions, that does not name the switch. */
  ghost predicate ControllerForm(acl: seq<AclRaw>, sw: U64) {
    exists s: seq<U64> :: NoDuplicates(s) && sw !in s && acl == WriteAcl(GrantList(s))
  }

  lemma GrantRestoredIff(acl: seq<AclRaw>, sw: U64)
    ensures var given := WriteAcl(GrantList(AddOnce(OperateSubjects(acl), sw)));
      acl == WriteAcl(GrantList(Drop(OperateSubjects(given), sw))) <==> ControllerForm(acl, sw)
  {
    hide WriteAcl, GrantList, OperateSubjects, Drop, AddOnce;
    var subjects := OperateSubjects(acl);
    GrantReadsBack(AddOnce(subjects, sw));
    DropGranted(subjects, sw);
    DropKeepsDistinct(subjects, sw);
    GrantReadsBack(Drop(subjects, sw));
    if ControllerForm(acl, sw) {
      var s: seq<U64> :| NoDuplicates(s) && sw !in s && acl == WriteAcl(GrantList(s));
      GrantReadsBack(s);
    }
  }

  function Normals(ts: seq<Target>): (r: seq<Target>)
    ensures |r| == |ts| && forall i :: 0 <= i < |ts| ==> r[i] == Normal(ts[i])
  {
    if ts == [] then [] else Normals(ts[..|ts| - 1]) + [Normal(ts[|ts| - 1])]
  }

  lemma {:induction false} TargetsReadBack(ts: seq<Target>)
    ensures ReadTargets(WriteTargets(ts)) == Normals(ts)
  {
    if ts != [] {
      var n := |ts| - 1;
      TargetsReadBack(ts[..n]);
      assert WriteTargets(ts)[..n] == WriteTargets(ts[..n]);
    }
  }

  lemma NormalTwice(ts: seq<Target>)
    ensures Normals(Normals(ts)) == Normals(ts) && WriteTargets(Normals(ts)) == WriteTargets(ts)
  {
  }

  /** The list holds only entries in the form the controller prints. */
  predicate Printed(bindings: seq<BindingRaw>) {
    bindings == WriteTargets(ReadTargets(bindings))
  }

  predicate NoneMatch(ts: seq<Target>, light: U64, ep: U16) {
    forall i :: 0 <= i < |ts| ==> !Matches(ts[i], light, ep)
  }

  /** create_binding's list, written, read again and stripped by delete_binding. */
  function BoundAndUnbound(bindings: seq<BindingRaw>, light: U64, ep: U16): seq<BindingRaw> {
    WriteTargets(WithoutTarget(ReadTargets(WriteTargets(WithTarget(ReadTargets(bindings), light, ep))), light, ep))
  }

  lemma {:induction false} WithoutNoneMatch(ts: seq<Target>, light: U64, ep: U16)
    ensures NoneMatch(WithoutTarget(ts, light, ep), light, ep)
  {
    forall i | 0 <= i < |WithoutTarget(ts, light, ep)| ensures !Matches(WithoutTarget(ts, light, ep)[i], light, ep) {
      assert WithoutTarget(ts, light, ep)[i] in WithoutTarget(ts, light, ep);
    }
  }

  lemma {:induction false} WithoutNothing(ts: seq<Target>, light: U64, ep: U16)
    requires forall u :: u in ts ==> !Matches(u, light, ep)
    ensures WithoutTarget(ts, light, ep) == ts
  {
    if ts != [] {
      var n := |ts| - 1;
      WithoutNothing(ts[..n], light, ep);
      assert ts == ts[..n] + [ts[n]];
    }
  }

  lemma WithoutSnoc(ts: seq<Target>, t: Target, light: U64, ep: U16)
    ensures WithoutTarget(ts + [t], light, ep)
            == WithoutTarget(ts, light, ep) + if Matches(t, light, ep) then [] else [t]
  {
    assert (ts + [t])[..|ts|] == ts;
  }

  lemma BindingsRestoredIff(bindings: seq<BindingRaw>, light: U64, ep: U16)
    ensures bindings == BoundAndUnbound(bindings, light, ep)
            <==> Printed(bindings) && NoneMatch(ReadTargets(bindings), light, ep)
  {
    hide ReadTargets, WriteTargets, WithoutTarget, Normals;
    var ts := ReadTargets(bindings);
    var added := WithTarget(ts, light, ep);
    var left := WithoutTarget(Normals(added), light, ep);
    TargetsReadBack(added);
    if bindings == WriteTargets(left) {
      NormalsWithout(added, light, ep);
      TargetsReadBack(left);
      WithoutNoneMatch(Normals(added), light, ep);
    }
    if Printed(bindings) && NoneMatch(ts, light, ep) {
      var t := Target(light, ep, ONOFF, 0, false);
      TargetsReadBack(ts);
      assert added == ts + [t];
      NormalsSnoc(ts, t);
      WithoutSnoc(ts, t, light, ep);
      assert forall u :: u in ts ==> !Matches(u, light, ep);
      WithoutNothing(ts, light, ep);
      assert WithoutTarget(ts, light, ep) + [] == ts;
    }
  }

  lemma NormalsSnoc(ts: seq<Target>, t: Target)
    ensures Normals(ts + [t]) == Normals(ts) + [Normal(t)]
  {
    assert (ts + [t])[..|ts|] == ts;
  }

  /** What is left of a normal list is normal. */
  lemma {:induction false} NormalsWithout(ts: seq<Target>, light: U64, ep: U16)
    ensures Normals(WithoutTarget(Normals(ts), light, ep)) == WithoutTarget(Normals(ts), light, ep)
  {
    var left := WithoutTarget(Normals(ts), light, ep);
    forall i | 0 <= i < |left| ensures Normal(left[i]) == left[i] {
      assert left[i] in left && left[i] in Normals(ts);
    }
  }

  /** A successful create_binding followed by a delete_binding whose reads and writes succeed leaves
      the whole network as it was exactly when the light's ACL and the switch's list are in the
      controller's own form, the first without the switch and the second without a match. */
  lemma DeleteUndoesCreateIff(net: Network, env: Env, back: Env, sw: U64, swEp: U16, light: U64, lightEp: U16)
    requires SwitchEp(env, sw, swEp).Some? && OnOffEp(env, light, lightEp).Some? && back.table == env.table
    requires light in net && HasBindings(net, sw, SwitchEp(env, sw, swEp).value) && AllOk(env, 4) && AllOk(back, 4)
    requires OwnLists(env) && OwnLists(back)
    ensures var mid := ApplyAll(net, CreateBinding(net, env, sw, swEp, light, lightEp).steps);
      var bindings := net[sw].bindings[SwitchEp(env, sw, swEp).value];
      ApplyAll(mid, DeleteBinding(mid, back, sw, swEp, light, lightEp).steps) == net <==>
        ControllerForm(net[light].acl, sw) && Printed(bindings)
        && NoneMatch(ReadTargets(bindings), light, OnOffEp(env, light, lightEp).value)
  {
    hide ReadTargets, WriteTargets, WriteAcl, GrantList, OperateSubjects, WithTarget, WithoutTarget, AddOnce, Drop;
    hide ApplyAll, CreateBinding, DeleteBinding, ControllerForm, Printed, NoneMatch;
    var mid := ApplyAll(net, CreateBinding(net, env, sw, swEp, light, lightEp).steps);
    CreateGoesThroughIff(net, env, sw, swEp, light, lightEp);
    CreateEffect(net, env, sw, swEp, light, lightEp);
    DeleteGoesThroughIff(mid, back, sw, swEp, light, lightEp);
    DeleteEffect(mid, back, sw, swEp, light, lightEp);
    var from, to := SwitchEp(env, sw, swEp).value, OnOffEp(env, light, lightEp).value;
    GrantRestoredIff(net[light].acl, sw);
    BindingsRestoredIff(net[sw].bindings[from], light, to);
    var given := WriteAcl(GrantList(AddOnce(OperateSubjects(net[light].acl), sw)));
    var taken := WriteAcl(GrantList(Drop(OperateSubjects(given), sw)));
    TwoWrites(net, sw, from, light, given, mid[sw].bindings[from],
              BoundAndUnbound(net[sw].bindings[from], light, to), taken);
  }

  /** Writing a grant and a list, then another list and another grant. */
  lemma TwoWrites(net: Network, sw: U64, ep: U16, light: U64, a: seq<AclRaw>, b: seq<BindingRaw>,
                  c: seq<BindingRaw>, d: seq<AclRaw>)
    requires light in net && HasBindings(net, sw, ep)
    ensures var mid := Apply(Apply(net, PutAcl(light, a)), PutBindings(sw, ep, b));
      var end := Apply(Apply(mid, PutBindings(sw, ep, c)), PutAcl(light, d));
      mid[light].acl == a && mid[sw].bindings[ep] == b
      && (end == net <==> d == net[light].acl && c == net[sw].bindings[ep])
  {
    var mid := Apply(Apply(net, PutAcl(light, a)), PutBindings(sw, ep, b));
    var end := Apply(Apply(mid, PutBindings(sw, ep, c)), PutAcl(light, d));
    assert end[light].acl == d && end[sw].bindings == net[sw].bindings[ep := c];
    if d == net[light].acl && c == net[sw].bindings[ep] {
      assert net[sw].bindings[ep := c] == net[sw].bindings;
      forall n | n in net ensures end[n] == net[n] { }
    }
  }

  // ---- Binding twice ---------------------------------------------------------------------------------

  /** A group target that happens to carry the light's node and endpoint passes for the binding. */
  ghost predicate Mistaken(ts: seq<Target>, light: U64, ep: U16) {
    (exists i :: 0 <= i < |ts| && Aims(ts[i], light, ep))
    && forall i :: 0 <= i < |ts| && Aims(ts[i], light, ep) ==> ts[i].isGroup
  }

  lemma ListBindsIff(ts: seq<Target>, light: U64, ep: U16)
    ensures Target(light, ep, ONOFF, 0, false) in ReadTargets(WriteTargets(WithTarget(ts, light, ep)))
            <==> !Mistaken(ts, light, ep)
  {
    hide ReadTargets, WriteTargets;
    var t, list := Target(light, ep, ONOFF, 0, false), WithTarget(ts, light, ep);
    WrittenTargets(list, t);
    if i :| 0 <= i < |ts| && Aims(ts[i], light, ep) && !ts[i].isGroup {
      assert ts[i] in list && Normal(ts[i]) == t;
    } else if !(exists i :: 0 <= i < |ts| && Aims(ts[i], light, ep)) {
      assert list[|ts|] == t && Normal(t) == t;
    }
  }

  /** A successful create_binding binds the switch to the light exactly when it was not misled by such a
      group target. */
  lemma CreateBindsIff(net: Network, env: Env, sw: U64, swEp: U16, light: U64, lightEp: U16)
    requires SwitchEp(env, sw, swEp).Some? && OnOffEp(env, light, lightEp).Some?
    requires light in net && HasBindings(net, sw, SwitchEp(env, sw, swEp).value) && AllOk(env, 4) && OwnLists(env)
    ensures var from, to := SwitchEp(env, sw, swEp).value, OnOffEp(env, light, lightEp).value;
      var after := ApplyAll(net, CreateBinding(net, env, sw, swEp, light, lightEp).steps);
      Authorisation.Bound(after, sw, from, Target(light, to, ONOFF, 0, false)) <==>
        !Mistaken(ReadTargets(net[sw].bindings[from]), light, to)
  {
    hide ReadTargets, WriteTargets, WriteAcl, GrantList, OperateSubjects, WithTarget, AddOnce, SwitchEp, OnOffEp;
    hide ApplyAll, CreateBinding, Mistaken;
    var from, to := SwitchEp(env, sw, swEp).value, OnOffEp(env, light, lightEp).value;
    CreateGoesThroughIff(net, env, sw, swEp, light, lightEp);
    CreateEffect(net, env, sw, swEp, light, lightEp);
    ListBindsIff(ReadTargets(net[sw].bindings[from]), light, to);
  }

  ghost predicate SomeAims(ts: seq<Target>, light: U64, ep: U16) {
    exists i :: 0 <= i < |ts| && Aims(ts[i], light, ep)
  }

  /** After the first call the list, read back, has a match unless that call was misled. */
  lemma StillAimsIff(ts: seq<Target>, light: U64, ep: U16)
    ensures SomeAims(Normals(WithTarget(ts, light, ep)), light, ep)
            <==> !Mistaken(ts, light, ep) || (light == 0 && ep == 0)
  {
    var t, once := Target(light, ep, ONOFF, 0, false), WithTarget(ts, light, ep);
    var again := Normals(once);
    if SomeAims(ts, light, ep) {
      var i :| 0 <= i < |ts| && Aims(ts[i], light, ep) && (Mistaken(ts, light, ep) || !ts[i].isGroup);
      assert again[i] == Normal(ts[i]);
    } else {
      assert again[|ts|] == Normal(t) == t;
    }
  }

  lemma TargetTwice(ts: seq<Target>, light: U64, ep: U16)
    ensures var list := WriteTargets(WithTarget(ts, light, ep));
      WriteTargets(WithTarget(ReadTargets(list), light, ep)) == list
      <==> !Mistaken(ts, light, ep) || (light == 0 && ep == 0)
  {
    hide ReadTargets, WriteTargets, Normals, Mistaken;
    var once := WithTarget(ts, light, ep);
    StillAimsIff(ts, light, ep);
    TargetsReadBack(once);
    NormalTwice(once);
    WriteLength(Normals(once) + [Target(light, ep, ONOFF, 0, false)], once);
  }

  /** Repeating a create_binding that succeeded changes nothing, except after being misled (where the
      light is node 0, endpoint 0, the group target goes on passing for it). */
  lemma CreateTwiceIff(net: Network, env: Env, again: Env, sw: U64, swEp: U16, light: U64, lightEp: U16)
    requires SwitchEp(env, sw, swEp).Some? && OnOffEp(env, light, lightEp).Some? && again.table == env.table
    requires light in net && HasBindings(net, sw, SwitchEp(env, sw, swEp).value) && AllOk(env, 4) && AllOk(again, 4)
    requires OwnLists(env) && OwnLists(again)
    ensures var from, to := SwitchEp(env, sw, swEp).value, OnOffEp(env, light, lightEp).value;
      var once := ApplyAll(net, CreateBinding(net, env, sw, swEp, light, lightEp).steps);
      ApplyAll(once, CreateBinding(once, again, sw, swEp, light, lightEp).steps) == once <==>
        !Mistaken(ReadTargets(net[sw].bindings[from]), light, to) || (light == 0 && to == 0)
  {
    hide ReadTargets, WriteTargets, WriteAcl, GrantList, OperateSubjects, WithTarget, AddOnce;
    hide ApplyAll, CreateBinding, Mistaken;
    var from, to := SwitchEp(env, sw, swEp).value, OnOffEp(env, light, lightEp).value;
    var once := ApplyAll(net, CreateBinding(net, env, sw, swEp, light, lightEp).steps);
    CreateGoesThroughIff(net, env, sw, swEp, light, lightEp);
    CreateEffect(net, env, sw, swEp, light, lightEp);
    CreateGoesThroughIff(once, again, sw, swEp, light, lightEp);
    CreateEffect(once, again, sw, swEp, light, lightEp);
    GrantTwice(net[light].acl, sw);
    TargetTwice(ReadTargets(net[sw].bindings[from]), light, to);
    var given := WriteAcl(GrantList(AddOnce(OperateSubjects(net[light].acl), sw)));
    var list := WriteTargets(WithTarget(ReadTargets(net[sw].bindings[from]), light, to));
    Rewrite(net, sw, from, light, given, list, WriteTargets(WithTarget(ReadTargets(list), light, to)));
  }

  /** Writing a grant and a list, then the same grant and another list. */
  lemma Rewrite(net: Network, sw: U64, ep: U16, light: U64, a: seq<AclRaw>, b: seq<BindingRaw>, c: seq<BindingRaw>)
    requires light in net && HasBindings(net, sw, ep)
    ensures var once := Apply(Apply(net, PutAcl(light, a)), PutBindings(sw, ep, b));
      once[light].acl == a && once[sw].bindings[ep] == b
      && (Apply(Apply(once, PutAcl(light, a)), PutBindings(sw, ep, c)) == once <==> b == c)
  {
    var once := Apply(Apply(net, PutAcl(light, a)), PutBindings(sw, ep, b));
    assert Apply(once, PutAcl(light, a)) == once;
    var twice := Apply(once, PutBindings(sw, ep, c));
    assert twice[sw].bindings[ep] == c;
    if b == c { assert once[sw].bindings[ep := c] == once[sw].bindings; }
  }

  lemma GrantTwice(acl: seq<AclRaw>, sw: U64)
    ensures var given := WriteAcl(GrantList(AddOnce(OperateSubjects(acl), sw)));
      WriteAcl(GrantList(AddOnce(OperateSubjects(given), sw))) == given
  {
    hide WriteAcl, OperateSubjects, GrantList;
    GrantReadsBack(AddOnce(OperateSubjects(acl), sw));
  }

  lemma WriteLength(a: seq<Target>, b: seq<Target>)
    requires |a| != |b|
    ensures WriteTargets(a) != WriteTargets(b)
  {
  }

  /** A group target reported with node 2 and endpoint 1 keeps create_binding from binding that light. */
  lemma CreateCanBeMistaken(net: Network, env: Env)
    requires net == map[
      1 := Device([], map[1 := [BindingRaw(Some(2), Some(5), Some(1), Some(ONOFF))]], [], {}, {}),
      2 := Device([], map[], [], {}, {})]
    requires env == Env([Ok, Ok, Ok, Ok], [], true, map[])
    ensures CreateBinding(net, env, 1, 1, 2, 1).err == Ok
    ensures var after := ApplyAll(net, CreateBinding(net, env, 1, 1, 2, 1).steps);
      !Authorisation.Bound(after, 1, 1, Target(2, 1, ONOFF, 0, false))
  {
    hide ApplyAll, CreateBinding;
    var list := net[1].bindings[1];
    var t := Target(2, 1, ONOFF, 5, true);
    assert list[..0] == [] && ReadTarget(list[0]) == Some(t);
    assert ReadTargets(list) == [t];
    assert [t][0] == t && Mistaken([t], 2, 1);
    CreateGoesThroughIff(net, env, 1, 1, 2, 1);
    CreateBindsIff(net, env, 1, 1, 2, 1);
  }
}

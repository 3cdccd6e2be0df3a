/** The new lists the calls write, against the reports they are made from: entry by entry, in the numbers of
    the Matter clusters. */
module DeviceLists {
  import opened CTypes
  import opened Fabric
  import opened Calls
  import Membership

  // ---- Lists, as devices hold them ----------------------------------------------------------------------

  /** Privilege Administer (5), auth mode CASE (2), for the controller. */
  const ADMIN_RAW := AclRaw(Some(5), Some(2), Some([112233]))

  /** x may Operate (3) over CASE (2). */
  ghost predicate Operates(rs: seq<AclRaw>, x: U64) {
    exists i :: 0 <= i < |rs| && rs[i].privilege == Some(3) && rs[i].authMode == Some(2)
      && rs[i].subjects.Some? && x in rs[i].subjects.value
  }

  lemma OperatesIff(rs: seq<AclRaw>, x: U64)
    ensures x in OperateSubjects(rs) <==> Operates(rs, x)
  {
    assert forall i :: 0 <= i < |rs| ==>
      (IsOperate(ReadEntry(rs[i])) && x in ReadEntry(rs[i]).subjects <==>
        rs[i].privilege == Some(3) && rs[i].authMode == Some(2) && rs[i].subjects.Some? && x in rs[i].subjects.value);
  }

  /** The controller's entry first, and one Operate/CASE entry if there is anyone to name. */
  predicate GrantsOnly(rs: seq<AclRaw>, subjects: seq<U64>) {
    rs == [ADMIN_RAW] + if subjects == [] then [] else [AclRaw(Some(3), Some(2), Some(subjects))]
  }

  lemma GrantWritten(subjects: seq<U64>)
    ensures GrantsOnly(WriteAcl(GrantList(subjects)), subjects)
  {
    assert WriteAcl([ADMIN])[0] == ADMIN_RAW;
    if subjects != [] { assert WriteAcl(GrantList(subjects))[1] == AclRaw(Some(3), Some(2), Some(subjects)); }
  }

  /** b is how report r is written back: a group target with group and cluster, another with node, endpoint
      and cluster; a report with neither group nor both endpoint and cluster is not. */
  ghost predicate Reprints(r: BindingRaw, b: BindingRaw) {
    if r.group.Some? then b == BindingRaw(None, r.group, None, Some(r.cluster.GetOr(0)))
    else r.endpoint.Some? && r.cluster.Some? && b == BindingRaw(Some(r.node.GetOr(0)), None, r.endpoint, r.cluster)
  }

  ghost predicate IsKept(r: BindingRaw) {
    r.group.Some? || (r.endpoint.Some? && r.cluster.Some?)
  }

  predicate IsGroupOnOff(r: BindingRaw, g: U16) {
    r.group == Some(g) && r.cluster == Some(6)
  }

  /** An OnOff target of the light, on any endpoint if ep is 0. */
  predicate IsLightOnOff(r: BindingRaw, light: U64, ep: U16) {
    r.node.GetOr(0) == light && r.cluster == Some(6) && (ep == 0 || r.endpoint.GetOr(0) == ep)
  }

  lemma ReportRead(r: BindingRaw)
    ensures ReadTarget(r).Some? <==> IsKept(r)
    ensures IsKept(r) ==> var t := ReadTarget(r).value;
      && Reprints(r, WriteTarget(t))
      && (forall g: U16 :: AimsGroup(t, g) <==> IsGroupOnOff(r, g))
      && (forall light: U64, ep: U16 :: Matches(t, light, ep) <==> IsLightOnOff(r, light, ep))
      && (forall light: U64, ep: U16 :: Aims(t, light, ep) <==>
            r.node.GetOr(0) == light && r.cluster == Some(6) && r.endpoint.GetOr(0) == ep)
  {
  }

  lemma InWritten(ts: seq<Target>, b: BindingRaw)
    ensures b in WriteTargets(ts) <==> exists t :: t in ts && WriteTarget(t) == b
  {
    if b in WriteTargets(ts) {
      var i :| 0 <= i < |ts| && WriteTargets(ts)[i] == b;
      assert ts[i] in ts;
    }
    if t :| t in ts && WriteTarget(t) == b {
      var i :| 0 <= i < |ts| && ts[i] == t;
      assert WriteTargets(ts)[i] == b;
    }
  }

  /** After the group's OnOff target is taken out of `rs`. */
  ghost predicate LosesGroup(rs: seq<BindingRaw>, g: U16, after: seq<BindingRaw>) {
    forall b :: b in after <==> exists r :: r in rs && Reprints(r, b) && !IsGroupOnOff(r, g)
  }

  /** After it is put in, unless it is there. */
  ghost predicate GainsGroup(rs: seq<BindingRaw>, g: U16, after: seq<BindingRaw>) {
    forall b :: b in after <==>
      (exists r :: r in rs && Reprints(r, b))
      || (b == BindingRaw(None, Some(g), None, Some(6)) && forall r :: r in rs ==> !IsGroupOnOff(r, g))
  }

  /** After the light's OnOff targets are taken out. */
  ghost predicate LosesLight(rs: seq<BindingRaw>, light: U64, ep: U16, after: seq<BindingRaw>) {
    forall b :: b in after <==> exists r :: r in rs && Reprints(r, b) && !IsLightOnOff(r, light, ep)
  }

  /** After one is put in, unless some target already names its node, endpoint and cluster. */
  ghost predicate GainsLight(rs: seq<BindingRaw>, light: U64, ep: U16, after: seq<BindingRaw>) {
    forall b :: b in after <==>
      (exists r :: r in rs && Reprints(r, b))
      || (b == BindingRaw(Some(light), None, Some(ep), Some(6))
          && forall r :: r in rs && IsKept(r) ==>
               !(r.node.GetOr(0) == light && r.cluster == Some(6) && r.endpoint.GetOr(0) == ep))
  }

  /** The targets read, one by one. */
  lemma ReadOneByOne(rs: seq<BindingRaw>)
    ensures forall t :: t in ReadTargets(rs) ==> exists r :: r in rs && ReadTarget(r) == Some(t)
    ensures forall r :: r in rs && IsKept(r) ==> ReadTarget(r).Some? && ReadTarget(r).value in ReadTargets(rs)
  {
    forall t | t in ReadTargets(rs) ensures exists r :: r in rs && ReadTarget(r) == Some(t) {
      var i :| 0 <= i < |rs| && ReadTarget(rs[i]) == Some(t);
      assert rs[i] in rs;
    }
    forall r | r in rs && IsKept(r) ensures ReadTarget(r).Some? && ReadTarget(r).value in ReadTargets(rs) {
      var i :| 0 <= i < |rs| && rs[i] == r;
    }
  }

  lemma ListLosesGroup(rs: seq<BindingRaw>, g: U16)
    ensures LosesGroup(rs, g, WriteTargets(WithoutGroupTarget(ReadTargets(rs), g)))
  {
    hide ReadTargets, WriteTargets, ReadTarget, WriteTarget, AimsGroup, IsGroupOnOff;
    var ts := WithoutGroupTarget(ReadTargets(rs), g);
    ReadOneByOne(rs);
    forall b ensures b in WriteTargets(ts) <==> exists r :: r in rs && Reprints(r, b) && !IsGroupOnOff(r, g) {
      InWritten(ts, b);
      if t :| t in ts && WriteTarget(t) == b {
        var r :| r in rs && ReadTarget(r) == Some(t);
        ReportRead(r);
      }
      if r :| r in rs && Reprints(r, b) && !IsGroupOnOff(r, g) {
        ReportRead(r);
        assert ReadTarget(r).value in ts && WriteTarget(ReadTarget(r).value) == b;
      }
    }
  }

  lemma ListLosesLight(rs: seq<BindingRaw>, light: U64, ep: U16)
    ensures LosesLight(rs, light, ep, WriteTargets(WithoutTarget(ReadTargets(rs), light, ep)))
  {
    hide ReadTargets, WriteTargets, ReadTarget, WriteTarget, Matches, IsLightOnOff;
    var ts := WithoutTarget(ReadTargets(rs), light, ep);
    ReadOneByOne(rs);
    forall b ensures b in WriteTargets(ts) <==> exists r :: r in rs && Reprints(r, b) && !IsLightOnOff(r, light, ep) {
      InWritten(ts, b);
      if t :| t in ts && WriteTarget(t) == b {
        var r :| r in rs && ReadTarget(r) == Some(t);
        ReportRead(r);
      }
      if r :| r in rs && Reprints(r, b) && !IsLightOnOff(r, light, ep) {
        ReportRead(r);
        assert ReadTarget(r).value in ts && WriteTarget(ReadTarget(r).value) == b;
      }
    }
  }

  /** Written as they were read, with at most one target more. */
  lemma WrittenWith(rs: seq<BindingRaw>, ts: seq<Target>, added: Target)
    requires ts == ReadTargets(rs) || ts == ReadTargets(rs) + [added]
    ensures forall b :: b in WriteTargets(ts) <==>
      (exists r :: r in rs && Reprints(r, b)) || (b == WriteTarget(added) && ts != ReadTargets(rs))
  {
    hide ReadTargets, WriteTargets, ReadTarget, WriteTarget;
    var own := ReadTargets(rs);
    ReadOneByOne(rs);
    assert forall t :: t in ts <==> t in own || (t == added && ts != own);
    forall b
      ensures b in WriteTargets(ts) <==>
        (exists r :: r in rs && Reprints(r, b)) || (b == WriteTarget(added) && ts != ReadTargets(rs))
    {
      InWritten(ts, b);
      if t :| t in own && WriteTarget(t) == b {
        var r :| r in rs && ReadTarget(r) == Some(t);
        ReportRead(r);
      }
      if r :| r in rs && Reprints(r, b) {
        ReportRead(r);
        assert ReadTarget(r).value in ts && WriteTarget(ReadTarget(r).value) == b;
      }
    }
  }

  lemma ListGainsGroup(rs: seq<BindingRaw>, g: U16)
    ensures GainsGroup(rs, g, WriteTargets(WithGroupTarget(ReadTargets(rs), g)))
  {
    hide ReadTargets, WriteTargets, ReadTarget, AimsGroup, IsGroupOnOff, Reprints;
    var own, ts, added := ReadTargets(rs), WithGroupTarget(ReadTargets(rs), g), Target(0, 0, ONOFF, g, true);
    WrittenWith(rs, ts, added);
    ReadOneByOne(rs);
    if i :| 0 <= i < |own| && AimsGroup(own[i], g) {
      assert own[i] in own;
      var r :| r in rs && ReadTarget(r) == Some(own[i]);
      ReportRead(r);
      assert IsGroupOnOff(r, g);
    } else {
      forall r | r in rs && IsKept(r) ensures !IsGroupOnOff(r, g) {
        ReportRead(r);
        var i :| 0 <= i < |own| && own[i] == ReadTarget(r).value;
      }
      forall r ensures IsGroupOnOff(r, g) ==> IsKept(r) {
        if IsGroupOnOff(r, g) { GroupIsKept(r, g); }
      }
    }
  }

  lemma GroupIsKept(r: BindingRaw, g: U16)
    requires IsGroupOnOff(r, g)
    ensures IsKept(r)
  {
  }

  lemma ListGainsLight(rs: seq<BindingRaw>, light: U64, ep: U16)
    ensures GainsLight(rs, light, ep, WriteTargets(WithTarget(ReadTargets(rs), light, ep)))
  {
    hide ReadTargets, WriteTargets, ReadTarget, Reprints, Aims;
    var own, ts, added := ReadTargets(rs), WithTarget(ReadTargets(rs), light, ep), Target(light, ep, ONOFF, 0, false);
    WrittenWith(rs, ts, added);
    ReadOneByOne(rs);
    if i :| 0 <= i < |own| && Aims(own[i], light, ep) {
      assert own[i] in own;
      var r :| r in rs && ReadTarget(r) == Some(own[i]);
      ReportRead(r);
    } else {
      forall r | r in rs && IsKept(r)
        ensures !(r.node.GetOr(0) == light && r.cluster == Some(6) && r.endpoint.GetOr(0) == ep)
      {
        ReportRead(r);
        var i :| 0 <= i < |own| && own[i] == ReadTarget(r).value;
      }
    }
  }

  /** a is b with some elements left out. */
  ghost predicate InOrder<T>(a: seq<T>, b: seq<T>) {
    a == []
    || (b != [] && if a[|a| - 1] == b[|b| - 1] then InOrder(a[..|a| - 1], b[..|b| - 1]) else InOrder(a, b[..|b| - 1]))
  }

  /** What the four loops keep stays in order. */
  lemma {:induction false} TargetsKeepOrder(ts: seq<Target>, light: U64, ep: U16)
    ensures InOrder(WithoutTarget(ts, light, ep), ts)
  {
    if ts != [] {
      var n := |ts| - 1;
      TargetsKeepOrder(ts[..n], light, ep);
      LastTargetKept(ts, light, ep);
      OneMoreInOrder(WithoutTarget(ts[..n], light, ep), WithoutTarget(ts, light, ep), ts, Matches(ts[n], light, ep));
    }
  }

  lemma OneMoreInOrder<T>(a: seq<T>, longer: seq<T>, b: seq<T>, left: bool)
    requires b != [] && InOrder(a, b[..|b| - 1]) && longer == a + if left then [] else [b[|b| - 1]]
    ensures InOrder(longer, b)
  {
    hide InOrder;
    InOrderStep(a, b[..|b| - 1], b[|b| - 1], left);
    assert b == b[..|b| - 1] + [b[|b| - 1]];
  }

  lemma LastTargetKept(ts: seq<Target>, light: U64, ep: U16)
    requires ts != []
    ensures var n := |ts| - 1;
      WithoutTarget(ts, light, ep)
      == WithoutTarget(ts[..n], light, ep) + if Matches(ts[n], light, ep) then [] else [ts[n]]
  {
  }

  lemma {:induction false} GroupTargetsKeepOrder(ts: seq<Target>, g: U16)
    ensures InOrder(WithoutGroupTarget(ts, g), ts)
  {
    if ts != [] {
      var n := |ts| - 1;
      GroupTargetsKeepOrder(ts[..n], g);
      OneMoreInOrder(WithoutGroupTarget(ts[..n], g), WithoutGroupTarget(ts, g), ts, AimsGroup(ts[n], g));
    }
  }

  lemma {:induction false} MappingsKeepOrder(es: seq<KeyMapEntry>, g: U16)
    ensures InOrder(WithoutMapping(es, g), es)
  {
    if es != [] {
      var n := |es| - 1;
      MappingsKeepOrder(es[..n], g);
      OneMoreInOrder(WithoutMapping(es[..n], g), WithoutMapping(es, g), es, es[n].group == g);
    }
  }

  lemma {:induction false} SubjectsKeepOrder(xs: seq<U64>, x: U64)
    ensures InOrder(Drop(xs, x), xs)
  {
    if xs != [] {
      var n := |xs| - 1;
      SubjectsKeepOrder(xs[..n], x);
      OneMoreInOrder(Drop(xs[..n], x), Drop(xs, x), xs, xs[n] == x);
    }
  }

  /** And what the other three add comes last. */
  lemma GainsComeLast(ts: seq<Target>, light: U64, ep: U16, es: seq<KeyMapEntry>, g: U16)
    ensures ts <= WithTarget(ts, light, ep) && ts <= WithGroupTarget(ts, g) && es <= WithMapping(es, g, APP_KEYSET)
  {
  }

  lemma {:induction false} InOrderSnoc<T>(a: seq<T>, b: seq<T>, t: T)
    requires InOrder(a, b)
    ensures InOrder(a + [t], b + [t]) && InOrder(a, b + [t])
  {
    assert (a + [t])[..|a|] == a && (b + [t])[..|b|] == b;
    if a != [] && a[|a| - 1] == t { InOrderInit(a, b); }
  }

  lemma InOrderStep<T>(a: seq<T>, b: seq<T>, t: T, left: bool)
    requires InOrder(a, b)
    ensures InOrder(a + (if left then [] else [t]), b + [t])
  {
    hide InOrder;
    InOrderSnoc(a, b, t);
    assert a + [] == a;
  }

  lemma {:induction false} InOrderInit<T>(a: seq<T>, b: seq<T>)
    requires a != [] && InOrder(a, b)
    ensures InOrder(a[..|a| - 1], b)
  {
    var n := |b| - 1;
    if a[|a| - 1] == b[n] {
      if |a| > 1 && a[|a| - 2] == b[n] {
        InOrderInit(a[..|a| - 1], b[..n]);
      }
    } else {
      InOrderInit(a, b[..n]);
      if |a| > 1 && a[|a| - 2] == b[n] { InOrderInit(a[..|a| - 1], b[..n]); }
    }
  }

  // ---- Key maps --------------------------------------------------------------------------------------------

  predicate IsWhole(m: KeyMapRaw) {
    m.group.Some? && m.keyset.Some?
  }

  /** The group is mapped to keyset 1 unless it is mapped already; incomplete entries go. */
  ghost predicate GainsMapping(rs: seq<KeyMapRaw>, g: U16, after: seq<KeyMapRaw>) {
    forall m :: m in after <==>
      (m in rs && IsWhole(m))
      || (m == KeyMapRaw(Some(g), Some(1)) && forall r :: r in rs && IsWhole(r) ==> r.group != Some(g))
  }

  /** The group's mappings go, and incomplete entries. */
  ghost predicate LosesMapping(rs: seq<KeyMapRaw>, g: U16, after: seq<KeyMapRaw>) {
    forall m :: m in after <==> m in rs && IsWhole(m) && m.group != Some(g)
  }

  lemma InKeyMap(rs: seq<KeyMapRaw>, e: KeyMapEntry)
    ensures e in ReadKeyMap(rs) <==> KeyMapRaw(Some(e.group), Some(e.keyset)) in rs
  {
    var m := KeyMapRaw(Some(e.group), Some(e.keyset));
    if m in rs {
      var i :| 0 <= i < |rs| && rs[i] == m;
      assert ReadKeyMapEntry(rs[i]) == Some(e);
    }
  }

  lemma InWrittenMap(es: seq<KeyMapEntry>, m: KeyMapRaw)
    ensures m in WriteKeyMap(es) <==> IsWhole(m) && KeyMapEntry(m.group.value, m.keyset.value) in es
  {
    if m in WriteKeyMap(es) {
      var i :| 0 <= i < |es| && WriteKeyMap(es)[i] == m;
      assert es[i] in es;
    }
    if IsWhole(m) && KeyMapEntry(m.group.value, m.keyset.value) in es {
      var i :| 0 <= i < |es| && es[i] == KeyMapEntry(m.group.value, m.keyset.value);
      assert WriteKeyMap(es)[i] == m;
    }
  }

  lemma MapGains(rs: seq<KeyMapRaw>, g: U16)
    ensures GainsMapping(rs, g, WriteKeyMap(WithMapping(ReadKeyMap(rs), g, APP_KEYSET)))
  {
    hide ReadKeyMap, WriteKeyMap, Maps;
    var own := ReadKeyMap(rs);
    var es := WithMapping(own, g, APP_KEYSET);
    forall e ensures e in own <==> KeyMapRaw(Some(e.group), Some(e.keyset)) in rs { InKeyMap(rs, e); }
    assert forall e :: e in es <==> e in own || (e == KeyMapEntry(g, APP_KEYSET) && !Maps(own, g));
    Membership.MapsByEntry(own, g);
    assert Maps(own, g) <==> exists r :: r in rs && IsWhole(r) && r.group == Some(g) by {
      if r :| r in rs && IsWhole(r) && r.group == Some(g) { assert KeyMapEntry(g, r.keyset.value) in own; }
    }
    forall m ensures m in WriteKeyMap(es) <==> IsWhole(m) && KeyMapEntry(m.group.value, m.keyset.value) in es {
      InWrittenMap(es, m);
    }
  }

  lemma MapLoses(rs: seq<KeyMapRaw>, g: U16)
    ensures LosesMapping(rs, g, WriteKeyMap(WithoutMapping(ReadKeyMap(rs), g)))
  {
    hide ReadKeyMap, WriteKeyMap;
    var es := WithoutMapping(ReadKeyMap(rs), g);
    forall m ensures m in WriteKeyMap(es) <==> m in rs && IsWhole(m) && m.group != Some(g) {
      InWrittenMap(es, m);
      if IsWhole(m) { InKeyMap(rs, KeyMapEntry(m.group.value, m.keyset.value)); }
    }
  }

  // ---- ACLs of group members ---------------------------------------------------------------------------------

  /** Administer (5) over CASE (2). */
  predicate IsAdminRaw(r: AclRaw) {
    r.privilege == Some(5) && r.authMode == Some(2)
  }

  /** Operate (3) over Group (3). */
  predicate IsGroupRaw(r: AclRaw) {
    r.privilege == Some(3) && r.authMode == Some(3)
  }

  /** A reported entry with its missing fields filled in. */
  function Filled(r: AclRaw): AclRaw {
    AclRaw(Some(r.privilege.GetOr(0)), Some(r.authMode.GetOr(0)), Some(r.subjects.GetOr([])))
  }

  /** r goes into the new list with the group among its subjects, if it is a group entry. */
  ghost predicate Admits(r: AclRaw, g: U16, e: AclRaw) {
    var f := Filled(r);
    if IsAdminRaw(r) then false
    else if !IsGroupRaw(r) then e == f
    else
      var xs := f.subjects.value;
      e == f.(subjects := Some(if (g as U64) in xs then xs else xs + [g as U64]))
  }

  /** The controller's entry, every other but Administer ones, and the group in every group entry, or in a
      new one if there is none. */
  ghost predicate GainsMember(rs: seq<AclRaw>, g: U16, after: seq<AclRaw>) {
    after != [] && after[0] == ADMIN_RAW
    && forall e :: e in after <==>
      e == ADMIN_RAW || (exists r :: r in rs && Admits(r, g, e))
      || (e == AclRaw(Some(3), Some(3), Some([g as U64])) && forall r :: r in rs ==> !IsGroupRaw(r))
  }

  lemma {:induction false} InAdmitted(es: seq<AclEntry>, g: U16, e: AclEntry)
    ensures e in Admitted(es, g) <==>
      exists d :: d in es && !IsAdmin(d)
        && e == if IsGroupEntry(d) then d.(subjects := AddOnce(d.subjects, g as U64)) else d
  {
    if es != [] {
      var n := |es| - 1;
      InAdmitted(es[..n], g, e);
      assert forall d :: d in es <==> d in es[..n] || d == es[n];
    }
  }

  lemma EntryRead(rs: seq<AclRaw>, d: AclEntry)
    ensures d in ReadAcl(rs) <==> exists r :: r in rs && ReadEntry(r) == d
  {
    var es := ReadAcl(rs);
    if d in es {
      var i :| 0 <= i < |es| && es[i] == d;
      assert rs[i] in rs;
    }
    if r :| r in rs && ReadEntry(r) == d {
      var i :| 0 <= i < |rs| && rs[i] == r;
      assert es[i] == d;
    }
  }

  lemma EntryWritten(es: seq<AclEntry>, e: AclRaw)
    ensures e in WriteAcl(es) <==> exists d :: d in es && WriteEntry(d) == e
  {
    if e in WriteAcl(es) {
      var i :| 0 <= i < |es| && WriteAcl(es)[i] == e;
      assert es[i] in es;
    }
    if d :| d in es && WriteEntry(d) == e {
      var i :| 0 <= i < |es| && es[i] == d;
      assert WriteAcl(es)[i] == e;
    }
  }

  /** What the two kinds of entry are in terms of the report. */
  lemma EntryKinds(r: AclRaw)
    ensures var d := ReadEntry(r);
      (IsAdmin(d) <==> IsAdminRaw(r)) && (IsGroupEntry(d) <==> IsGroupRaw(r)) && WriteEntry(d) == Filled(r)
  {
  }

  lemma AclGains(rs: seq<AclRaw>, g: U16)
    ensures GainsMember(rs, g, WriteAcl(AdmitList(ReadAcl(rs), g)))
  {
    hide ReadAcl, WriteAcl, Admitted, HasGroupEntry, ReadEntry, WriteEntry;
    var es := ReadAcl(rs);
    var list, extra := AdmitList(es, g), AclEntry(OPERATE, AUTH_GROUP, [g as U64]);
    assert WriteAcl(list)[0] == WriteEntry(ADMIN) == ADMIN_RAW by { AdminWritten(g); }
    assert HasGroupEntry(es) <==> exists r :: r in rs && IsGroupRaw(r) by { GroupEntryReported(rs); }
    forall e ensures e in WriteAcl(list) <==>
      e == ADMIN_RAW || (exists r :: r in rs && Admits(r, g, e))
      || (e == AclRaw(Some(3), Some(3), Some([g as U64])) && forall r :: r in rs ==> !IsGroupRaw(r))
    {
      EntryWritten(list, e);
      assert forall d :: d in list <==> d == ADMIN || d in Admitted(es, g) || (d == extra && !HasGroupEntry(es));
      AdminWritten(g);
      InAdmittedWritten(rs, g, e);
    }
  }

  lemma AdminWritten(g: U16)
    ensures WriteEntry(ADMIN) == ADMIN_RAW
    ensures WriteEntry(AclEntry(OPERATE, AUTH_GROUP, [g as U64])) == AclRaw(Some(3), Some(3), Some([g as U64]))
  {
  }

  lemma GroupEntryReported(rs: seq<AclRaw>)
    ensures HasGroupEntry(ReadAcl(rs)) <==> exists r :: r in rs && IsGroupRaw(r)
  {
    var es := ReadAcl(rs);
    if i :| 0 <= i < |es| && IsGroupEntry(es[i]) {
      EntryKinds(rs[i]);
      assert rs[i] in rs;
    }
    if r :| r in rs && IsGroupRaw(r) {
      var i :| 0 <= i < |rs| && rs[i] == r;
      EntryKinds(r);
      assert IsGroupEntry(es[i]);
    }
  }

  lemma InAdmittedWritten(rs: seq<AclRaw>, g: U16, e: AclRaw)
    ensures (exists d :: d in Admitted(ReadAcl(rs), g) && WriteEntry(d) == e)
            <==> exists r :: r in rs && Admits(r, g, e)
  {
    hide ReadAcl, Admitted;
    if d :| d in Admitted(ReadAcl(rs), g) && WriteEntry(d) == e {
      InAdmitted(ReadAcl(rs), g, d);
      var o :| o in ReadAcl(rs) && !IsAdmin(o)
        && d == if IsGroupEntry(o) then o.(subjects := AddOnce(o.subjects, g as U64)) else o;
      EntryRead(rs, o);
      var r :| r in rs && ReadEntry(r) == o;
      EntryKinds(r);
      assert Admits(r, g, e);
    }
    if r :| r in rs && Admits(r, g, e) {
      var o := ReadEntry(r);
      EntryRead(rs, o);
      EntryKinds(r);
      var d := if IsGroupEntry(o) then o.(subjects := AddOnce(o.subjects, g as U64)) else o;
      InAdmitted(ReadAcl(rs), g, d);
      assert WriteEntry(d) == e;
    }
  }

  /** r stays in the list without the group: an entry with a privilege and an auth mode, not Administer, and
      if a group entry with the other subjects, of which there must be some. */
  ghost predicate Expels(r: AclRaw, g: U16, e: AclRaw) {
    var f := Filled(r);
    f.privilege != Some(0) && f.authMode != Some(0) && !IsAdminRaw(r)
    && e.privilege == f.privilege && e.authMode == f.authMode && e.subjects.Some?
    && if !IsGroupRaw(r) then e.subjects == f.subjects
       else e.subjects.value != [] && (forall x :: x in e.subjects.value <==> x in f.subjects.value && x != g as U64)
  }

  /** The controller's entry, and what stays of every other. */
  ghost predicate LosesMember(rs: seq<AclRaw>, g: U16, after: seq<AclRaw>) {
    after != [] && after[0] == ADMIN_RAW
    && (forall e :: e in after ==> e == ADMIN_RAW || exists r :: r in rs && Expels(r, g, e))
    && (forall r, e :: r in rs && Expels(r, g, e) ==> exists e' :: e' in after && Expels(r, g, e'))
  }

  lemma {:induction false} InExpelled(es: seq<AclEntry>, g: U16, e: AclEntry)
    ensures e in Expelled(es, g) <==>
      exists d :: d in es && d.privilege != 0 && d.authMode != 0 && !IsAdmin(d)
        && if IsGroupEntry(d) then Drop(d.subjects, g as U64) != [] && e == d.(subjects := Drop(d.subjects, g as U64))
           else e == d
  {
    if es != [] {
      var n := |es| - 1;
      InExpelled(es[..n], g, e);
      assert forall d :: d in es <==> d in es[..n] || d == es[n];
    }
  }

  lemma AclLoses(rs: seq<AclRaw>, g: U16)
    ensures LosesMember(rs, g, WriteAcl(ExpelList(ReadAcl(rs), g)))
  {
    hide ReadAcl, WriteAcl, Expelled, ReadEntry, WriteEntry, Filled, Drop;
    var es := ReadAcl(rs);
    var list := ExpelList(es, g);
    var after := WriteAcl(list);
    AdminWritten(g);
    assert after[0] == ADMIN_RAW;
    forall e | e in after ensures e == ADMIN_RAW || exists r :: r in rs && Expels(r, g, e) {
      EntryWritten(list, e);
      var d :| d in list && WriteEntry(d) == e;
      if d != ADMIN { ExpelledFrom(rs, g, d); }
    }
    forall r, e | r in rs && Expels(r, g, e) ensures exists e' :: e' in after && Expels(r, g, e') {
      var d := ExpelledTo(rs, g, r, e);
      EntryWritten(list, WriteEntry(d));
    }
  }

  lemma ExpelledFrom(rs: seq<AclRaw>, g: U16, d: AclEntry)
    requires d in Expelled(ReadAcl(rs), g)
    ensures exists r :: r in rs && Expels(r, g, WriteEntry(d))
  {
    hide ReadAcl, Expelled;
    InExpelled(ReadAcl(rs), g, d);
    var o :| o in ReadAcl(rs) && o.privilege != 0 && o.authMode != 0 && !IsAdmin(o)
      && if IsGroupEntry(o) then Drop(o.subjects, g as U64) != [] && d == o.(subjects := Drop(o.subjects, g as U64))
         else d == o;
    EntryRead(rs, o);
    var r :| r in rs && ReadEntry(r) == o;
    EntryKinds(r);
    assert Expels(r, g, WriteEntry(d));
  }

  lemma ExpelledTo(rs: seq<AclRaw>, g: U16, r: AclRaw, e: AclRaw) returns (d: AclEntry)
    requires r in rs && Expels(r, g, e)
    ensures d in Expelled(ReadAcl(rs), g) && Expels(r, g, WriteEntry(d))
  {
    hide ReadAcl, Expelled;
    var o := ReadEntry(r);
    EntryRead(rs, o);
    EntryKinds(r);
    d := if IsGroupEntry(o) then o.(subjects := Drop(o.subjects, g as U64)) else o;
    if IsGroupEntry(o) { assert e.subjects.value[0] in Drop(o.subjects, g as U64); }
    InExpelled(ReadAcl(rs), g, d);
  }
}

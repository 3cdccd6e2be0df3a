/** How attribute reports build a device's endpoints and the pending type map, in any order. */
module Interrogation {
  import opened CTypes
  import opened Endpoints

  const ROOT_NODE: U32 := 0x0016

  /** One decoded report. A device-type entry without its type field arrives as 0. */
  datatype Report =
    | DeviceTypeList(ep: U16, types: seq<U32>)
    | PartsList(ep: U16, ids: seq<U16>)
    | NodeLabel(ep: U16, text: string)

  type PendingMap = map<U16, seq<U32>>

  function AfterTypes(eps: seq<Endpoint>, ep: U16, types: seq<U32>): seq<Endpoint> {
    if types == [] then eps else
    var n := |types| - 1;
    var before := AfterTypes(eps, ep, types[..n]);
    if types[n] == 0 then before else WithType(before, ep, types[n])
  }

  function AfterParts(eps: seq<Endpoint>, ep: U16, ids: seq<U16>): seq<Endpoint> {
    if ids == [] then eps else
    var n := |ids| - 1;
    WithPart(WithEndpoint(AfterParts(eps, ep, ids[..n]), ids[n]), ep, ids[n])
  }

  function After(eps: seq<Endpoint>, r: Report): seq<Endpoint> {
    match r
    case DeviceTypeList(ep, types) => AfterTypes(WithEndpoint(eps, ep), ep, types)
    case PartsList(ep, ids) => AfterParts(eps, ep, ids)
    case NodeLabel(ep, text) => WithLabel(WithEndpoint(eps, ep), ep, text)
  }

  function AfterAll(eps: seq<Endpoint>, rs: seq<Report>): seq<Endpoint> {
    if rs == [] then eps else After(AfterAll(eps, rs[..|rs| - 1]), rs[|rs| - 1])
  }

  function NonZero(types: seq<U32>): (r: seq<U32>)
    ensures forall t :: t in r <==> t in types && t != 0
  {
    if types == [] then [] else
    var n := |types| - 1;
    NonZero(types[..n]) + if types[n] == 0 then [] else [types[n]]
  }

  function TypesIn(m: PendingMap, ep: U16): seq<U32> {
    if ep in m then m[ep] else []
  }

  function PendingAfter(m: PendingMap, r: Report): PendingMap {
    if r.DeviceTypeList? && NonZero(r.types) != [] then m[r.ep := TypesIn(m, r.ep) + NonZero(r.types)] else m
  }

  function PendingAll(m: PendingMap, rs: seq<Report>): PendingMap {
    if rs == [] then m else PendingAfter(PendingAll(m, rs[..|rs| - 1]), rs[|rs| - 1])
  }

  // ---- Effect of one update -------------------------------------------------------------------

  lemma FirstIndex(eps: seq<Endpoint>, id: U16, i: nat)
    requires i < |eps| && eps[i].id == id && forall j :: 0 <= j < i ==> eps[j].id != id
    ensures FindEndpoint(eps, id) == i && HasEndpoint(eps, id)
  {
  }

  lemma EndpointEffect(eps: seq<Endpoint>, id: U16, x: U16)
    ensures var r := WithEndpoint(eps, id);
      (HasEndpoint(r, x) <==> HasEndpoint(eps, x) || x == id) && (UniqueIds(eps) ==> UniqueIds(r))
      && TypesOf(r, x) == TypesOf(eps, x) && PartsOf(r, x) == PartsOf(eps, x)
  {
    var r := WithEndpoint(eps, id);
    if !HasEndpoint(eps, id) {
      assert forall i :: 0 <= i < |eps| ==> r[i] == eps[i];
      if HasEndpoint(eps, x) {
        FirstIndex(r, x, FindEndpoint(eps, x));
      } else if x == id {
        FirstIndex(r, x, |eps|);
      }
      assert r[|eps|].id == id;
    }
  }

  /** Updating the first endpoint with this id, keeping its id, keeps every lookup in place. */
  lemma SameIndex(eps: seq<Endpoint>, r: seq<Endpoint>, x: U16)
    requires |r| == |eps| && forall i :: 0 <= i < |eps| ==> r[i].id == eps[i].id
    ensures FindEndpoint(r, x) == FindEndpoint(eps, x) && (HasEndpoint(r, x) <==> HasEndpoint(eps, x))
    ensures UniqueIds(eps) ==> UniqueIds(r)
  {
    var i := FindEndpoint(eps, x);
    if i < |eps| {
      FirstIndex(r, x, i);
    }
    var k := FindEndpoint(r, x);
    if k < |r| {
      FirstIndex(eps, x, k);
    }
  }

  lemma TypeEffect(eps: seq<Endpoint>, id: U16, t: U32, x: U16)
    ensures var r := WithType(eps, id, t);
      (HasEndpoint(r, x) <==> HasEndpoint(eps, x)) && (UniqueIds(eps) ==> UniqueIds(r))
      && PartsOf(r, x) == PartsOf(eps, x)
      && TypesOf(r, x) == if x == id && HasEndpoint(eps, id) then AddOnce(TypesOf(eps, x), t) else TypesOf(eps, x)
  {
    SameIndex(eps, WithType(eps, id, t), x);
  }

  lemma PartEffect(eps: seq<Endpoint>, id: U16, c: U16, x: U16)
    ensures var r := WithPart(eps, id, c);
      (HasEndpoint(r, x) <==> HasEndpoint(eps, x)) && (UniqueIds(eps) ==> UniqueIds(r))
      && TypesOf(r, x) == TypesOf(eps, x)
      && PartsOf(r, x) == if x == id && HasEndpoint(eps, id) then AddOnce(PartsOf(eps, x), c) else PartsOf(eps, x)
  {
    SameIndex(eps, WithPart(eps, id, c), x);
  }

  // ---- Effect of one report -------------------------------------------------------------------

  lemma MergeNothing<T(!new)>(s: seq<T>)
    ensures AddAllOnce(s, []) == s
  {
  }

  lemma MergeSnoc<T(!new)>(s: seq<T>, a: seq<T>, t: T)
    ensures AddAllOnce(s, a + [t]) == AddOnce(AddAllOnce(s, a), t)
  {
    assert (a + [t])[..|a|] == a;
  }

  lemma {:induction false} TypesEffect(eps: seq<Endpoint>, ep: U16, types: seq<U32>, x: U16)
    requires HasEndpoint(eps, ep)
    ensures var r := AfterTypes(eps, ep, types);
      (HasEndpoint(r, x) <==> HasEndpoint(eps, x)) && HasEndpoint(r, ep) && (UniqueIds(eps) ==> UniqueIds(r))
      && PartsOf(r, x) == PartsOf(eps, x)
      && TypesOf(r, x) == if x == ep then AddAllOnce(TypesOf(eps, x), NonZero(types)) else TypesOf(eps, x)
  {
    hide HasEndpoint, TypesOf, PartsOf, WithType, UniqueIds, AddOnce, AddAllOnce;
    if types != [] {
      var n := |types| - 1;
      TypesEffect(eps, ep, types[..n], x);
      var before := AfterTypes(eps, ep, types[..n]);
      TypeEffect(before, ep, types[n], x);
      TypeEffect(before, ep, types[n], ep);
      assert types[n] == 0 ==> NonZero(types) == NonZero(types[..n]);
      MergeSnoc(TypesOf(eps, x), NonZero(types[..n]), types[n]);
    } else {
      MergeNothing(TypesOf(eps, x));
    }
  }

  lemma {:induction false} PartsEffect(eps: seq<Endpoint>, ep: U16, ids: seq<U16>, x: U16)
    requires HasEndpoint(eps, ep)
    ensures var r := AfterParts(eps, ep, ids);
      (HasEndpoint(r, x) <==> HasEndpoint(eps, x) || x in ids) && HasEndpoint(r, ep)
      && (UniqueIds(eps) ==> UniqueIds(r)) && TypesOf(r, x) == TypesOf(eps, x)
      && PartsOf(r, x) == if x == ep then AddAllOnce(PartsOf(eps, x), ids) else PartsOf(eps, x)
  {
    hide HasEndpoint, TypesOf, PartsOf, WithPart, WithEndpoint, UniqueIds, AddOnce;
    if ids != [] {
      var n := |ids| - 1;
      MergeSnoc(PartsOf(eps, x), ids[..n], ids[n]);
      PartsEffect(eps, ep, ids[..n], x);
      var before := AfterParts(eps, ep, ids[..n]);
      EndpointEffect(before, ids[n], x);
      EndpointEffect(before, ids[n], ep);
      PartEffect(WithEndpoint(before, ids[n]), ep, ids[n], x);
      PartEffect(WithEndpoint(before, ids[n]), ep, ids[n], ep);
      assert ids == ids[..n] + [ids[n]];
    }
  }

  lemma LabelEffect(eps: seq<Endpoint>, ep: U16, text: string, x: U16)
    ensures var r := WithLabel(eps, ep, text);
      (HasEndpoint(r, x) <==> HasEndpoint(eps, x)) && (UniqueIds(eps) ==> UniqueIds(r))
      && TypesOf(r, x) == TypesOf(eps, x) && PartsOf(r, x) == PartsOf(eps, x)
  {
    SameIndex(eps, WithLabel(eps, ep, text), x);
  }

  /** What a PartsList does whether its endpoint is known or not. */
  lemma {:induction false} AnyPartsEffect(eps: seq<Endpoint>, ep: U16, ids: seq<U16>, x: U16)
    ensures var r := AfterParts(eps, ep, ids);
      && (HasEndpoint(r, x) <==> HasEndpoint(eps, x) || x in ids) && (UniqueIds(eps) ==> UniqueIds(r))
      && TypesOf(r, x) == TypesOf(eps, x) && (x != ep ==> PartsOf(r, x) == PartsOf(eps, x))
      && (NoDuplicates(PartsOf(eps, x)) ==> NoDuplicates(PartsOf(r, x)))
  {
    hide HasEndpoint, TypesOf, PartsOf, WithPart, WithEndpoint, UniqueIds, NoDuplicates;
    if ids != [] {
      var n := |ids| - 1;
      AnyPartsEffect(eps, ep, ids[..n], x);
      var before := AfterParts(eps, ep, ids[..n]);
      EndpointEffect(before, ids[n], x);
      PartEffect(WithEndpoint(before, ids[n]), ep, ids[n], x);
      assert ids == ids[..n] + [ids[n]];
    }
  }

  /** c is listed once the list has named its own endpoint. */
  ghost predicate ListedOnceKnown(ep: U16, ids: seq<U16>, c: U16) {
    exists j :: 0 <= j < |ids| && ids[j] == c && ep in ids[..j + 1]
  }

  lemma NoParts(eps: seq<Endpoint>, ep: U16)
    requires !HasEndpoint(eps, ep)
    ensures PartsOf(eps, ep) == []
  {
  }

  lemma ListedSnoc(ep: U16, ids: seq<U16>, id: U16, c: U16)
    ensures ListedOnceKnown(ep, ids + [id], c) <==> ListedOnceKnown(ep, ids, c) || (c == id && ep in ids + [id])
  {
    var more, n := ids + [id], |ids|;
    assert more[n] == id && more[..n + 1] == more;
    assert forall j :: 0 <= j < n ==> more[j] == ids[j] && more[..j + 1] == ids[..j + 1];
  }

  /** What a PartsList of an endpoint still unknown records: the parts listed once it has named that
      endpoint itself. */
  lemma {:induction false} LatePartsEffect(eps: seq<Endpoint>, ep: U16, ids: seq<U16>, c: U16)
    requires !HasEndpoint(eps, ep)
    ensures HasEndpoint(AfterParts(eps, ep, ids), ep) <==> ep in ids
    ensures c in PartsOf(AfterParts(eps, ep, ids), ep) <==> ListedOnceKnown(ep, ids, c)
  {
    hide HasEndpoint, PartsOf, TypesOf, WithPart, WithEndpoint, UniqueIds, ListedOnceKnown;
    if ids == [] {
      NoParts(eps, ep);
      assert !ListedOnceKnown(ep, [], c) by { NothingListed(ep, c); }
    } else {
      var n := |ids| - 1;
      var before := AfterParts(eps, ep, ids[..n]);
      LatePartsEffect(eps, ep, ids[..n], c);
      ListedSnoc(ep, ids[..n], ids[n], c);
      EndpointEffect(before, ids[n], ep);
      PartEffect(WithEndpoint(before, ids[n]), ep, ids[n], ep);
      assert ids == ids[..n] + [ids[n]];
    }
  }

  lemma NothingListed(ep: U16, c: U16)
    ensures !ListedOnceKnown(ep, [], c)
  {
  }

  /** A PartsList, whatever it repeats, is recorded in full exactly when its endpoint is already in the
      table or every id in it is listed at or after a mention of the endpoint itself. */
  lemma PartsNeedTheirEndpoint(eps: seq<Endpoint>, ep: U16, ids: seq<U16>)
    ensures (forall c :: c in ids ==> c in PartsOf(AfterParts(eps, ep, ids), ep))
            <==> HasEndpoint(eps, ep) || forall c :: c in ids ==> ListedOnceKnown(ep, ids, c)
  {
    if HasEndpoint(eps, ep) {
      PartsEffect(eps, ep, ids, ep);
    } else {
      forall c ensures c in PartsOf(AfterParts(eps, ep, ids), ep) <==> ListedOnceKnown(ep, ids, c) {
        LatePartsEffect(eps, ep, ids, c);
      }
    }
  }

  // ---- A whole interrogation ------------------------------------------------------------------

  ghost predicate Names(r: Report, x: U16) {
    if r.PartsList? then x in r.ids else x == r.ep
  }

  ghost predicate Mentioned(rs: seq<Report>, x: U16) {
    exists r :: r in rs && Names(r, x)
  }

  ghost predicate TypeReported(rs: seq<Report>, x: U16, t: U32) {
    t != 0 && exists r :: r in rs && r.DeviceTypeList? && r.ep == x && t in r.types
  }

  ghost predicate PartReported(rs: seq<Report>, x: U16, c: U16) {
    exists r :: r in rs && r.PartsList? && r.ep == x && c in r.ids
  }

  /** The i-th report lists c as a part of x at a time when x is known. */
  ghost predicate RecordsAt(rs: seq<Report>, i: int, x: U16, c: U16) {
    0 <= i < |rs| && rs[i].PartsList? && rs[i].ep == x && c in rs[i].ids
    && (Mentioned(rs[..i], x) || ListedOnceKnown(x, rs[i].ids, c))
  }

  ghost predicate PartRecorded(rs: seq<Report>, x: U16, c: U16) {
    exists i :: RecordsAt(rs, i, x, c)
  }

  /** Each endpoint's DeviceTypeList arrives before its PartsList. */
  ghost predicate TypesFirst(rs: seq<Report>) {
    forall i :: 0 <= i < |rs| && rs[i].PartsList? ==>
      exists j :: 0 <= j < i && rs[j].DeviceTypeList? && rs[j].ep == rs[i].ep
  }

  /** The table holds what the reports say about x, each fact once, but for the parts that came too early. */
  ghost predicate Faithful(eps: seq<Endpoint>, rs: seq<Report>, x: U16) {
    (HasEndpoint(eps, x) <==> Mentioned(rs, x))
    && (forall t :: t in TypesOf(eps, x) <==> TypeReported(rs, x, t))
    && (forall c :: c in PartsOf(eps, x) <==> PartRecorded(rs, x, c))
    && NoDuplicates(TypesOf(eps, x)) && NoDuplicates(PartsOf(eps, x))
  }

  lemma OneMoreReport(rs: seq<Report>, r: Report, x: U16)
    ensures Mentioned(rs + [r], x) <==> Mentioned(rs, x) || Names(r, x)
    ensures forall t :: TypeReported(rs + [r], x, t) <==>
      TypeReported(rs, x, t) || (t != 0 && r.DeviceTypeList? && r.ep == x && t in r.types)
  {
    var more := rs + [r];
    assert forall s :: s in more <==> s in rs || s == r;
  }

  lemma OneMoreList(rs: seq<Report>, r: Report, x: U16, c: U16)
    ensures PartRecorded(rs + [r], x, c) <==>
      PartRecorded(rs, x, c)
      || (r.PartsList? && r.ep == x && c in r.ids && (Mentioned(rs, x) || ListedOnceKnown(x, r.ids, c)))
  {
    hide Mentioned, ListedOnceKnown;
    var more, n := rs + [r], |rs|;
    assert more[..n] == rs && more[n] == r;
    assert forall i :: 0 <= i < n ==> more[i] == rs[i] && more[..i] == rs[..i];
    assert RecordsAt(more, n, x, c) <==>
      (r.PartsList? && r.ep == x && c in r.ids && (Mentioned(rs, x) || ListedOnceKnown(x, r.ids, c)));
    assert forall i :: 0 <= i < n ==> (RecordsAt(more, i, x, c) <==> RecordsAt(rs, i, x, c));
    hide RecordsAt;
    if i :| RecordsAt(more, i, x, c) && i != n { assert 0 <= i < n by { InRange(more, i, x, c); } }
    if i :| RecordsAt(rs, i, x, c) { assert 0 <= i < n by { InRange(rs, i, x, c); } }
  }

  lemma InRange(rs: seq<Report>, i: int, x: U16, c: U16)
    requires RecordsAt(rs, i, x, c)
    ensures 0 <= i < |rs|
  {
  }

  lemma FaithfulStep(eps: seq<Endpoint>, rs: seq<Report>, r: Report, x: U16)
    requires Faithful(eps, rs, x)
    ensures Faithful(After(eps, r), rs + [r], x)
    ensures UniqueIds(eps) ==> UniqueIds(After(eps, r))
  {
    hide HasEndpoint, TypesOf, PartsOf, WithEndpoint, WithLabel, AfterTypes, AfterParts, UniqueIds;
    hide Mentioned, TypeReported, PartRecorded, NoDuplicates, AddAllOnce, NonZero, ListedOnceKnown;
    OneMoreReport(rs, r, x);
    forall c ensures PartRecorded(rs + [r], x, c) <==>
        PartRecorded(rs, x, c)
        || (r.PartsList? && r.ep == x && c in r.ids && (Mentioned(rs, x) || ListedOnceKnown(x, r.ids, c)))
    {
      OneMoreList(rs, r, x, c);
    }
    match r
    case DeviceTypeList(ep, types) =>
      EndpointEffect(eps, ep, x);
      EndpointEffect(eps, ep, ep);
      TypesEffect(WithEndpoint(eps, ep), ep, types, x);
    case PartsList(ep, ids) =>
      AnyPartsEffect(eps, ep, ids, x);
      if x == ep { OwnPartsEffect(eps, ep, ids); }
    case NodeLabel(ep, text) =>
      EndpointEffect(eps, ep, x);
      LabelEffect(WithEndpoint(eps, ep), ep, text, x);
  }

  lemma OwnPartsEffect(eps: seq<Endpoint>, ep: U16, ids: seq<U16>)
    ensures forall c :: c in PartsOf(AfterParts(eps, ep, ids), ep) <==>
      c in PartsOf(eps, ep) || (c in ids && (HasEndpoint(eps, ep) || ListedOnceKnown(ep, ids, c)))
  {
    hide PartsOf, AfterParts;
    if HasEndpoint(eps, ep) {
      PartsEffect(eps, ep, ids, ep);
    } else {
      NoParts(eps, ep);
      forall c ensures c in PartsOf(AfterParts(eps, ep, ids), ep) <==> ListedOnceKnown(ep, ids, c) {
        LatePartsEffect(eps, ep, ids, c);
      }
    }
  }

  /** Whatever the order, the table ends up holding exactly what was reported, but that a part is lost
      exactly when every list naming it came before its endpoint was known and named it before that
      endpoint. */
  lemma {:induction false} TableIsFaithful(rs: seq<Report>)
    ensures UniqueIds(AfterAll([], rs)) && forall x: U16 :: Faithful(AfterAll([], rs), rs, x)
  {
    hide After;
    if rs == [] {
      assert forall x: U16 :: Faithful([], [], x) by { NothingReported(); }
    } else {
      hide Faithful;
      var n := |rs| - 1;
      assert rs == rs[..n] + [rs[n]];
      TableIsFaithful(rs[..n]);
      forall x: U16 ensures Faithful(AfterAll([], rs), rs, x) {
        FaithfulStep(AfterAll([], rs[..n]), rs[..n], rs[n], x);
      }
      FaithfulStep(AfterAll([], rs[..n]), rs[..n], rs[n], 0);
    }
  }

  lemma NothingReported()
    ensures forall x: U16 :: Faithful([], [], x)
  {
  }

  // ---- Labels -----------------------------------------------------------------------------------------

  function LabelOf(eps: seq<Endpoint>, x: U16): string {
    if HasEndpoint(eps, x) then eps[FindEndpoint(eps, x)].nodeLabel else ""
  }

  /** The i-th report is the last NodeLabel of x. */
  ghost predicate LastLabelAt(rs: seq<Report>, i: int, x: U16) {
    0 <= i < |rs| && rs[i].NodeLabel? && rs[i].ep == x
    && forall j :: i < j < |rs| ==> !(rs[j].NodeLabel? && rs[j].ep == x)
  }

  /** Only a NodeLabel touches a label, and only that of its endpoint. */
  lemma LabelStep(eps: seq<Endpoint>, r: Report, x: U16)
    ensures LabelOf(After(eps, r), x) == if r.NodeLabel? && r.ep == x then r.text else LabelOf(eps, x)
  {
    hide HasEndpoint, WithType, WithPart, AfterTypes, AfterParts;
    match r
    case DeviceTypeList(ep, types) =>
      NewKeepsLabel(eps, ep, x);
      TypesKeepLabel(WithEndpoint(eps, ep), ep, types, x);
    case PartsList(ep, ids) => PartsKeepLabel(eps, ep, ids, x);
    case NodeLabel(ep, text) =>
      NewKeepsLabel(eps, ep, x);
      EndpointEffect(eps, ep, ep);
      SameIndex(WithEndpoint(eps, ep), WithLabel(WithEndpoint(eps, ep), ep, text), x);
  }

  lemma NewKeepsLabel(eps: seq<Endpoint>, id: U16, x: U16)
    ensures LabelOf(WithEndpoint(eps, id), x) == LabelOf(eps, x)
  {
    var r := WithEndpoint(eps, id);
    if HasEndpoint(eps, x) {
      FirstIndex(r, x, FindEndpoint(eps, x));
    } else {
      EndpointEffect(eps, id, x);
    }
  }

  lemma EditKeepsLabel(eps: seq<Endpoint>, r: seq<Endpoint>, x: U16)
    requires |r| == |eps| && forall i :: 0 <= i < |eps| ==> r[i].id == eps[i].id && r[i].nodeLabel == eps[i].nodeLabel
    ensures LabelOf(r, x) == LabelOf(eps, x)
  {
    SameIndex(eps, r, x);
  }

  lemma {:induction false} TypesKeepLabel(eps: seq<Endpoint>, ep: U16, types: seq<U32>, x: U16)
    ensures LabelOf(AfterTypes(eps, ep, types), x) == LabelOf(eps, x)
  {
    hide LabelOf, WithType;
    if types != [] {
      var n := |types| - 1;
      var before := AfterTypes(eps, ep, types[..n]);
      TypesKeepLabel(eps, ep, types[..n], x);
      EditKeepsLabel(before, WithType(before, ep, types[n]), x);
    }
  }

  lemma {:induction false} PartsKeepLabel(eps: seq<Endpoint>, ep: U16, ids: seq<U16>, x: U16)
    ensures LabelOf(AfterParts(eps, ep, ids), x) == LabelOf(eps, x)
  {
    hide LabelOf, WithPart, WithEndpoint;
    if ids != [] {
      var n := |ids| - 1;
      var before := AfterParts(eps, ep, ids[..n]);
      PartsKeepLabel(eps, ep, ids[..n], x);
      NewKeepsLabel(before, ids[n], x);
      EditKeepsLabel(WithEndpoint(before, ids[n]), WithPart(WithEndpoint(before, ids[n]), ep, ids[n]), x);
    }
  }

  /** An endpoint has the label last reported for it. */
  lemma {:induction false} LabelsAreLast(rs: seq<Report>, x: U16, i: nat)
    requires LastLabelAt(rs, i, x)
    ensures LabelOf(AfterAll([], rs), x) == rs[i].text
    decreases |rs|
  {
    hide After, LabelOf;
    var n := |rs| - 1;
    LabelStep(AfterAll([], rs[..n]), rs[n], x);
    if i < n { LabelsAreLast(rs[..n], x, i); }
  }

  /** And none if none was reported. */
  lemma {:induction false} NoLabelIsEmpty(rs: seq<Report>, x: U16)
    requires forall i :: 0 <= i < |rs| ==> !(rs[i].NodeLabel? && rs[i].ep == x)
    ensures LabelOf(AfterAll([], rs), x) == ""
  {
    if rs == [] {
      assert !HasEndpoint([], x);
    } else {
      hide After, LabelOf;
      var n := |rs| - 1;
      NoLabelIsEmpty(rs[..n], x);
      LabelStep(AfterAll([], rs[..n]), rs[n], x);
    }
  }

  /** Where each DeviceTypeList comes first no part is lost. */
  lemma TypesFirstRecordsAll(rs: seq<Report>, x: U16, c: U16)
    requires TypesFirst(rs)
    ensures PartRecorded(rs, x, c) <==> PartReported(rs, x, c)
  {
    if PartReported(rs, x, c) {
      var r :| r in rs && r.PartsList? && r.ep == x && c in r.ids;
      var i :| 0 <= i < |rs| && rs[i] == r;
      var j :| 0 <= j < i && rs[j].DeviceTypeList? && rs[j].ep == x;
      assert rs[..i][j] in rs[..i] && Names(rs[j], x);
      assert RecordsAt(rs, i, x, c);
    }
  }

  /** Two orders of the same reports give the same endpoints, types and parts. */
  lemma OrderDoesNotMatter(rs: seq<Report>, qs: seq<Report>, x: U16)
    requires TypesFirst(rs) && TypesFirst(qs) && multiset(rs) == multiset(qs)
    ensures var a, b := AfterAll([], rs), AfterAll([], qs);
      (HasEndpoint(a, x) <==> HasEndpoint(b, x))
      && multiset(TypesOf(a, x)) == multiset(TypesOf(b, x))
      && multiset(PartsOf(a, x)) == multiset(PartsOf(b, x))
  {
    forall r ensures r in rs <==> r in qs {
      assert r in rs <==> r in multiset(rs);
      assert r in qs <==> r in multiset(qs);
    }
    TableIsFaithful(rs);
    TableIsFaithful(qs);
    var a, b := AfterAll([], rs), AfterAll([], qs);
    assert Faithful(a, rs, x) && Faithful(b, qs, x);
    forall c ensures PartRecorded(rs, x, c) <==> PartRecorded(qs, x, c) {
      TypesFirstRecordsAll(rs, x, c);
      TypesFirstRecordsAll(qs, x, c);
    }
    SameElements(TypesOf(a, x), TypesOf(b, x));
    SameElements(PartsOf(a, x), PartsOf(b, x));
  }

  lemma SameElements<T>(s: seq<T>, t: seq<T>)
    requires NoDuplicates(s) && NoDuplicates(t) && forall y :: y in s <==> y in t
    ensures multiset(s) == multiset(t)
  {
    forall y ensures multiset(s)[y] == multiset(t)[y] {
      OccursOnce(s, y);
      OccursOnce(t, y);
    }
  }

  lemma {:induction false} OccursOnce<T>(s: seq<T>, y: T)
    requires NoDuplicates(s)
    ensures multiset(s)[y] == if y in s then 1 else 0
  {
    if s != [] {
      var n := |s| - 1;
      assert s == s[..n] + [s[n]];
      OccursOnce(s[..n], y);
    }
  }

  // ---- The primary type -------------------------------------------------------------------------

  /** The first type in the list that is not the root node's. */
  function MainType(types: seq<U32>): (r: Option<U32>)
    ensures r == None <==> forall t :: t in types ==> t == ROOT_NODE
    ensures r.Some? ==> r.value in types && r.value != ROOT_NODE
  {
    if types == [] then None
    else if types[0] != ROOT_NODE then
      assert types[0] in types;
      Some(types[0])
    else
      assert forall t :: t in types <==> t == types[0] || t in types[1..];
      MainType(types[1..])
  }

  /** It is the earliest in the list other than 0x16, the root node's. */
  lemma {:induction false} MainIsFirst(types: seq<U32>)
    ensures MainType(types).Some? ==>
      exists i :: 0 <= i < |types| && types[i] == MainType(types).value && types[i] != 0x16 && OnlyRootBefore(types, i)
    ensures MainType(types).None? <==> OnlyRootBefore(types, |types|)
  {
    if types != [] && types[0] == 0x16 {
      MainIsFirst(types[1..]);
      assert forall i :: 0 <= i < |types| - 1 ==> types[1..][i] == types[i + 1];
      if MainType(types).Some? {
        var i :| 0 <= i < |types| - 1 && types[1..][i] == MainType(types).value && OnlyRootBefore(types[1..], i);
        forall j | 0 <= j < i + 1 ensures types[j] == 0x16 {
          if j > 0 { assert types[j] == types[1..][j - 1]; }
        }
        assert OnlyRootBefore(types, i + 1) && types[i + 1] == types[1..][i];
      } else {
        forall j | 0 <= j < |types| ensures types[j] == 0x16 {
          if j > 0 { assert types[j] == types[1..][j - 1]; }
        }
      }
    } else if types != [] {
      assert OnlyRootBefore(types, 0);
    }
  }

  ghost predicate OnlyRootBefore(types: seq<U32>, i: nat)
    requires i <= |types|
  {
    forall j :: 0 <= j < i ==> types[j] == 0x16
  }

  function TypeMap(eps: seq<Endpoint>): PendingMap {
    map id | id in Ids(eps) :: TypesOf(eps, id)
  }

  function MainOf(m: PendingMap, ep: U16): Option<U32> {
    MainType(TypesIn(m, ep))
  }

  /** ep is the lowest endpoint other than the root with a type of its own. */
  ghost predicate LowestMain(m: PendingMap, ep: U16) {
    ep != 0 && MainOf(m, ep).Some? && forall e: U16 :: 0 < e < ep ==> MainOf(m, e).None?
  }

  ghost predicate IsPrimary(m: PendingMap, r: U32) {
    if exists e: U16 :: e != 0 && MainOf(m, e).Some? then exists e :: LowestMain(m, e) && MainOf(m, e) == Some(r)
    else MainOf(m, 0) == Some(r) || (MainOf(m, 0).None? && r == 0)
  }

  lemma PrimaryIsUnique(m: PendingMap, r: U32, q: U32)
    requires IsPrimary(m, r) && IsPrimary(m, q)
    ensures r == q
  {
  }

  lemma PrimaryIsZeroIffNone(m: PendingMap, r: U32)
    requires IsPrimary(m, r) && forall e: U16 :: 0 !in TypesIn(m, e)
    ensures r == 0 <==> forall e: U16, t :: t in TypesIn(m, e) ==> t == ROOT_NODE
  {
    assert forall e: U16 :: MainOf(m, e) != Some(0);
    assert r == 0 <==> forall e: U16 :: MainOf(m, e).None?;
    assert forall e: U16 :: MainOf(m, e).None? <==> forall t :: t in TypesIn(m, e) ==> t == ROOT_NODE;
  }

  lemma {:induction false} MergeKeepsMain(s: seq<U32>)
    ensures MainType(AddAllOnce([], s)) == MainType(s)
  {
    if s != [] {
      var n := |s| - 1;
      MergeKeepsMain(s[..n]);
      assert s == s[..n] + [s[n]];
      MainTypeAppend(s[..n], s[n]);
      MainTypeAppend(AddAllOnce([], s[..n]), s[n]);
    }
  }

  lemma {:induction false} MainTypeAppend(s: seq<U32>, t: U32)
    ensures MainType(s + [t]) == if MainType(s).Some? then MainType(s) else MainType([t])
  {
    if s != [] {
      assert (s + [t])[1..] == s[1..] + [t];
      MainTypeAppend(s[1..], t);
    }
  }

  lemma {:induction false} MergeTwice<T(!new)>(s: seq<T>, a: seq<T>, b: seq<T>)
    ensures AddAllOnce(AddAllOnce(s, a), b) == AddAllOnce(s, a + b)
  {
    hide AddOnce, AddAllOnce;
    if b == [] {
      assert a + b == a;
      MergeNothing(AddAllOnce(s, a));
    } else {
      var n := |b| - 1;
      MergeTwice(s, a, b[..n]);
      MergeSnoc(AddAllOnce(s, a), b[..n], b[n]);
      MergeSnoc(s, a + b[..n], b[n]);
      assert a + b == a + b[..n] + [b[n]] && b == b[..n] + [b[n]];
    }
  }

  lemma {:induction false} IndexStep(eps: seq<Endpoint>, m: PendingMap, r: Report, x: U16)
    requires TypesOf(eps, x) == AddAllOnce([], TypesIn(m, x)) && 0 !in TypesIn(m, x)
    ensures TypesOf(After(eps, r), x) == AddAllOnce([], TypesIn(PendingAfter(m, r), x))
    ensures 0 !in TypesIn(PendingAfter(m, r), x)
  {
    hide HasEndpoint, TypesOf, PartsOf, WithEndpoint, WithLabel, AfterTypes, AfterParts, UniqueIds, NonZero;
    match r
    case DeviceTypeList(ep, types) =>
      EndpointEffect(eps, ep, x);
      EndpointEffect(eps, ep, ep);
      TypesEffect(WithEndpoint(eps, ep), ep, types, x);
      MergeTwice([], TypesIn(m, x), NonZero(types));
      assert TypesIn(m, x) + [] == TypesIn(m, x);
    case PartsList(ep, ids) =>
      AnyPartsEffect(eps, ep, ids, x);
    case NodeLabel(ep, text) =>
      EndpointEffect(eps, ep, x);
      LabelEffect(WithEndpoint(eps, ep), ep, text, x);
  }

  /** The two indexes agree: the table lists the pending types without their repetitions. */
  lemma {:induction false} IndexesAgree(rs: seq<Report>, x: U16)
    ensures TypesOf(AfterAll([], rs), x) == AddAllOnce([], TypesIn(PendingAll(map[], rs), x))
    ensures 0 !in TypesIn(PendingAll(map[], rs), x)
  {
    if rs != [] {
      hide After, PendingAfter, TypesOf, HasEndpoint, TypesIn;
      var n := |rs| - 1;
      IndexesAgree(rs[..n], x);
      IndexStep(AfterAll([], rs[..n]), PendingAll(map[], rs[..n]), rs[n], x);
    }
  }

  lemma SameMains(m: PendingMap, t: PendingMap, r: U32)
    requires forall e: U16 :: MainOf(m, e) == MainOf(t, e)
    ensures IsPrimary(m, r) <==> IsPrimary(t, r)
  {
    hide MainOf;
    assert forall e: U16 :: LowestMain(m, e) <==> LowestMain(t, e);
  }

  /** The type chosen from the pending map is the one the finished table would give. */
  lemma PrimaryFromEitherIndex(rs: seq<Report>, r: U32)
    ensures IsPrimary(PendingAll(map[], rs), r) <==> IsPrimary(TypeMap(AfterAll([], rs)), r)
  {
    hide IsPrimary, AfterAll, PendingAll;
    var m, t := PendingAll(map[], rs), TypeMap(AfterAll([], rs));
    forall e: U16 ensures MainOf(m, e) == MainOf(t, e) {
      IndexesAgree(rs, e);
      MergeKeepsMain(TypesIn(m, e));
      assert TypesIn(t, e) == TypesOf(AfterAll([], rs), e);
    }
    SameMains(m, t, r);
  }

  /** A PartsList that overtakes its endpoint's DeviceTypeList loses its parts. */
  lemma EarlyPartsAreLost()
    ensures PartsOf(AfterAll([], [PartsList(1, [2]), DeviceTypeList(1, [0x0100])]), 1) == []
    ensures PartsOf(AfterAll([], [DeviceTypeList(1, [0x0100]), PartsList(1, [2])]), 1) == [2]
  {
    var d: seq<Report>, p: seq<Report> := [DeviceTypeList(1, [0x0100])], [PartsList(1, [2])];
    assert [PartsList(1, [2]), DeviceTypeList(1, [0x0100])][..1] == p;
    assert [DeviceTypeList(1, [0x0100]), PartsList(1, [2])][..1] == d;
    EndpointEffect([], 1, 1);
    TypesEffect(WithEndpoint([], 1), 1, [0x0100], 1);
    PartsEffect(AfterAll([], d), 1, [2], 1);
    LatePartsEffect([], 1, [2], 2);
    forall c ensures c !in PartsOf(AfterAll([], p), 1) { LatePartsEffect([], 1, [2], c); }
    EndpointEffect(AfterAll([], p), 1, 1);
    TypesEffect(WithEndpoint(AfterAll([], p), 1), 1, [0x0100], 1);
  }
}
